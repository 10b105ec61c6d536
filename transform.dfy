/**
 * The transform step: deduplicate purchases and their extra information,
 * left-join them on the purchase key, keep approved purchases that have a
 * release date, sum their values per (release date, subsidiary), and stamp
 * every total with the run's calculation timestamp as the latest version.
 */
module Transform {
  import opened Wrappers
  import opened Records
  import opened Keyed
  import opened Latest

  /** A row of the left join: a purchase and its extra information, if there is any. */
  datatype Joined = Joined(purchase: Purchase, info: Option<ExtraInfo>)

  /** The subsidiary column of a joined row: NULL when no extra information matched. */
  function JoinedSubsidiary(j: Joined): Option<string>
  {
    if j.info.Some? then j.info.value.subsidiary else None
  }

  /** The extra-information rows that share the purchase's key. */
  function MatchingInfos(p: Purchase, infos: seq<ExtraInfo>): seq<ExtraInfo>
  {
    WithKey(infos, InfoKeyOf, PurchaseKeyOf(p))
  }

  /** The rows a left join produces for one purchase: one per match, or one with no extra information. */
  function JoinPurchase(p: Purchase, infos: seq<ExtraInfo>): seq<Joined>
  {
    var m := MatchingInfos(p, infos);
    if m == [] then [Joined(p, None)]
    else seq(|m|, i requires 0 <= i < |m| => Joined(p, Some(m[i])))
  }

  /** Left join of purchases with extra information on (purchase_id, purchase_partition).
      A left join drops no purchase, so it has at least one row per purchase. */
  function LeftJoin(ps: seq<Purchase>, infos: seq<ExtraInfo>): (r: seq<Joined>)
    ensures |r| >= |ps|
  {
    if ps == [] then [] else JoinPurchase(ps[0], infos) + LeftJoin(ps[1..], infos)
  }

  /** Left join semantics: every joined row pairs a purchase with a matching
      extra-information row, or with none exactly when no row matches; and
      every purchase is kept. */
  lemma {:induction false} LeftJoinRows(ps: seq<Purchase>, infos: seq<ExtraInfo>)
    ensures forall j :: j in LeftJoin(ps, infos) ==> j.purchase in ps
    ensures forall j :: j in LeftJoin(ps, infos) && j.info.Some? ==>
              j.info.value in infos && InfoKeyOf(j.info.value) == PurchaseKeyOf(j.purchase)
    ensures forall j :: j in LeftJoin(ps, infos) && j.info.None? ==>
              forall e :: e in infos ==> InfoKeyOf(e) != PurchaseKeyOf(j.purchase)
    ensures forall p :: p in ps ==> exists j :: j in LeftJoin(ps, infos) && j.purchase == p
  {
    if ps != [] {
      LeftJoinRows(ps[1..], infos);
      var head := JoinPurchase(ps[0], infos);
      var m := MatchingInfos(ps[0], infos);
      assert LeftJoin(ps, infos) == head + LeftJoin(ps[1..], infos);
      assert forall j :: j in head ==> j.purchase == ps[0] && (j.info.Some? ==> j.info.value in m) by {
        forall j | j in head ensures j.purchase == ps[0] && (j.info.Some? ==> j.info.value in m) {
          if m != [] {
            var i :| 0 <= i < |m| && head[i] == j;
          }
        }
      }
      assert head[0] in head;
      forall p | p in ps ensures exists j :: j in LeftJoin(ps, infos) && j.purchase == p {
        if p == ps[0] {
          assert head[0] in LeftJoin(ps, infos);
        } else {
          assert p in ps[1..];
          var j :| j in LeftJoin(ps[1..], infos) && j.purchase == p;
          assert j in LeftJoin(ps, infos);
        }
      }
    }
  }

  /** Left join completeness: every matching (purchase, extra information)
      pair yields a joined row, also when a key has several extra-information rows. */
  lemma {:induction false} LeftJoinEveryMatch(ps: seq<Purchase>, infos: seq<ExtraInfo>)
    ensures forall p, e :: p in ps && e in infos && InfoKeyOf(e) == PurchaseKeyOf(p) ==>
              Joined(p, Some(e)) in LeftJoin(ps, infos)
  {
    if ps != [] {
      LeftJoinEveryMatch(ps[1..], infos);
      var head := JoinPurchase(ps[0], infos);
      assert LeftJoin(ps, infos) == head + LeftJoin(ps[1..], infos);
      forall p, e | p in ps && e in infos && InfoKeyOf(e) == PurchaseKeyOf(p)
        ensures Joined(p, Some(e)) in LeftJoin(ps, infos)
      {
        if p == ps[0] {
          var m := MatchingInfos(p, infos);
          assert e in m;
          var i :| 0 <= i < |m| && m[i] == e;
          assert head[i] == Joined(p, Some(e));
        } else {
          assert p in ps[1..];
        }
      }
    }
  }

  /** With extra information deduplicated, the left join yields exactly one
      row per purchase, in order: with the purchase's extra information when
      there is a match and with none otherwise. */
  lemma {:induction false} LeftJoinOneRowPerPurchase(ps: seq<Purchase>, infos: seq<ExtraInfo>)
    requires DistinctKeys(infos, InfoKeyOf)
    ensures |LeftJoin(ps, infos)| == |ps|
    ensures forall i :: 0 <= i < |ps| ==>
              && LeftJoin(ps, infos)[i].purchase == ps[i]
              && (LeftJoin(ps, infos)[i].info.None? <==> forall e :: e in infos ==> InfoKeyOf(e) != PurchaseKeyOf(ps[i]))
              && (LeftJoin(ps, infos)[i].info.Some? ==>
                    LeftJoin(ps, infos)[i].info.value in infos &&
                    InfoKeyOf(LeftJoin(ps, infos)[i].info.value) == PurchaseKeyOf(ps[i]))
  {
    if ps != [] {
      LeftJoinOneRowPerPurchase(ps[1..], infos);
      var m := MatchingInfos(ps[0], infos);
      DistinctKeysSelectOne(infos, InfoKeyOf, PurchaseKeyOf(ps[0]));
      var head := JoinPurchase(ps[0], infos);
      assert |head| == 1;
      var r := LeftJoin(ps, infos);
      assert r == head + LeftJoin(ps[1..], infos);
      if m != [] {
        assert m[0] in m;
      }
      forall i | 0 <= i < |ps|
        ensures && r[i].purchase == ps[i]
                && (r[i].info.None? <==> forall e :: e in infos ==> InfoKeyOf(e) != PurchaseKeyOf(ps[i]))
                && (r[i].info.Some? ==> r[i].info.value in infos && InfoKeyOf(r[i].info.value) == PurchaseKeyOf(ps[i]))
      {
        if i > 0 {
          assert r[i] == LeftJoin(ps[1..], infos)[i - 1];
          assert ps[i] == ps[1..][i - 1];
        }
      }
    }
  }

  /** The filter of the transform: a release date is present and the status is APROVADA. */
  predicate Eligible(j: Joined)
  {
    j.purchase.releaseDate.Some? && j.purchase.purchaseStatus == Some(Approved)
  }

  /** The columns of an eligible joined row that the aggregation reads. */
  datatype Sale = Sale(date: Date, subsidiary: Option<string>, value: Cents)

  function SaleOf(j: Joined): Sale
    requires Eligible(j)
  {
    Sale(j.purchase.releaseDate.value, JoinedSubsidiary(j), j.purchase.purchaseTotalValue)
  }

  function SaleKey(s: Sale): DayKey { DayKey(s.date, s.subsidiary) }
  function SaleValue(s: Sale): Cents { s.value }

  /** The eligible joined rows, in order, projected onto the aggregated columns:
      the filter only drops rows, and only ineligible ones reach nothing. */
  function EligibleSales(js: seq<Joined>): (r: seq<Sale>)
    ensures |r| <= |js|
    ensures forall s :: s in r ==> exists j :: j in js && Eligible(j) && SaleOf(j) == s
  {
    if js == [] then []
    else if Eligible(js[0]) then [SaleOf(js[0])] + EligibleSales(js[1..])
    else EligibleSales(js[1..])
  }

  /** What a joined row adds to the GMV: its value when eligible, nothing otherwise. */
  function Contribution(j: Joined): Cents
  {
    if Eligible(j) then j.purchase.purchaseTotalValue else 0
  }

  /** A joined row reaches the aggregation if and only if it is eligible. */
  lemma {:induction false} EligibleSalesSnoc(js: seq<Joined>, j: Joined)
    ensures EligibleSales(js + [j]) ==
            if Eligible(j) then EligibleSales(js) + [SaleOf(j)] else EligibleSales(js)
  {
    if js != [] {
      assert (js + [j])[1..] == js[1..] + [j];
      EligibleSalesSnoc(js[1..], j);
    } else {
      assert [j][1..] == [];
    }
  }

  /** The values that reach the aggregation add up to the contributions of all joined rows. */
  lemma {:induction false} EligibleSalesSum(js: seq<Joined>)
    ensures Sum(EligibleSales(js), SaleValue) == Sum(js, Contribution)
  {
    if js != [] {
      EligibleSalesSum(js[1..]);
      if Eligible(js[0]) {
        assert ([SaleOf(js[0])] + EligibleSales(js[1..]))[1..] == EligibleSales(js[1..]);
      }
    }
  }

  /** One aggregated row: the GMV of one (release date, subsidiary). */
  datatype DailyTotal = DailyTotal(date: Date, subsidiary: Option<string>, total: Cents)

  function TotalKey(d: DailyTotal): DayKey { DayKey(d.date, d.subsidiary) }
  function TotalOf(d: DailyTotal): Cents { d.total }

  /** groupBy(release_date, subsidiary).agg(sum(purchase_total_value)), groups
      in the order in which their keys first occur. */
  function DailyTotals(sales: seq<Sale>): (out: seq<DailyTotal>)
    ensures |out| <= |sales|
    decreases |sales|
  {
    if sales == [] then []
    else
      var k := SaleKey(sales[0]);
      var rest := WithoutKey(sales, SaleKey, k);
      assert rest == WithoutKey(sales[1..], SaleKey, k);
      [DailyTotal(k.date, k.subsidiary, Sum(WithKey(sales, SaleKey, k), SaleValue))] + DailyTotals(rest)
  }

  /** Each aggregated row is the sum over a non-empty group of its input. */
  lemma {:induction false} DailyTotalsAreGroupSums(sales: seq<Sale>)
    ensures forall d :: d in DailyTotals(sales) ==>
              WithKey(sales, SaleKey, TotalKey(d)) != [] &&
              d.total == Sum(WithKey(sales, SaleKey, TotalKey(d)), SaleValue)
    decreases |sales|
  {
    if sales != [] {
      var k := SaleKey(sales[0]);
      var rest := WithoutKey(sales, SaleKey, k);
      assert rest == WithoutKey(sales[1..], SaleKey, k);
      DailyTotalsAreGroupSums(rest);
      var out := DailyTotals(sales);
      var tail := DailyTotals(rest);
      assert out == [DailyTotal(k.date, k.subsidiary, Sum(WithKey(sales, SaleKey, k), SaleValue))] + tail;
      assert sales[0] in WithKey(sales, SaleKey, k);
      forall d | d in tail
        ensures WithKey(sales, SaleKey, TotalKey(d)) != []
        ensures d.total == Sum(WithKey(sales, SaleKey, TotalKey(d)), SaleValue)
      {
        var g := WithKey(rest, SaleKey, TotalKey(d));
        assert g[0] in rest;
        WithKeyAfterWithoutKey(sales, SaleKey, k, TotalKey(d));
      }
    }
  }

  /** Aggregation yields one row per group and one group per key of the input. */
  lemma {:induction false} DailyTotalsOnePerKey(sales: seq<Sale>)
    ensures DistinctKeys(DailyTotals(sales), TotalKey)
    ensures forall s :: s in sales ==> exists d :: d in DailyTotals(sales) && TotalKey(d) == SaleKey(s)
    decreases |sales|
  {
    if sales != [] {
      var k := SaleKey(sales[0]);
      var rest := WithoutKey(sales, SaleKey, k);
      assert rest == WithoutKey(sales[1..], SaleKey, k);
      DailyTotalsOnePerKey(rest);
      DailyTotalsAreGroupSums(rest);
      var head := DailyTotal(k.date, k.subsidiary, Sum(WithKey(sales, SaleKey, k), SaleValue));
      var tail := DailyTotals(rest);
      var out := DailyTotals(sales);
      assert out == [head] + tail;
      forall d | d in tail ensures TotalKey(d) != k {
        var g := WithKey(rest, SaleKey, TotalKey(d));
        assert g[0] in rest;
      }
      forall i, j | 0 <= i < j < |out| ensures TotalKey(out[i]) != TotalKey(out[j]) {
        assert out[j] == tail[j - 1];
        if i > 0 {
          assert out[i] == tail[i - 1];
        }
      }
      forall s | s in sales ensures exists d :: d in out && TotalKey(d) == SaleKey(s) {
        if SaleKey(s) == k {
          assert head in out;
        } else {
          assert s in rest;
          var d :| d in tail && TotalKey(d) == SaleKey(s);
          assert d in out;
        }
      }
    }
  }

  /** Grouping neither loses nor invents money: the totals add up to the input. */
  lemma {:induction false} DailyTotalsPreserveSum(sales: seq<Sale>)
    ensures Sum(DailyTotals(sales), TotalOf) == Sum(sales, SaleValue)
    decreases |sales|
  {
    if sales != [] {
      var k := SaleKey(sales[0]);
      var rest := WithoutKey(sales, SaleKey, k);
      assert rest == WithoutKey(sales[1..], SaleKey, k);
      DailyTotalsPreserveSum(rest);
      SumSplit(sales, SaleKey, SaleValue, k);
      var head := DailyTotal(k.date, k.subsidiary, Sum(WithKey(sales, SaleKey, k), SaleValue));
      assert ([head] + DailyTotals(rest))[1..] == DailyTotals(rest);
    }
  }

  /** The control columns: the run's calculation timestamp, and is_latest = true.
      Stamping keeps each total's date, subsidiary and amount. */
  function Stamp(totals: seq<DailyTotal>, calculationTimestamp: Timestamp): (r: seq<GmvRow>)
    ensures |r| == |totals|
    ensures forall i :: 0 <= i < |r| ==>
              GmvKey(r[i]) == TotalKey(totals[i]) && r[i].gmvTotalDay == totals[i].total &&
              r[i].isLatest && r[i].calculationTimestamp == calculationTimestamp
  {
    seq(|totals|, i requires 0 <= i < |totals| =>
      GmvRow(totals[i].date, totals[i].subsidiary, totals[i].total, calculationTimestamp, true))
  }

  function GmvTotal(r: GmvRow): Cents { r.gmvTotalDay }

  /** The deduplicated purchases left-joined with the deduplicated extra information.
      Every joined row is the latest version of an input purchase. */
  function JoinLatest(purchases: seq<Purchase>, infos: seq<ExtraInfo>): (r: seq<Joined>)
    ensures forall j :: j in r ==> j.purchase in purchases
  {
    LatestRecordsFromInput(purchases, PurchaseKeyOf, PurchaseVersion);
    LeftJoinRows(LatestRecords(purchases, PurchaseKeyOf, PurchaseVersion),
                 LatestRecords(infos, InfoKeyOf, InfoVersion));
    LeftJoin(LatestRecords(purchases, PurchaseKeyOf, PurchaseVersion),
             LatestRecords(infos, InfoKeyOf, InfoVersion))
  }

  /** transform_gmv_snapshot: the new GMV snapshot of one run. */
  function TransformGmvSnapshot(purchases: seq<Purchase>, infos: seq<ExtraInfo>, calculationTimestamp: Timestamp): (out: seq<GmvRow>)
    ensures forall r :: r in out ==> r.isLatest && r.calculationTimestamp == calculationTimestamp
  {
    Stamp(DailyTotals(EligibleSales(JoinLatest(purchases, infos))), calculationTimestamp)
  }

  /** Because extra information is deduplicated before the join, the join has
      exactly one row per deduplicated purchase. */
  lemma JoinLatestOneRowPerPurchase(purchases: seq<Purchase>, infos: seq<ExtraInfo>)
    ensures var latest := LatestRecords(purchases, PurchaseKeyOf, PurchaseVersion);
      |JoinLatest(purchases, infos)| == |latest| &&
      forall i :: 0 <= i < |latest| ==> JoinLatest(purchases, infos)[i].purchase == latest[i]
  {
    LatestRecordsDistinct(infos, InfoKeyOf, InfoVersion);
    LeftJoinOneRowPerPurchase(LatestRecords(purchases, PurchaseKeyOf, PurchaseVersion),
                              LatestRecords(infos, InfoKeyOf, InfoVersion));
  }

  /** The snapshot has one row per (gmv_date, subsidiary), and one for every
      eligible joined row's (release_date, subsidiary). */
  lemma SnapshotOneRowPerKey(purchases: seq<Purchase>, infos: seq<ExtraInfo>, calculationTimestamp: Timestamp)
    ensures DistinctKeys(TransformGmvSnapshot(purchases, infos, calculationTimestamp), GmvKey)
    ensures forall j :: j in JoinLatest(purchases, infos) && Eligible(j) ==>
              exists r :: r in TransformGmvSnapshot(purchases, infos, calculationTimestamp) && GmvKey(r) == SaleKey(SaleOf(j))
  {
    var js := JoinLatest(purchases, infos);
    var sales := EligibleSales(js);
    var totals := DailyTotals(sales);
    var out := TransformGmvSnapshot(purchases, infos, calculationTimestamp);
    DailyTotalsOnePerKey(sales);
    assert forall i :: 0 <= i < |out| ==> GmvKey(out[i]) == TotalKey(totals[i]);
    forall j | j in js && Eligible(j)
      ensures exists r :: r in out && GmvKey(r) == SaleKey(SaleOf(j))
    {
      EligibleSalesContains(js, j);
      var d :| d in totals && TotalKey(d) == SaleKey(SaleOf(j));
      var i :| 0 <= i < |totals| && totals[i] == d;
      assert out[i] in out;
    }
  }

  /** An eligible joined row reaches the aggregation. */
  lemma {:induction false} EligibleSalesContains(js: seq<Joined>, j: Joined)
    requires j in js && Eligible(j)
    ensures SaleOf(j) in EligibleSales(js)
  {
    if js[0] != j {
      EligibleSalesContains(js[1..], j);
    }
  }

  /** Every snapshot row carries the sum of purchase_total_value over its
      group of eligible rows, and the snapshot as a whole adds up to the
      contributions of all joined rows: ineligible rows contribute nothing. */
  lemma SnapshotTotals(purchases: seq<Purchase>, infos: seq<ExtraInfo>, calculationTimestamp: Timestamp)
    ensures var sales := EligibleSales(JoinLatest(purchases, infos));
      forall r :: r in TransformGmvSnapshot(purchases, infos, calculationTimestamp) ==>
        WithKey(sales, SaleKey, GmvKey(r)) != [] &&
        r.gmvTotalDay == Sum(WithKey(sales, SaleKey, GmvKey(r)), SaleValue)
    ensures Sum(TransformGmvSnapshot(purchases, infos, calculationTimestamp), GmvTotal) ==
            Sum(JoinLatest(purchases, infos), Contribution)
  {
    var js := JoinLatest(purchases, infos);
    var sales := EligibleSales(js);
    var totals := DailyTotals(sales);
    var out := TransformGmvSnapshot(purchases, infos, calculationTimestamp);
    DailyTotalsAreGroupSums(sales);
    forall r | r in out
      ensures WithKey(sales, SaleKey, GmvKey(r)) != []
      ensures r.gmvTotalDay == Sum(WithKey(sales, SaleKey, GmvKey(r)), SaleValue)
    {
      var i :| 0 <= i < |out| && out[i] == r;
      assert totals[i] in totals;
    }
    SumPointwise(out, GmvTotal, totals, TotalOf);
    DailyTotalsPreserveSum(sales);
    EligibleSalesSum(js);
  }
}
