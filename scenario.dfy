/**
 * A worked example of one release date d at one subsidiary, A. Purchase 1
 * (100.00) and purchase 2 (50.00) are approved, purchase 3 (30.00) is
 * cancelled, and all three have extra information naming subsidiary A.
 *
 * A run for d gives one row of 150.00. Purchase 2 is then corrected to 80.00
 * by a newer version. If the correction carries transaction_date d, a rerun
 * for d gives 180.00 and supersedes the 150.00 row. If it carries d + 1, the
 * run for d + 1 sees the corrected purchase alone, without its extra
 * information: it writes 80.00 under a NULL subsidiary, and 150.00 stays the
 * latest row for (d, A).
 */
module Scenario {
  import opened Wrappers
  import opened Records
  import opened Keyed
  import opened Latest
  import opened Transform
  import opened Load
  import opened Job

  const Cancelled: string := "CANCELADA"

  /** A purchase released on `releaseDate`. */
  function Buy(id: int, version: Timestamp, transactionDate: Date, releaseDate: Date,
               status: string, value: Cents): Purchase
  {
    Purchase(id, 0, version, transactionDate, Some(releaseDate), Some(status), value)
  }

  /** The extra information of purchase `id`: subsidiary A. */
  function InfoOf(id: int, d: Date): ExtraInfo
  {
    ExtraInfo(id, 0, 10, d, Some("A"))
  }

  function DayInfos(d: Date): seq<ExtraInfo>
  {
    [InfoOf(1, d), InfoOf(2, d), InfoOf(3, d)]
  }

  /** The day's purchases, one version each, purchase 2 worth `v2`. */
  function DayPurchases(d: Date, v2: Cents, t2: Timestamp): seq<Purchase>
  {
    [Buy(1, 10, d, d, Approved, 10000), Buy(2, t2, d, d, Approved, v2), Buy(3, 10, d, d, Cancelled, 3000)]
  }

  /** The day's purchases with the correction of purchase 2 made on the same day. */
  function SameDayCorrection(d: Date): seq<Purchase>
  {
    [Buy(1, 10, d, d, Approved, 10000), Buy(2, 10, d, d, Approved, 5000),
     Buy(2, 20, d, d, Approved, 8000), Buy(3, 10, d, d, Cancelled, 3000)]
  }

  /** The day's purchases with the correction of purchase 2 made the next day. */
  function NextDayCorrection(d: Date): seq<Purchase>
  {
    DayPurchases(d, 5000, 10) + [Buy(2, 20, d + 1, d, Approved, 8000)]
  }

  /** Each purchase of the day finds exactly its own extra information. */
  lemma DayMatches(d: Date, p: Purchase)
    requires p.purchasePartition == 0 && 1 <= p.purchaseId <= 3
    ensures MatchingInfos(p, DayInfos(d)) == [InfoOf(p.purchaseId, d)]
  {
    var es := DayInfos(d);
    assert es[1..] == [InfoOf(2, d), InfoOf(3, d)] && es[1..][1..] == [InfoOf(3, d)];
    assert es[1..][1..][1..] == [];
    assert WithKey(es[1..][1..], InfoKeyOf, PurchaseKeyOf(p)) == if p.purchaseId == 3 then [InfoOf(3, d)] else [];
    assert WithKey(es[1..], InfoKeyOf, PurchaseKeyOf(p)) == if p.purchaseId == 1 then [] else [InfoOf(p.purchaseId, d)];
  }

  /** The join of the day's purchases: every purchase with its extra information. */
  lemma DayJoin(d: Date, v2: Cents, t2: Timestamp)
    ensures var ps := DayPurchases(d, v2, t2);
      LeftJoin(ps, DayInfos(d)) ==
        [Joined(ps[0], Some(InfoOf(1, d))), Joined(ps[1], Some(InfoOf(2, d))), Joined(ps[2], Some(InfoOf(3, d)))]
  {
    var ps := DayPurchases(d, v2, t2);
    var es := DayInfos(d);
    DayMatches(d, ps[0]);
    DayMatches(d, ps[1]);
    DayMatches(d, ps[2]);
    assert ps[1..] == [ps[1], ps[2]] && ps[1..][1..] == [ps[2]] && ps[1..][1..][1..] == [];
    assert LeftJoin([ps[2]], es) == [Joined(ps[2], Some(InfoOf(3, d)))];
    assert LeftJoin([ps[1], ps[2]], es) == [Joined(ps[1], Some(InfoOf(2, d))), Joined(ps[2], Some(InfoOf(3, d)))];
  }

  /** Two amounts of the same day and subsidiary fall in one group. */
  lemma OneGroup(d: Date, v1: Cents, v2: Cents)
    ensures DailyTotals([Sale(d, Some("A"), v1), Sale(d, Some("A"), v2)]) == [DailyTotal(d, Some("A"), v1 + v2)]
  {
    var s1, s2 := Sale(d, Some("A"), v1), Sale(d, Some("A"), v2);
    var k := DayKey(d, Some("A"));
    assert [s1, s2][1..] == [s2] && [s2][1..] == [];
    assert WithKey([s1, s2], SaleKey, k) == [s1, s2];
    assert WithoutKey([s1, s2], SaleKey, k) == [];
    assert Sum([s2], SaleValue) == v2;
  }

  /** Deduplication leaves the day's rows alone, so the join is the one of
      `DayJoin`. */
  lemma DayJoinLatest(d: Date, v2: Cents, t2: Timestamp)
    ensures var ps := DayPurchases(d, v2, t2);
      JoinLatest(ps, DayInfos(d)) ==
        [Joined(ps[0], Some(InfoOf(1, d))), Joined(ps[1], Some(InfoOf(2, d))), Joined(ps[2], Some(InfoOf(3, d)))]
  {
    var ps, es := DayPurchases(d, v2, t2), DayInfos(d);
    assert DistinctKeys(ps, PurchaseKeyOf);
    LatestRecordsOfDistinct(ps, PurchaseKeyOf, PurchaseVersion);
    LatestRecordsOfDistinct(es, InfoKeyOf, InfoVersion);
    DayJoin(d, v2, t2);
  }

  /** The cancelled purchase does not reach the aggregation. */
  lemma DaySales(d: Date, v2: Cents, t2: Timestamp)
    ensures var ps := DayPurchases(d, v2, t2);
      EligibleSales([Joined(ps[0], Some(InfoOf(1, d))), Joined(ps[1], Some(InfoOf(2, d))), Joined(ps[2], Some(InfoOf(3, d)))])
        == [Sale(d, Some("A"), 10000), Sale(d, Some("A"), v2)]
  {
    var ps := DayPurchases(d, v2, t2);
    var js := [Joined(ps[0], Some(InfoOf(1, d))), Joined(ps[1], Some(InfoOf(2, d))), Joined(ps[2], Some(InfoOf(3, d)))];
    assert js[1..] == [js[1], js[2]] && js[1..][1..] == [js[2]] && [js[2]][1..] == [];
    assert Cancelled != Approved;
    assert EligibleSales([js[2]]) == [];
    assert EligibleSales(js[1..]) == [Sale(d, Some("A"), v2)];
  }

  /** The day's snapshot: the cancelled purchase adds nothing, so it is one
      latest row of 100.00 + v2. */
  lemma DaySnapshot(d: Date, v2: Cents, t2: Timestamp, ts: Timestamp)
    ensures TransformGmvSnapshot(DayPurchases(d, v2, t2), DayInfos(d), ts) == [GmvRow(d, Some("A"), 10000 + v2, ts, true)]
  {
    DayJoinLatest(d, v2, t2);
    DaySales(d, v2, t2);
    OneGroup(d, 10000, v2);
    var t := DailyTotal(d, Some("A"), 10000 + v2);
    assert Stamp([t], ts) == [GmvRow(d, Some("A"), 10000 + v2, ts, true)];
  }

  /** The newer version of purchase 2 replaces the older one. */
  lemma SameDayCorrectionDedup(d: Date)
    ensures LatestRecords(SameDayCorrection(d), PurchaseKeyOf, PurchaseVersion) == DayPurchases(d, 8000, 20)
  {
    var ps := SameDayCorrection(d);
    var p1, p2, p2', p3 := ps[0], ps[1], ps[2], ps[3];
    var k1, k2 := PurchaseKeyOf(p1), PurchaseKeyOf(p2);
    var rest := [p2, p2', p3];
    assert ps[1..] == rest;
    AbsentKey(rest, PurchaseKeyOf, k1);
    assert WithKey(ps, PurchaseKeyOf, k1) == [p1];
    assert WithoutKey(ps, PurchaseKeyOf, k1) == rest;
    assert rest == [p2, p2'] + [p3];
    WithKeyAppend([p2, p2'], [p3], PurchaseKeyOf, k2);
    EveryKey([p2, p2'], PurchaseKeyOf, k2);
    AbsentKey([p3], PurchaseKeyOf, k2);
    assert WithKey(rest, PurchaseKeyOf, k2) == [p2, p2'];
    assert [p2, p2'][1..] == [p2'];
    assert PickLatest([p2, p2'], PurchaseVersion) == p2';
    assert rest[1..] == [p2', p3] && [p2', p3][1..] == [p3];
    assert WithoutKey([p2', p3], PurchaseKeyOf, k2) == [p3];
    assert WithoutKey(rest, PurchaseKeyOf, k2) == [p3];
    LatestRecordsOfDistinct([p3], PurchaseKeyOf, PurchaseVersion);
    assert LatestRecords(rest, PurchaseKeyOf, PurchaseVersion) == [p2'] + [p3];
  }

  /** Every row of the same-day correction is dated d, so the run for d
      extracts all of them. */
  lemma SameDayExtract(d: Date)
    ensures ExtractPurchases(SameDayCorrection(d), d) == SameDayCorrection(d)
    ensures ExtractInfos(DayInfos(d), d) == DayInfos(d)
  {
    EveryKey(SameDayCorrection(d), PurchaseDate, d);
    EveryKey(DayInfos(d), InfoDate, d);
  }

  /** The join after a same-day correction is the join of the corrected day. */
  lemma SameDayJoinLatest(d: Date)
    ensures JoinLatest(SameDayCorrection(d), DayInfos(d)) == JoinLatest(DayPurchases(d, 8000, 20), DayInfos(d))
  {
    var ps := DayPurchases(d, 8000, 20);
    SameDayCorrectionDedup(d);
    assert DistinctKeys(ps, PurchaseKeyOf);
    LatestRecordsOfDistinct(ps, PurchaseKeyOf, PurchaseVersion);
  }

  /** A correction made on the same day is picked up by the rerun: 180.00. */
  lemma SameDaySnapshot(d: Date, ts: Timestamp)
    ensures RunSnapshot(SameDayCorrection(d), DayInfos(d), d, ts) == [GmvRow(d, Some("A"), 18000, ts, true)]
  {
    SameDayExtract(d);
    SameDayJoinLatest(d);
    DaySnapshot(d, 8000, 20, ts);
  }

  /** The first run for d: 150.00. */
  lemma FirstRunSnapshot(d: Date, ts: Timestamp)
    ensures RunSnapshot(DayPurchases(d, 5000, 10), DayInfos(d), d, ts) == [GmvRow(d, Some("A"), 15000, ts, true)]
  {
    EveryKey(DayPurchases(d, 5000, 10), PurchaseDate, d);
    EveryKey(DayInfos(d), InfoDate, d);
    DaySnapshot(d, 5000, 10, ts);
  }

  /** Loading a recalculation of (d, A) supersedes the earlier row. */
  lemma RecalculationSupersedes(d: Date, t1: Timestamp, t2: Timestamp)
    ensures var first := [GmvRow(d, Some("A"), 15000, t1, true)];
      var second := [GmvRow(d, Some("A"), 18000, t2, true)];
      SupersedeAll(first, second) + second ==
        [GmvRow(d, Some("A"), 15000, t1, false), GmvRow(d, Some("A"), 18000, t2, true)]
  {
  }

  /** A run for d, then a rerun for d after a same-day correction: the table
      holds the superseded 150.00 and the latest 180.00. */
  method SameDayRerun(d: Date, t1: Timestamp, t2: Timestamp) returns (table: GmvTable)
    ensures table.rows == [GmvRow(d, Some("A"), 15000, t1, false), GmvRow(d, Some("A"), 18000, t2, true)]
  {
    table := new GmvTable();
    FirstRunSnapshot(d, t1);
    var first := Run(table, DayPurchases(d, 5000, 10), DayInfos(d), d, t1);
    SameDaySnapshot(d, t2);
    var second := Run(table, SameDayCorrection(d), DayInfos(d), d, t2);
    RecalculationSupersedes(d, t1, t2);
  }

  /** What the run for d + 1 extracts: the corrected purchase alone, and no
      extra information. */
  lemma NextDayExtract(d: Date)
    ensures ExtractPurchases(NextDayCorrection(d), d + 1) == [Buy(2, 20, d + 1, d, Approved, 8000)]
    ensures ExtractInfos(DayInfos(d), d + 1) == []
  {
    var p := Buy(2, 20, d + 1, d, Approved, 8000);
    WithKeyAppend(DayPurchases(d, 5000, 10), [p], PurchaseDate, d + 1);
    AbsentKey(DayPurchases(d, 5000, 10), PurchaseDate, d + 1);
    assert [p][1..] == [];
    AbsentKey(DayInfos(d), InfoDate, d + 1);
  }

  /** What the run for d extracts when the correction came the next day. */
  lemma NextDayFirstExtract(d: Date)
    ensures ExtractPurchases(NextDayCorrection(d), d) == DayPurchases(d, 5000, 10)
  {
    var ps := DayPurchases(d, 5000, 10);
    var p := Buy(2, 20, d + 1, d, Approved, 8000);
    assert NextDayCorrection(d) == ps + [p];
    WithKeyAppend(ps, [p], PurchaseDate, d);
    EveryKey(ps, PurchaseDate, d);
    AbsentKey([p], PurchaseDate, d);
    assert WithKey([p], PurchaseDate, d) == [];
  }

  /** The first run for d sees only the original purchases: 150.00. */
  lemma NextDayFirstSnapshot(d: Date, ts: Timestamp)
    ensures RunSnapshot(NextDayCorrection(d), DayInfos(d), d, ts) == [GmvRow(d, Some("A"), 15000, ts, true)]
  {
    NextDayFirstExtract(d);
    EveryKey(DayInfos(d), InfoDate, d);
    DaySnapshot(d, 5000, 10, ts);
  }

  /** A purchase without extra information is aggregated under a NULL subsidiary. */
  lemma UnmatchedSnapshot(p: Purchase, ts: Timestamp)
    requires p.releaseDate.Some? && p.purchaseStatus == Some(Approved)
    ensures TransformGmvSnapshot([p], [], ts) == [GmvRow(p.releaseDate.value, None, p.purchaseTotalValue, ts, true)]
  {
    LatestRecordsOfDistinct([p], PurchaseKeyOf, PurchaseVersion);
    assert [p][1..] == [];
    assert LatestRecords([], InfoKeyOf, InfoVersion) == [];
    assert MatchingInfos(p, []) == [];
    assert LeftJoin([p][1..], []) == [];
    assert LeftJoin([p], []) == [Joined(p, None)];
    var js := JoinLatest([p], []);
    assert js == [Joined(p, None)];
    var s := Sale(p.releaseDate.value, None, p.purchaseTotalValue);
    assert js[1..] == [];
    assert EligibleSales(js) == [s];
    assert [s][1..] == [];
    assert WithKey([s], SaleKey, SaleKey(s)) == [s];
    assert WithoutKey([s], SaleKey, SaleKey(s)) == [];
    assert Sum([s], SaleValue) == p.purchaseTotalValue;
    var t := DailyTotal(p.releaseDate.value, None, p.purchaseTotalValue);
    assert DailyTotals([s]) == [t];
    assert Stamp([t], ts) == [GmvRow(p.releaseDate.value, None, p.purchaseTotalValue, ts, true)];
  }

  /** A correction made on the next day is processed alone: its extra
      information was extracted the day before, so it gets no subsidiary. */
  lemma NextDaySnapshot(d: Date, ts: Timestamp)
    ensures RunSnapshot(NextDayCorrection(d), DayInfos(d), d + 1, ts) == [GmvRow(d, None, 8000, ts, true)]
  {
    NextDayExtract(d);
    UnmatchedSnapshot(Buy(2, 20, d + 1, d, Approved, 8000), ts);
  }

  /** The MERGE never matches a NULL subsidiary, so the row for (d, A) stays latest. */
  lemma NullRowSupersedesNothing(d: Date, t1: Timestamp, t2: Timestamp)
    ensures var first := [GmvRow(d, Some("A"), 15000, t1, true)];
      var second := [GmvRow(d, None, 8000, t2, true)];
      SupersedeAll(first, second) + second ==
        [GmvRow(d, Some("A"), 15000, t1, true), GmvRow(d, None, 8000, t2, true)]
  {
  }

  /** A run for d, then the run for d + 1 after a next-day correction: the
      150.00 row is not superseded, and both rows for d are latest. */
  method NextDayRun(d: Date, t1: Timestamp, t2: Timestamp) returns (table: GmvTable)
    ensures table.rows == [GmvRow(d, Some("A"), 15000, t1, true), GmvRow(d, None, 8000, t2, true)]
  {
    table := new GmvTable();
    var ps, es := NextDayCorrection(d), DayInfos(d);
    NextDayFirstSnapshot(d, t1);
    var first := Run(table, ps, es, d, t1);
    NextDaySnapshot(d, t2);
    var second := Run(table, ps, es, d + 1, t2);
    NullRowSupersedesNothing(d, t1, t2);
  }
}
