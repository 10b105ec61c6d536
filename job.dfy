/**
 * One run of the GMV job: extract the processing date's rows, transform them
 * into a snapshot, and load the snapshot into the destination table. The
 * processing date and the calculation timestamp are parameters: the job reads
 * them from the clock.
 */
module Job {
  import opened Wrappers
  import opened Records
  import opened Keyed
  import opened Transform
  import opened Load

  /** The purchases whose transaction_date is the processing date. */
  function ExtractPurchases(purchases: seq<Purchase>, processingDate: Date): (r: seq<Purchase>)
    ensures forall p :: p in r <==> p in purchases && p.transactionDate == processingDate
  {
    WithKey(purchases, PurchaseDate, processingDate)
  }

  /** The extra-information rows whose transaction_date is the processing date. */
  function ExtractInfos(infos: seq<ExtraInfo>, processingDate: Date): (r: seq<ExtraInfo>)
    ensures forall e :: e in r <==> e in infos && e.transactionDate == processingDate
  {
    WithKey(infos, InfoDate, processingDate)
  }

  /** The snapshot a run computes: the transform of the processing date's rows,
      every row of it latest and stamped with the run's timestamp, one per key. */
  function RunSnapshot(purchases: seq<Purchase>, infos: seq<ExtraInfo>, processingDate: Date,
                       calculationTimestamp: Timestamp): (r: seq<GmvRow>)
    ensures forall g :: g in r ==> g.isLatest && g.calculationTimestamp == calculationTimestamp
    ensures DistinctKeys(r, GmvKey)
  {
    SnapshotOneRowPerKey(ExtractPurchases(purchases, processingDate),
                         ExtractInfos(infos, processingDate), calculationTimestamp);
    TransformGmvSnapshot(ExtractPurchases(purchases, processingDate),
                         ExtractInfos(infos, processingDate), calculationTimestamp)
  }

  /** run: extract, transform, load. A run never makes the merge fail, and it
      keeps at most one latest row per present (gmv_date, subsidiary). */
  method Run(table: GmvTable, purchases: seq<Purchase>, infos: seq<ExtraInfo>,
             processingDate: Date, calculationTimestamp: Timestamp) returns (outcome: LoadOutcome)
    requires table.Valid()
    modifies table
    ensures table.Valid()
    ensures var snapshot := RunSnapshot(purchases, infos, processingDate, calculationTimestamp);
      && (snapshot == [] ==> outcome == NothingToLoad && table.created == old(table.created) && table.rows == old(table.rows))
      && (snapshot != [] && !old(table.created) ==> outcome == Created && table.created && table.rows == snapshot)
      && (snapshot != [] && old(table.created) ==>
            outcome == Merged && table.created && table.rows == SupersedeAll(old(table.rows), snapshot) + snapshot)
    ensures AtMostOneLatest(old(table.rows)) ==> AtMostOneLatest(table.rows)
  {
    var purchaseRows := ExtractPurchases(purchases, processingDate);
    var infoRows := ExtractInfos(infos, processingDate);
    var snapshot := TransformGmvSnapshot(purchaseRows, infoRows, calculationTimestamp);
    SnapshotOneRowPerKey(purchaseRows, infoRows, calculationTimestamp);
    DistinctInputNeverConflicts(table.rows, snapshot);
    outcome := table.Load(snapshot);
  }
}
