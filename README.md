# GMV daily snapshot job, modelled in Dafny

The job computes the daily Gross Merchandising Value (GMV) per subsidiary and
keeps every calculation in an append-only table. Each run does three things.

1. **Extract.** It reads the purchases and the purchase extra information whose
   `transaction_date` is the processing date.
2. **Transform.** It keeps the latest version of each purchase and of each
   extra-information row by `(purchase_id, purchase_partition)`, ranked by
   `transaction_datetime`. It left-joins the two on that key and keeps approved
   purchases (`purchase_status = 'APROVADA'`) with a `release_date`. It sums
   `purchase_total_value` per `(release_date, subsidiary)` into `gmv_total_day`
   and stamps every row with the run's `calculation_timestamp` and
   `is_latest = true`.
3. **Load.** An empty snapshot writes nothing. A missing table is created from
   the snapshot. Otherwise a MERGE sets `is_latest = false` on every latest row
   whose `(gmv_date, subsidiary)` equals that of a snapshot row, and then the
   snapshot is appended. Old rows are never deleted and only their `is_latest`
   flag ever changes, so the table keeps the full history of recalculations.

Modules:

- `Records` (records.dfy): the rows. Nullable columns are `Option`s, money is
  an integer number of cents, and dates and timestamps are integers.
- `Keyed` (keyed.dfy): selecting rows by a key column, and summing a column.
- `Latest` (latest.dfy): deduplicate-by-latest. It is generic in the row type,
  the key and the version column, as the source's helper is.
- `Transform` (transform.dfy): the left join, the eligibility filter, the
  group-sum and the stamp, as functions over sequences of rows.
- `Load` (load.dfy): the destination table as a class `GmvTable` with an
  existence flag and a sequence of rows. The MERGE is a loop over the rows.
- `Job` (job.dfy): the date filter of the extract, and one run.
- `Scenario` (scenario.dfy): a worked example, run through `Job.RunSnapshot`
  and `Job.Run`. Purchases of 100.00, 50.00 and a cancelled 30.00, all of
  subsidiary A, give one row of 150.00 for their release date d. The second
  purchase is then corrected to 80.00 by a newer version. The outcome depends
  on the correction's `transaction_date`:
  - If it is d, a rerun for d gives 180.00 and supersedes the 150.00 row.
  - If it is d + 1, the run for d + 1 sees the correction without its extra
    information, which was extracted on d. It writes 80.00 for (d, NULL) and
    supersedes nothing, so 150.00 stays the latest row for (d, A).

Behaviour the model makes explicit:

- **Ties.** Two versions of a key with the same `transaction_datetime` are
  ranked in an unspecified order by `row_number`. The model keeps the first
  maximal row of the input sequence. Since any order of the input may be
  given, any maximal row can be the one kept (`Latest.PickLatestFirstMaximal`).
- **NULL subsidiary.** A purchase without extra information keeps a NULL
  subsidiary after the left join, and `groupBy` keeps NULL as a group of its
  own. The MERGE compares subsidiaries with SQL `=`, which is never true for
  NULL. Such a row is therefore never superseded, and two loads for the same
  `(date, NULL)` leave two latest rows (`Load.NullSubsidiaryStaysLatest`). The
  "at most one latest row per key" invariant is proved for present
  subsidiaries only (`Load.MergePreservesAtMostOneLatest`,
  `Load.GmvTable.Load`, `Job.Run`).
- **Merge conflicts.** The Delta table engine refuses a MERGE in which two
  source rows match the same target row, and then writes nothing. The model
  returns `MergeFailed` in that case. A snapshot has distinct keys, so a run
  never hits it (`Job.Run`).

Facts about the code that the model keeps:

- The join is a left join. Unmatched purchases are kept with a NULL
  subsidiary. Nothing counts them or drops them, and no threshold aborts the
  run.
- The approved status is the literal `APROVADA`.
- The extract keeps rows whose `transaction_date` equals the processing date.
  There is no window on a last-modified column.
- The MERGE and the append are two separate writes, not one transaction.
- There is no tie-break between versions with the same
  `transaction_datetime` (see Ties).

## Model

| member | source | states |
|---|---|---|
| `Latest.PickLatest` | q2/app/main.py:73-76 | the row kept is one of the group's rows and no row of the group has a greater `transaction_datetime` |
| `Latest.PickLatestFirstMaximal` | q2/app/main.py:73-76 | a maximal row placed first is the one kept, so every maximal row can win a tie |
| `Latest.LatestRecords` | q2/app/main.py:71-77 | deduplication never produces more rows than it reads |
| `Latest.LatestRecordsFromInput` | q2/app/main.py:75-77 | every row that survives deduplication is an input row |
| `Latest.LatestRecordsDistinct` | q2/app/main.py:73-77 | no key occurs twice after deduplication |
| `Latest.LatestRecordsKeepsEveryKey` | q2/app/main.py:73-77 | every input key is kept, by a row whose version is at least that of every input row of the key |
| `Latest.LatestRecordsExactlyOnce` | q2/app/main.py:71-77 | each key of the input occurs exactly once in the output, and keys absent from the input do not occur |
| `Latest.LatestRecordsOfDistinct` | q2/app/main.py:71-77 | an input whose keys are already unique comes out unchanged |
| `Latest.LatestRecordsIdempotent` | q2/app/main.py:71-77 | deduplicating twice gives the same rows as deduplicating once |
| `Transform.LeftJoin` | q2/app/main.py:104-105 | the left join has at least one row per purchase; its meaning is stated by `Transform.LeftJoinRows` and `Transform.LeftJoinEveryMatch` |
| `Transform.LeftJoinRows` | q2/app/main.py:104-105 | each joined row pairs a purchase with an extra-information row of the same key, or with none exactly when no row has that key, and no purchase is lost |
| `Transform.LeftJoinEveryMatch` | q2/app/main.py:104-105 | every purchase paired with every extra-information row of the same key appears in the join |
| `Transform.LeftJoinOneRowPerPurchase` | q2/app/main.py:104-105 | with unique extra-information keys the join has one row per purchase, in order, with or without extra information |
| `Transform.JoinLatest` | q2/app/main.py:98-105 | every joined row's purchase is an input purchase; `Transform.JoinLatestOneRowPerPurchase` states the rest |
| `Transform.JoinLatestOneRowPerPurchase` | q2/app/main.py:98-105 | since extra information is deduplicated first, the join has exactly one row per deduplicated purchase |
| `Transform.Eligible` | q2/app/main.py:109-112 | the filter condition, a release date and status APROVADA; `Transform.EligibleSalesSnoc` and `Transform.EligibleSalesContains` state what it lets through |
| `Transform.EligibleSales` | q2/app/main.py:109-112 | the filter never adds rows, and every row it passes comes from an eligible joined row |
| `Transform.EligibleSalesSnoc` | q2/app/main.py:109-112 | a joined row reaches the aggregation if and only if it has a release date and status APROVADA |
| `Transform.EligibleSalesContains` | q2/app/main.py:109-112 | an eligible joined row reaches the aggregation |
| `Transform.EligibleSalesSum` | q2/app/main.py:109-115 | the aggregated values add up to the joined rows' contributions, where an ineligible row contributes 0 |
| `Transform.DailyTotals` | q2/app/main.py:114-116 | grouping never produces more rows than it reads |
| `Transform.DailyTotalsAreGroupSums` | q2/app/main.py:114-116 | each total belongs to a non-empty group and equals the sum of `purchase_total_value` over it |
| `Transform.DailyTotalsOnePerKey` | q2/app/main.py:114-116 | one output row per `(release_date, subsidiary)`, and one for every key of the input |
| `Transform.DailyTotalsPreserveSum` | q2/app/main.py:114-116 | the totals add up to the sum over all eligible rows |
| `Transform.Stamp` | q2/app/main.py:120-121 | one row per total, with the total's date, subsidiary and sum, `is_latest = true` and the run's calculation timestamp |
| `Transform.TransformGmvSnapshot` | q2/app/main.py:91-126 | every snapshot row has `is_latest = true` and the run's calculation timestamp |
| `Transform.SnapshotOneRowPerKey` | q2/app/main.py:114-121 | the snapshot has distinct `(gmv_date, subsidiary)` keys and a row for every eligible joined row's key |
| `Transform.SnapshotTotals` | q2/app/main.py:109-121 | each `gmv_total_day` is its group's sum, and the snapshot's sum equals the joined rows' contributions |
| `Load.MergeMatches` | q2/app/main.py:151 | the merge condition, with SQL `=` on the subsidiary so a NULL never matches; `Load.MatchCount` and `Load.NullSubsidiaryStaysLatest` state its consequences |
| `Load.MergeConflict` | q2/app/main.py:149-152 | the Delta table engine refuses a MERGE in which one target row matches two source rows; `Load.DistinctInputNeverConflicts` and `Load.GmvTable.Load` state when it arises and what it leaves |
| `Load.Supersede` | q2/app/main.py:149-152 | a target row keeps all its columns but the flag, which becomes false exactly when the row is latest and some input row matches it |
| `Load.SupersedeAll` | q2/app/main.py:149-152 | the merge keeps the number and order of the rows, changes only their flag, and only from true to false |
| `Load.MatchCount` | q2/app/main.py:149-152 | a target row is matched by no input row exactly when no input row satisfies the merge condition |
| `Load.SupersedeAllChangesOnlyTheFlag` | q2/app/main.py:149-152 | the merge keeps every row's date, subsidiary, total and timestamp, and flips `is_latest` from true to false exactly on latest rows with a present subsidiary whose key is an input key |
| `Load.MatchCountAtMostOne` | q2/app/main.py:149-152 | an input with distinct keys matches a target row at most once |
| `Load.DistinctInputNeverConflicts` | q2/app/main.py:149-152 | an input with distinct keys never makes the merge fail |
| `Load.MergePreservesAtMostOneLatest` | q2/app/main.py:149-156 | supersede-then-append with distinct input keys keeps at most one latest row per present key |
| `Load.MergeLeavesInputLatest` | q2/app/main.py:149-156 | after the load, an input row with a subsidiary is the only latest row of its key |
| `Load.NullSubsidiaryStaysLatest` | q2/app/main.py:151 | a row with a NULL subsidiary is never superseded, so two loads leave two latest rows for `(date, NULL)` |
| `Load.GmvTable.constructor` | q2/app/main.py:138-140 | a table that does not exist has no rows |
| `Load.GmvTable.Existing` | q2/app/main.py:143-146 | an existing table holds the given rows |
| `Load.GmvTable.Create` | q2/app/main.py:138-142 | creating the table makes it exist with exactly the input rows |
| `Load.GmvTable.SupersedeMatched` | q2/app/main.py:148-152 | the merge either fails on a conflict and leaves the rows as they were, or sets the rows to their superseded versions |
| `Load.GmvTable.Append` | q2/app/main.py:154-156 | the append adds the input after the existing rows |
| `Load.GmvTable.Load` | q2/app/main.py:128-156 | empty input changes nothing; a missing table becomes the input; otherwise old rows superseded then input appended, or nothing on a conflict; the at-most-one-latest invariant is kept for distinct input keys |
| `Job.ExtractPurchases` | q2/app/main.py:83-84 | a purchase is extracted exactly when its `transaction_date` is the processing date |
| `Job.ExtractInfos` | q2/app/main.py:87-88 | an extra-information row is extracted exactly when its `transaction_date` is the processing date |
| `Job.RunSnapshot` | q2/app/main.py:162-164 | the snapshot of a run is all latest rows with the run's timestamp and distinct `(gmv_date, subsidiary)` keys |
| `Job.Run` | q2/app/main.py:158-165 | a run loads its snapshot as the load step says, never hits a merge conflict, and keeps at most one latest row per present key |
| `Scenario.DayJoin` | q2/app/main.py:104-105 | in the example every purchase is paired with its own extra information |
| `Scenario.OneGroup` | q2/app/main.py:114-116 | two amounts of the same day and subsidiary form one group whose total is their sum |
| `Scenario.DaySnapshot` | q2/app/main.py:91-121 | in the example the cancelled purchase adds nothing and the snapshot is one latest row of 100.00 plus the second purchase's value |
| `Scenario.DaySales` | q2/app/main.py:109-112 | in the example the cancelled purchase does not reach the aggregation and the two approved ones do |
| `Scenario.SameDayCorrectionDedup` | q2/app/main.py:71-77 | the newer version of a corrected purchase replaces the older one |
| `Scenario.SameDayJoinLatest` | q2/app/main.py:98-105 | after a same-day correction the join is that of the corrected purchases |
| `Scenario.FirstRunSnapshot` | q2/app/main.py:162-164 | the run for d before any correction computes one row of 150.00 for (d, A) |
| `Scenario.SameDaySnapshot` | q2/app/main.py:162-164 | the rerun for d after a same-day correction computes one row of 180.00 for (d, A) |
| `Scenario.RecalculationSupersedes` | q2/app/main.py:149-156 | loading 180.00 for (d, A) flips the 150.00 row to superseded and appends the new row as latest |
| `Scenario.SameDayRerun` | q2/app/main.py:158-165 | two runs for d around a same-day correction leave the 150.00 row superseded and the 180.00 row latest |
| `Scenario.NextDayExtract` | q2/app/main.py:83-88 | the run for d + 1 extracts only the next-day correction, and none of the extra information of day d |
| `Scenario.NextDayFirstSnapshot` | q2/app/main.py:162-164 | the run for d does not see the correction dated d + 1 and computes 150.00 for (d, A) |
| `Scenario.UnmatchedSnapshot` | q2/app/main.py:104-121 | an approved purchase without extra information gives a latest row under a NULL subsidiary with its whole value |
| `Scenario.NextDaySnapshot` | q2/app/main.py:162-164 | the run for d + 1 after a next-day correction computes one row of 80.00 for (d, NULL) |
| `Scenario.NullRowSupersedesNothing` | q2/app/main.py:149-156 | loading a row for (d, NULL) leaves the 150.00 row for (d, A) latest |
| `Scenario.NextDayRun` | q2/app/main.py:158-165 | the runs for d and for d + 1 around a next-day correction leave 150.00 for (d, A) and 80.00 for (d, NULL) both latest |

## Left out

- Logging setup and its correlation id (`Logger.configure_logging`), the Spark session (`_create_spark_session`, `stop`), `show`, and the logging and re-raising in `run` and `__main__`: these are I/O and library plumbing.
- The clock. `_get_processing_date` and `current_timestamp()` read it. The processing date and the calculation timestamp are parameters of `Job.Run`.
- Reading the catalog tables. Only the `transaction_date` filter of `extract_source_data` is modelled. The product-item extract is discarded by the job, so it is not modelled.
- The table name, `partitionBy("gmv_date")`, and detecting a Delta table. Existence is the `created` flag. A non-Delta table under the same name is not modelled.
- Floating point. `gmv_total_day` is a double in the table and a number of cents here.
- NULL in `purchase_id`, `purchase_partition`, `transaction_datetime` and `purchase_total_value`. These columns are non-null in the model. Spark would never join a NULL key, would rank a NULL version last, and would skip NULL values in the sum.
- Row order. Spark gives no order to the output of a window, join or aggregation. The model emits rows in the order their keys first occur.
- Duplicate columns. The join keeps both sides' `transaction_datetime` and `transaction_date`. The model keeps the pair of rows instead, since the job reads neither column after the join.
- Load.GmvTable.Load: the snapshot is taken as evaluated once. In the job it is a lazy DataFrame that `show`, `rdd.isEmpty`, the MERGE and the append each evaluate again (q2/app/main.py:125, 133, 149-152, 155-156). Each evaluation re-reads `current_timestamp()` and the source tables and may break `row_number` ties differently, so the rows appended need not be the rows the MERGE matched. The model does not capture this.
- Job.Run: for the same reason, the snapshot that `show` prints, the one `rdd.isEmpty` tests, the one the MERGE matches and the one appended are one value `Job.RunSnapshot` here.
- Concurrency, and a failure between the MERGE commit and the append commit. The two writes run one after the other in `Load.GmvTable.Load`.
- Point-in-time queries on the table. Consumers run them; the job does not.
