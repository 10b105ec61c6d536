/**
 * The rows the GMV job reads and writes. Only the columns the job uses are
 * kept; nullable columns are `Option`s.
 */
module Records {
  import opened Wrappers

  /** A calendar date, as a day number. */
  type Date = int
  /** An instant, as a count of microseconds. */
  type Timestamp = int
  /** Money, in cents. */
  type Cents = int

  /** The purchase status that makes a purchase count towards GMV. */
  const Approved: string := "APROVADA"

  /** The business key shared by purchases and their extra information. */
  datatype PurchaseKey = PurchaseKey(purchaseId: int, purchasePartition: int)

  /** One version of a purchase, as read from bronze.purchase. */
  datatype Purchase = Purchase(
    purchaseId: int,
    purchasePartition: int,
    transactionDatetime: Timestamp,
    transactionDate: Date,
    releaseDate: Option<Date>,
    purchaseStatus: Option<string>,
    purchaseTotalValue: Cents)

  /** One version of a purchase's extra information, as read from bronze.purchase_extra_info. */
  datatype ExtraInfo = ExtraInfo(
    purchaseId: int,
    purchasePartition: int,
    transactionDatetime: Timestamp,
    transactionDate: Date,
    subsidiary: Option<string>)

  /** One row of the destination fact table silver.fct_gmv_diario. */
  datatype GmvRow = GmvRow(
    gmvDate: Date,
    subsidiary: Option<string>,
    gmvTotalDay: Cents,
    calculationTimestamp: Timestamp,
    isLatest: bool)

  /** The key of the GMV table and of the aggregation: (gmv_date, subsidiary). */
  datatype DayKey = DayKey(date: Date, subsidiary: Option<string>)

  function GmvKey(r: GmvRow): DayKey { DayKey(r.gmvDate, r.subsidiary) }
  function PurchaseKeyOf(p: Purchase): PurchaseKey { PurchaseKey(p.purchaseId, p.purchasePartition) }
  function InfoKeyOf(e: ExtraInfo): PurchaseKey { PurchaseKey(e.purchaseId, e.purchasePartition) }
  function PurchaseVersion(p: Purchase): Timestamp { p.transactionDatetime }
  function InfoVersion(e: ExtraInfo): Timestamp { e.transactionDatetime }
  function PurchaseDate(p: Purchase): Date { p.transactionDate }
  function InfoDate(e: ExtraInfo): Date { e.transactionDate }
}
