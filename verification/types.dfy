/** Record shapes of the pharmacy stock application, as the spreadsheet
    decoder, the search box and the document converter see them. */
module Types {

  /** A possibly missing value: `None` stands for JavaScript's `undefined`. */
  datatype Option<+T> = None | Some(value: T)

  /** One spreadsheet cell: the text the sheet returned, or nothing when the
      row ends before this column. */
  type Cell = Option<string>

  /** A drug lot. `id` is the document id the database attaches and
      `lotNumber` an optional batch number; the spreadsheet decoder supplies
      neither. */
  datatype Drug = Drug(
    id: Option<string>,
    barcode: string,
    designation: string,
    currentStock: int,
    expiryDate: string,
    lowStockThreshold: int,
    lotNumber: Option<string>)

  /** A hospital department that receives stock. */
  datatype Service = Service(id: string, name: string)

  /** One ledger entry of stock leaving the pharmacy for a service. */
  datatype Distribution = Distribution(
    id: string,
    barcode: string,
    itemName: string,
    quantityDistributed: int,
    service: string,
    date: string)
}
