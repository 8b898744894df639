/** The transaction record shared by every component (src/lib/types.ts). */
module Types {
  import opened Wrappers

  datatype PaymentMethod = Card | Cash | Mobile

  datatype LineItem = LineItem(sku: string, quantity: int, price: int, name: string)

  /** Every customer field is optional in the source. */
  datatype CustomerInfo = CustomerInfo(id: Option<string>, name: Option<string>, email: Option<string>)

  datatype DiscountKind = Percentage | Fixed

  /** `kind` is the source's `type` field (`type` is a Dafny keyword). */
  datatype Discount = Discount(code: string, amount: int, kind: DiscountKind)

  /** The business payload. Money fields are opaque numbers: no arithmetic is done on them. */
  datatype TxData = TxData(
    amount: int,
    items: seq<LineItem>,
    paymentMethod: PaymentMethod,
    cashierId: string,
    storeId: string,
    customerInfo: Option<CustomerInfo>,
    discounts: Option<seq<Discount>>,
    subtotal: Option<int>,
    tax: Option<int>,
    total: Option<int>)

  /** A point-of-sale transaction; `conflictResolved` is absent until a resolution step sets it. */
  datatype Transaction = Transaction(id: string, timestamp: int, conflictResolved: Option<bool>, data: TxData)
}
