/** The two record shapes the handlers read: an order row (one row of the
    orders table, whichever store it comes from) and a line-item row. A text
    field the store leaves empty or missing is "": the handlers only ever
    read such fields through `x || ""`, which treats both alike. Quantities
    and timestamps are integers; a nullable quantity is an `Option`, since
    the handlers read those through `??`, which does tell null from 0. */
module Rows {
  import opened Wrappers

  datatype Order = Order(
    shopDomain: string,
    orderId: string,
    orderName: string,
    createdAt: string,
    updatedAt: string,
    tags: string,
    fulfillmentStatus: string,
    shippingMethod: string,
    paymentGateway: string,
    status: string,
    codAmount: string,
    customerEmail: string,
    customerName: string,
    customerPhone: string,
    note: string,
    shipName: string,
    shipPhone: string,
    shipAddress1: string,
    shipAddress2: string,
    shipCity: string,
    shipProvince: string,
    shipZip: string,
    shipCountry: string)

  /** One line item as stored: the order it belongs to, the batch stamp of
      the write that produced it, and its catalogue fields. */
  datatype Item = Item(
    shopDomain: string,
    orderId: string,
    batchTs: int,
    sku: string,
    title: string,
    variantTitle: string,
    image: string,
    fulfillable: Option<int>,
    quantity: Option<int>)

  /** `o.CREATED_AT || o.UPDATED_AT || ""`: `||` passes over empty text,
      so the date is empty only when both stamps are, and a non-empty
      creation stamp always wins. */
  function OrderDate(o: Order): (r: string)
    ensures r == "" <==> o.createdAt == "" && o.updatedAt == ""
    ensures r == o.createdAt || r == o.updatedAt
    ensures o.createdAt != "" ==> r == o.createdAt
  {
    if o.createdAt != "" then o.createdAt else o.updatedAt
  }

  /** `Number(it.FULFILLABLE_QUANTITY ?? it.QUANTITY ?? 0)`: `??` passes
      over a missing value only, so a present fulfillable quantity wins even
      when it is 0, and the result is 0 only when the quantity that wins is
      0 or both are missing. */
  function PickQty(it: Item): (r: int)
    ensures it.fulfillable.Some? ==> r == it.fulfillable.value
    ensures r == 0 <==> it.fulfillable == Some(0) || (it.fulfillable.None? && it.quantity.GetOr(0) == 0)
    ensures r != 0 ==> Some(r) == it.fulfillable || (it.fulfillable.None? && Some(r) == it.quantity)
  {
    match it.fulfillable
    case Some(f) => f
    case None => it.quantity.GetOr(0)
  }
}
