/** The Shipday CSV export in its two forms: `handleShipday` of
    `api/router.js`, over the database's orders of one day, and
    `api/shipday.js`, over the sheet's orders up to a day that are ready to
    dispatch. Both write one row of thirteen columns per order through the
    same CSV writer. The current date is a parameter. */
module Shipday {
  import opened Wrappers
  import opened Seqs
  import opened JsText
  import opened Rows
  import Csv

  /** One export row. */
  datatype ShipRow = ShipRow(
    orderNumber: string, customerName: string, customerPhoneNumber: string,
    customerEmail: string, addressLine1: string, addressLine2: string, city: string,
    state: string, postalCode: string, country: string, paymentMethod: string,
    codAmount: string, note: string)

  /** The object keys, in the order the handlers write them. */
  const Columns: seq<string> := [
    "orderNumber", "customerName", "customerPhoneNumber", "customerEmail",
    "addressLine1", "addressLine2", "city", "state", "postalCode", "country",
    "paymentMethod", "codAmount", "note"]

  function Cells(r: ShipRow): seq<string>
  {
    [r.orderNumber, r.customerName, r.customerPhoneNumber, r.customerEmail,
     r.addressLine1, r.addressLine2, r.city, r.state, r.postalCode, r.country,
     r.paymentMethod, r.codAmount, r.note]
  }

  function ToRecord(r: ShipRow): Csv.Record
  {
    Csv.Record(Columns, Csv.FromPairs(Columns, Cells(r)))
  }

  function ToRecords(rows: seq<ShipRow>): (r: seq<Csv.Record>)
    ensures |r| == |rows|
  {
    if |rows| == 0 then [] else [ToRecord(rows[0])] + ToRecords(rows[1..])
  }

  function AllCells(rows: seq<ShipRow>): (r: seq<seq<string>>)
    ensures |r| == |rows|
  {
    if |rows| == 0 then [] else [Cells(rows[0])] + AllCells(rows[1..])
  }

  /** `rows.length ? toCSV(rows) : "orderNumber\n"` */
  function Export(rows: seq<ShipRow>): string
  {
    if |rows| == 0 then "orderNumber\n" else Csv.ToCsv(ToRecords(rows))
  }

  /** `s.slice(0, 10)` */
  function Day(s: string): (r: string)
    ensures |r| <= 10
    ensures r <= s
  {
    if |s| <= 10 then s else s[..10]
  }

  /** `String(x || "").replace(/^#/, "")` */
  function StripHash(s: string): (r: string)
    ensures |s| > 0 && s[0] == '#' ==> s == "#" + r
    ensures (|s| == 0 || s[0] != '#') ==> r == s
  {
    if |s| > 0 && s[0] == '#' then s[1..] else s
  }

  // ------------------------------------------------------ router variant

  /** The shop filter of the database query (`lower(shop_domain) = $1`
      after the shop is trimmed and lower-cased; blank means every shop). */
  predicate StoreShopMatches(o: Order, shop: string)
  {
    Lower(Trim(shop)) == "" || Lower(o.shopDomain) == Lower(Trim(shop))
  }

  /** The row `handleShipday` builds for one order. */
  function RouterRow(o: Order): (r: ShipRow)
    ensures r.paymentMethod == "COD" <==> Contains(Lower(o.paymentGateway), "cod")
    ensures r.paymentMethod != "COD" ==> r.paymentMethod == "Prepaid"
    ensures r.codAmount == ""
  {
    ShipRow(StripHash(if o.orderName != "" then o.orderName else o.orderId),
            o.shipName, o.shipPhone, o.customerEmail, o.shipAddress1, o.shipAddress2,
            o.shipCity, o.shipProvince, o.shipZip, o.shipCountry,
            if Contains(Lower(o.paymentGateway), "cod") then "COD" else "Prepaid",
            "", o.note)
  }

  predicate OnDay(o: Order, day: string)
  {
    Day(OrderDate(o)) == day
  }

  predicate HasNumber(r: ShipRow) { r.orderNumber != "" }

  /** The orders `getOrders` returns: the shop's, in the store's
      `updated_at DESC` order (the sequence is given in that order). The
      handler's `limit: 5000` is ignored by `getOrders`. */
  function Fetched(orders: seq<Order>, shop: string): seq<Order>
  {
    Filter(orders, (o: Order) => StoreShopMatches(o, shop))
  }

  /** The rows `handleShipday` exports: the fetched orders of the query day,
      mapped to rows, without those whose order number is empty. */
  function RouterRows(orders: seq<Order>, shop: string, dateQuery: string, today: string): seq<ShipRow>
  {
    var day := Day(if dateQuery != "" then dateQuery else today);
    Filter(Map(Filter(Fetched(orders, shop), (o: Order) => OnDay(o, day)), RouterRow), HasNumber)
  }

  /** Selection: the exported rows are, in the fetched order, the rows of
      the fetched orders of the query day whose order number is non-empty. */
  lemma RouterSelection(orders: seq<Order>, shop: string, dateQuery: string, today: string)
    ensures var day := Day(if dateQuery != "" then dateQuery else today);
      RouterRows(orders, shop, dateQuery, today)
        == SelectMap(Fetched(orders, shop), (o: Order) => OnDay(o, day), RouterRow, HasNumber)
  {
    var day := Day(if dateQuery != "" then dateQuery else today);
    FilterMapFilter(Fetched(orders, shop), (o: Order) => OnDay(o, day), RouterRow, HasNumber);
  }

  /** Creation stamps whose text starts with a letter never fall on a day
      written `YYYY-MM-DD`: the export then has no row. This is the case
      when the stamp reaches the handler as a `Date`, whose `String` form
      starts with the weekday ("Sun Oct 11 ..."). */
  lemma RouterRowsLetterStamps(orders: seq<Order>, shop: string, dateQuery: string, today: string)
    requires var day := Day(if dateQuery != "" then dateQuery else today); |day| > 0 && IsDigit(day[0])
    requires forall o :: o in orders ==> |OrderDate(o)| > 0 && !IsDigit(OrderDate(o)[0])
    ensures RouterRows(orders, shop, dateQuery, today) == []
  {
    var day := Day(if dateQuery != "" then dateQuery else today);
    var fetched := Fetched(orders, shop);
    var onDay := (o: Order) => OnDay(o, day);
    forall i | 0 <= i < |fetched|
      ensures !onDay(fetched[i])
    {
      assert fetched[i] in orders;
      assert Day(OrderDate(fetched[i]))[0] == OrderDate(fetched[i])[0];
    }
    FilterNone(fetched, onDay);
  }

  /** The order number is the name (else the id) without one leading "#". */
  lemma RouterOrderNumber(o: Order)
    ensures var n := if o.orderName != "" then o.orderName else o.orderId;
      n == RouterRow(o).orderNumber || n == "#" + RouterRow(o).orderNumber
  {
  }

  // ------------------------------------------------------- sheet variant

  /** The filter of `api/shipday.js`: the exact (trimmed) shop, a creation
      day not after the query day in string order, and a status of
      "ready_dispatch" or "packed" in any case. */
  predicate SheetSelected(o: Order, shop: string, day: string)
  {
    && (shop == "" || Trim(o.shopDomain) == shop)
    && LexLe(Day(o.createdAt), day)
    && (Lower(o.status) == "ready_dispatch" || Lower(o.status) == "packed")
  }

  /** The row `api/shipday.js` builds for one order. */
  function SheetRow(o: Order): (r: ShipRow)
    ensures r.paymentMethod == "COD" <==> o.codAmount != ""
    ensures r.paymentMethod != "COD" ==> r.paymentMethod == "Prepaid"
    ensures r.codAmount == o.codAmount
  {
    ShipRow(if o.orderName != "" then o.orderName else o.orderId,
            if o.shipName != "" then o.shipName else o.customerName,
            if o.shipPhone != "" then o.shipPhone else o.customerPhone,
            o.customerEmail, o.shipAddress1, o.shipAddress2,
            o.shipCity, o.shipProvince, o.shipZip, o.shipCountry,
            if o.codAmount != "" then "COD" else "Prepaid",
            o.codAmount, o.note)
  }

  function SheetRows(orders: seq<Order>, shopQuery: string, dateQuery: string, today: string): (r: seq<ShipRow>)
    ensures |r| <= |orders|
  {
    var shop := Trim(shopQuery);
    var day := Day(if dateQuery != "" then dateQuery else today);
    Map(Filter(orders, (o: Order) => SheetSelected(o, shop, day)), SheetRow)
  }

  /** Every exported row is the row of a selected order, and every
      selected order has its row. */
  lemma SheetSelection(orders: seq<Order>, shopQuery: string, dateQuery: string, today: string)
    ensures var shop := Trim(shopQuery);
      var day := Day(if dateQuery != "" then dateQuery else today);
      var rows := SheetRows(orders, shopQuery, dateQuery, today);
      && (forall r :: r in rows ==> exists o :: o in orders && SheetSelected(o, shop, day) && r == SheetRow(o))
      && (forall o :: o in orders && SheetSelected(o, shop, day) ==> SheetRow(o) in rows)
  {
    var shop := Trim(shopQuery);
    var day := Day(if dateQuery != "" then dateQuery else today);
    MapFilterMembers(orders, (o: Order) => SheetSelected(o, shop, day), SheetRow);
  }

  // --------------------------------------------------------------- output

  lemma ColumnsDistinct()
    ensures Distinct(Columns)
  {
  }

  lemma RecordCells(r: ShipRow)
    ensures Csv.Values(Columns, ToRecord(r)) == Cells(r)
  {
    ColumnsDistinct();
    Csv.ValuesFromPairs(Columns, Cells(r));
  }

  lemma {:induction false} RecordsCells(rows: seq<ShipRow>)
    ensures Csv.AllValues(Columns, ToRecords(rows)) == AllCells(rows)
  {
    if |rows| > 0 {
      RecordCells(rows[0]);
      RecordsCells(rows[1..]);
      assert ToRecords(rows)[1..] == ToRecords(rows[1..]);
    }
  }

  /** An empty selection exports exactly "orderNumber\n". Otherwise the
      export is the thirteen column names on one line, and a body that
      reads back as every row's cells, in order. */
  lemma ExportReadsBack(rows: seq<ShipRow>)
    ensures |rows| == 0 ==> Export(rows) == "orderNumber\n"
    ensures |rows| > 0 ==> exists body ::
      && Export(rows) == Join(Columns, ",") + "\n" + body
      && Csv.Records(body) == Some(AllCells(rows))
  {
    if |rows| > 0 {
      var recs := ToRecords(rows);
      assert recs[0] == ToRecord(rows[0]);
      var body := Join(Csv.Lines(Columns, recs), "\n");
      Csv.ToCsvShape(recs);
      Csv.LinesAsBody(Columns, recs);
      RecordsCells(rows);
      Csv.RecordsRoundTrip(AllCells(rows));
      assert Export(rows) == Join(Columns, ",") + "\n" + body;
    }
  }
}
