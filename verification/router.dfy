/** The pure parts of the single-entry API router (`api/router.js`): the
    path it dispatches on, the route table, and the request checks of the
    deliver-by and tag endpoints. The handlers' storage calls are not part
    of this module (see the README). */
module Router {
  import opened Wrappers
  import opened JsText
  import Tags

  /** `getPath`: the URL's path with one leading "/api" (and the "/" after
      it, if any) replaced by "/". The `URL` parser has already produced
      `pathname`, which is "" only for an empty URL. */
  function GetPath(pathname: string): (r: string)
    ensures |r| > 0
    ensures |pathname| > 0 && pathname[0] == '/' ==> r[0] == '/'
    ensures pathname != "" && !StartsWith(pathname, "/api") ==> r == pathname
  {
    var p := if pathname == "" then "/" else pathname;
    if StartsWith(p, "/api/") then "/" + p[5..]
    else if StartsWith(p, "/api") then "/" + p[4..]
    else p
  }

  /** The route a request under "/api" reaches is the rest of its path. */
  lemma GetPathUnderApi(q: string)
    requires |q| > 0 && q[0] == '/'
    ensures GetPath("/api" + q) == q
  {
    var p := "/api" + q;
    assert StartsWith(p, "/api/") by { assert p[..5] == "/api/"; }
    assert p[5..] == q[1..];
    assert "/" + q[1..] == q;
  }

  lemma GetPathApiRoot()
    ensures GetPath("/api") == "/"
    ensures GetPath("/api/") == "/"
  {
  }

  /** Only one "/api" is removed, and it need not end a path segment:
      "/apiorders" reaches "/orders". */
  lemma GetPathQuirks()
    ensures GetPath("/apiorders") == "/orders"
    ensures GetPath("/api/api/orders") == "/api/orders"
  {
    assert "/apiorders"[4] == 'o';
    assert !StartsWith("/apiorders", "/api/");
    assert StartsWith("/apiorders", "/api");
    assert "/apiorders"[4..] == "orders";
    assert StartsWith("/api/api/orders", "/api/");
    assert "/api/api/orders"[5..] == "api/orders";
  }

  datatype Route =
    | Health | Orders | OrdersPage | OrdersSummary | Items | DeliverBy | NoteLocal
    | OrderTags | ShipdayExport | PickingList | Webhook
    | Unknown(error: string)

  /** The paths the router serves. */
  const RoutePaths: set<string> := {
    "/", "", "/orders", "/orders/page", "/orders/summary", "/items", "/order-items",
    "/orders/deliver-by", "/orders/note-local", "/orders/tags", "/export/shipday", "/shipday",
    "/picking-list", "/webhooks/shopify"
  }

  /** The dispatch chain: exact comparisons, first match wins, anything else
      is a 404 naming the path under "/api". */
  function Dispatch(p: string): (r: Route)
    ensures r.Unknown? <==> p !in RoutePaths
    ensures r.Unknown? ==> r.error == "Unknown route /api" + p
  {
    if p == "/" || p == "" then Health
    else if p == "/orders" then Orders
    else if p == "/orders/page" then OrdersPage
    else if p == "/orders/summary" then OrdersSummary
    else if p == "/items" || p == "/order-items" then Items
    else if p == "/orders/deliver-by" then DeliverBy
    else if p == "/orders/note-local" then NoteLocal
    else if p == "/orders/tags" then OrderTags
    else if p == "/export/shipday" || p == "/shipday" then ShipdayExport
    else if p == "/picking-list" then PickingList
    else if p == "/webhooks/shopify" then Webhook
    else Unknown("Unknown route /api" + p)
  }

  /** A request for "/api" + q with an unserved q is answered with a 404
      that names exactly the requested path. */
  lemma UnknownNamesRequest(q: string)
    requires |q| > 0 && q[0] == '/' && q !in RoutePaths
    ensures Dispatch(GetPath("/api" + q)) == Unknown("Unknown route /api" + q)
  {
    GetPathUnderApi(q);
  }

  /** Both spellings of the shipday export reach the same handler
      (`ShipdayPaths` gives the paths they are dispatched on). */
  lemma ShipdayAliases()
    ensures Dispatch("/shipday") == ShipdayExport && Dispatch("/export/shipday") == ShipdayExport
  {
  }

  lemma ShipdayPaths()
    ensures GetPath("/api/shipday") == "/shipday" && GetPath("/api/export/shipday") == "/export/shipday"
  {
    ShipdayPath();
    ExportShipdayPath();
  }

  lemma ShipdayPath()
    ensures GetPath("/api/shipday") == "/shipday"
  {
    assert StartsWith("/api/shipday", "/api/");
    assert "/api/shipday"[5..] == "shipday";
  }

  lemma ExportShipdayPath()
    ensures GetPath("/api/export/shipday") == "/export/shipday"
  {
    assert StartsWith("/api/export/shipday", "/api/");
    assert "/api/export/shipday"[5..] == "export/shipday";
  }

  /** Both spellings of the items endpoint reach the same handler. */
  lemma ItemsAliases()
    ensures GetPath("/api/items") == "/items" && GetPath("/api/order-items") == "/order-items"
    ensures Dispatch("/items") == Items && Dispatch("/order-items") == Items
  {
    GetPathUnderApi("/items");
    assert "/api" + "/items" == "/api/items";
    GetPathUnderApi("/order-items");
    assert "/api" + "/order-items" == "/api/order-items";
  }

  // ------------------------------------------------------------ deliver-by

  /** A JSON body field that is a string, an explicit `null` or missing. */
  datatype JsonText = Missing | Null | Text(s: string)

  datatype DeliverBody = DeliverBody(shop: Option<string>, orderId: Option<string>, deliverBy: JsonText)

  /** `body.deliverBy === null ? null : String(body.deliverBy || "").trim() || null` */
  function DeliverByValue(v: JsonText): (r: Option<string>)
    ensures r.Some? <==> v.Text? && Trim(v.s) != ""
    ensures r.Some? ==> r.value == Trim(v.s)
  {
    match v
    case Null => None
    case Missing => None
    case Text(s) => if Trim(s) == "" then None else Some(Trim(s))
  }

  /** `/^\d{4}-\d{2}-\d{2}$/` */
  predicate IsDayText(d: string)
  {
    && |d| == 10 && d[4] == '-' && d[7] == '-'
    && IsDigit(d[0]) && IsDigit(d[1]) && IsDigit(d[2]) && IsDigit(d[3])
    && IsDigit(d[5]) && IsDigit(d[6]) && IsDigit(d[8]) && IsDigit(d[9])
  }

  datatype DeliverReply = Rejected(status: int, error: string) | Accepted(shop: string, orderId: string, deliverBy: Option<string>)

  /** The checks of `handleSetDeliverBy` before its write. */
  function CheckDeliverBy(b: DeliverBody): (r: DeliverReply)
    ensures r == Rejected(400, "Missing shop or orderId") <==> Tags.OrText(b.shop, "") == "" || Tags.OrText(b.orderId, "") == ""
    ensures r == Rejected(400, "Bad date format (YYYY-MM-DD)") <==>
      Tags.OrText(b.shop, "") != "" && Tags.OrText(b.orderId, "") != ""
      && DeliverByValue(b.deliverBy).Some? && !IsDayText(DeliverByValue(b.deliverBy).value)
    ensures r.Accepted? ==>
      && r.shop == Lower(Tags.OrText(b.shop, "")) && r.orderId == Tags.OrText(b.orderId, "")
      && r.deliverBy == DeliverByValue(b.deliverBy)
      && (r.deliverBy.Some? ==> IsDayText(r.deliverBy.value))
  {
    var shop := Lower(Tags.OrText(b.shop, ""));
    var orderId := Tags.OrText(b.orderId, "");
    var d := DeliverByValue(b.deliverBy);
    if shop == "" || orderId == "" then Rejected(400, "Missing shop or orderId")
    else if d.Some? && !IsDayText(d.value) then Rejected(400, "Bad date format (YYYY-MM-DD)")
    else Accepted(shop, orderId, d)
  }

  lemma DayTextTrimmed(d: string)
    requires IsDayText(d)
    ensures Trim(d) == d
  {
    TrimSpec(d);
  }

  /** Clearing: `null`, a missing field and a blank text all clear the
      date. An accepted date is accepted again unchanged when sent back as
      it was answered. */
  lemma DeliverByStable(b: DeliverBody)
    requires CheckDeliverBy(b).Accepted?
    ensures b.deliverBy == Null || b.deliverBy == Missing ==> CheckDeliverBy(b).deliverBy == None
    ensures var d := CheckDeliverBy(b).deliverBy;
      d.Some? ==> CheckDeliverBy(b.(deliverBy := Text(d.value))) == CheckDeliverBy(b)
  {
    var d := CheckDeliverBy(b).deliverBy;
    if d.Some? {
      DayTextTrimmed(d.value);
    }
  }

  // ------------------------------------------------------------ tags

  /** The checks of `handleOrderTags` before its write; they parse and
      validate exactly as `api/orders/tags.js` does. */
  function CheckOrderTags(b: Tags.TagBody): (r: Result<Tags.TagRequest>)
    ensures r.Ok? <==> Tags.Validate(Tags.ParseTagRequest(b)).None?
    ensures r.Ok? ==> r.value.shop != "" && r.value.orderId != ""
    ensures r.Ok? && r.value.action != "set" ==> r.value.tag != ""
  {
    var req := Tags.ParseTagRequest(b);
    match Tags.Validate(req)
    case Some(msg) => Err(msg)
    case None => Ok(req)
  }

  /** Every request the router's tag check turns away, the tags endpoint
      turns away with the same 400 message and no write. */
  lemma TagChecksAgree<V>(orders: seq<Tags.OrderRecord>, cache: Tags.Cache.Store<V>, b: Tags.TagBody)
    requires CheckOrderTags(b).Err?
    ensures Tags.Handle(orders, cache, b) == Tags.TagOutcome(Tags.Failed(400, CheckOrderTags(b).error), orders, cache)
  {
  }
}
