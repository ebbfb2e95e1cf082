/** The five picking-list handlers over the grouping of `Grouping`:
    `api/picking-list.js` and `api/picking.js` (sheet orders and items, latest
    batch per order, positive totals), `api/print/picking.js` and
    `api/print-picking.js` (per-order latest items, a search filter before
    grouping, no positive filter) and `handlePickingList` of `api/router.js`
    (store orders and items, per-order express and age flags). Tables are
    parameters; so are the date parser and, for the router, the current time
    and the store's per-order item query. The HTML they print is left out
    except for its escaping. */
module Picking {
  import opened Wrappers
  import opened Seqs
  import opened JsText
  import opened Rows
  import opened Grouping
  import Sheets
  import Shipday

  // ------------------------------------------------------- latest batch

  /** The largest batch stamp per key, as the handlers' `Map` loop builds
      it: a key is set when first seen or when a larger stamp comes. */
  function BatchMax(items: seq<Item>, key: Item -> string): (m: map<string, int>)
    ensures forall k :: k in m <==> exists i :: 0 <= i < |items| && key(items[i]) == k
    decreases |items|
  {
    if |items| == 0 then map[]
    else
      var init := items[..|items| - 1];
      var it := items[|items| - 1];
      var m := BatchMax(init, key);
      assert forall i :: 0 <= i < |init| ==> items[i] == init[i];
      if key(it) !in m || it.batchTs > m[key(it)] then m[key(it) := it.batchTs] else m
  }

  /** Each key's entry is the largest stamp among the items of that key. */
  lemma BatchMaxSpec(items: seq<Item>, key: Item -> string)
    ensures var m := BatchMax(items, key);
      forall i :: 0 <= i < |items| ==> key(items[i]) in m && items[i].batchTs <= m[key(items[i])]
    ensures var m := BatchMax(items, key);
      forall k :: k in m ==> exists i :: 0 <= i < |items| && key(items[i]) == k && items[i].batchTs == m[k]
  {
    BatchMaxBound(items, key);
    BatchMaxAttained(items, key);
  }

  lemma BatchMaxSnoc(items: seq<Item>, key: Item -> string)
    requires |items| > 0
    ensures var m0 := BatchMax(items[..|items| - 1], key); var it := items[|items| - 1];
      BatchMax(items, key) == if key(it) !in m0 || it.batchTs > m0[key(it)] then m0[key(it) := it.batchTs] else m0
  {
  }

  /** Adding an item never lowers an entry, and its key's entry reaches at
      least its stamp. */
  lemma BatchMaxGrows(items: seq<Item>, key: Item -> string)
    requires |items| > 0
    ensures var m0 := BatchMax(items[..|items| - 1], key); var m := BatchMax(items, key);
      forall k :: k in m0 ==> k in m && m0[k] <= m[k]
    ensures var it := items[|items| - 1]; var m := BatchMax(items, key);
      key(it) in m && it.batchTs <= m[key(it)]
  {
    BatchMaxSnoc(items, key);
  }

  lemma {:induction false} BatchMaxBound(items: seq<Item>, key: Item -> string)
    ensures var m := BatchMax(items, key);
      forall i :: 0 <= i < |items| ==> key(items[i]) in m && items[i].batchTs <= m[key(items[i])]
    decreases |items|
  {
    if |items| > 0 {
      var init := items[..|items| - 1];
      BatchMaxBound(init, key);
      BatchMaxGrows(items, key);
      var m0 := BatchMax(init, key);
      var m := BatchMax(items, key);
      forall i | 0 <= i < |items|
        ensures key(items[i]) in m && items[i].batchTs <= m[key(items[i])]
      {
        if i < |init| {
          assert items[i] == init[i];
          assert key(init[i]) in m0 && init[i].batchTs <= m0[key(init[i])];
        }
      }
    }
  }

  lemma {:induction false} BatchMaxAttained(items: seq<Item>, key: Item -> string)
    ensures var m := BatchMax(items, key);
      forall k :: k in m ==> exists i :: 0 <= i < |items| && key(items[i]) == k && items[i].batchTs == m[k]
    decreases |items|
  {
    if |items| > 0 {
      var init := items[..|items| - 1];
      var it := items[|items| - 1];
      BatchMaxAttained(init, key);
      BatchMaxSnoc(items, key);
      var m0 := BatchMax(init, key);
      var m := BatchMax(items, key);
      forall k | k in m
        ensures exists i :: 0 <= i < |items| && key(items[i]) == k && items[i].batchTs == m[k]
      {
        if k == key(it) && m[k] == it.batchTs {
          assert items[|items| - 1] == it;
        } else {
          assert k in m0 && m[k] == m0[k];
          var i :| 0 <= i < |init| && key(init[i]) == k && init[i].batchTs == m0[k];
          assert items[i] == init[i];
        }
      }
    }
  }

  /** Whether an item carries the largest stamp of its key. */
  function AtMax(m: map<string, int>, key: Item -> string): Item -> bool
  {
    (it: Item) => key(it) in m && it.batchTs == m[key(it)]
  }

  /** `items.filter(it => Number(it.BATCH_TS || 0) === last.get(key(it)))` */
  function LatestOnly(items: seq<Item>, key: Item -> string): seq<Item>
  {
    Filter(items, AtMax(BatchMax(items, key), key))
  }

  /** An item survives exactly when no item of its key has a larger stamp. */
  lemma LatestOnlySpec(items: seq<Item>, key: Item -> string, it: Item)
    ensures it in LatestOnly(items, key) <==>
      it in items && forall j :: 0 <= j < |items| && key(items[j]) == key(it) ==> items[j].batchTs <= it.batchTs
  {
    var m := BatchMax(items, key);
    BatchMaxSpec(items, key);
    if it in items && forall j :: 0 <= j < |items| && key(items[j]) == key(it) ==> items[j].batchTs <= it.batchTs {
      var i :| 0 <= i < |items| && items[i] == it;
      var w :| 0 <= w < |items| && key(items[w]) == key(it) && items[w].batchTs == m[key(it)];
    }
  }

  /** `${it.SHOP_DOMAIN}|${it.ORDER_ID}` */
  function RawKey(it: Item): string { it.shopDomain + "|" + it.orderId }

  /** `${(it.SHOP_DOMAIN || "").toLowerCase()}|${it.ORDER_ID}` */
  function LowerKey(it: Item): string { Lower(it.shopDomain) + "|" + it.orderId }

  // ------------------------------------------------------ orders, names

  /** `new Date(o.CREATED_AT || o.UPDATED_AT || 0).getTime()` */
  function OrderTime(o: Order, parse: string -> Option<int>): Option<int>
  {
    Sheets.TimeOf(parse, OrderDate(o))
  }

  /** The `from`/`to` checks: an invalid time on either side compares
      false and so excludes nothing. */
  predicate InWindow(t: Option<int>, from: Option<int>, to: Option<int>)
  {
    && !(from.Some? && t.Some? && t.value < from.value)
    && !(to.Some? && t.Some? && t.value > to.value)
  }

  function OrderId(o: Order): string { o.orderId }
  function ItemOrderId(it: Item): string { it.orderId }

  /** `o.ORDER_NAME || "#" + o.ORDER_ID` */
  function NameOrId(o: Order): (r: string)
    ensures r != ""
  {
    if o.orderName != "" then o.orderName else "#" + o.orderId
  }

  /** `new Map(orders.map(o => [id, ...])).get(id)`: the last order with
      that id wins. */
  function OrderFor(orders: seq<Order>, id: string): (r: Option<Order>)
    ensures r.Some? <==> exists i :: 0 <= i < |orders| && orders[i].orderId == id
    ensures r.Some? ==> r.value in orders && r.value.orderId == id
    decreases |orders|
  {
    if |orders| == 0 then None
    else
      var last := orders[|orders| - 1];
      var init := orders[..|orders| - 1];
      assert forall i :: 0 <= i < |init| ==> orders[i] == init[i];
      if last.orderId == id then Some(last) else OrderFor(init, id)
  }

  /** The order found is the last one with the id: no later order carries
      it. */
  lemma {:induction false} OrderForLast(orders: seq<Order>, id: string) returns (i: nat)
    requires OrderFor(orders, id).Some?
    ensures i < |orders| && orders[i] == OrderFor(orders, id).value
    ensures forall j :: i < j < |orders| ==> orders[j].orderId != id
    decreases |orders|
  {
    var init := orders[..|orders| - 1];
    if orders[|orders| - 1].orderId == id {
      i := |orders| - 1;
    } else {
      i := OrderForLast(init, id);
      assert orders[i] == init[i];
      forall j | i < j < |orders|
        ensures orders[j].orderId != id
      {
        if j < |orders| - 1 {
          assert orders[j] == init[j];
        }
      }
    }
  }

  /** `orderNameById.get(id) || "#" + id` */
  function Label(orders: seq<Order>, id: string): string
  {
    match OrderFor(orders, id)
    case Some(o) => NameOrId(o)
    case None => "#" + id
  }

  /** The line of the sheet handlers: the trimmed SKU, else
      "TITLE|VARIANT_TITLE", as key; the order's label as its entry. */
  function SheetLine(it: Item, name: string): (l: Line)
    ensures Trim(it.sku) != "" ==> l.key == Trim(it.sku)
    ensures Trim(it.sku) == "" ==> l.key == it.title + "|" + it.variantTitle
    ensures l.qty == PickQty(it) && l.mark.name == name && !l.mark.express && !l.mark.aged
  {
    var sku := Trim(it.sku);
    Line(if sku != "" then sku else it.title + "|" + it.variantTitle,
         sku, it.title, it.variantTitle, it.image, PickQty(it), Mark(name, false, false, 0))
  }

  function SheetLines(items: seq<Item>, orders: seq<Order>): (r: seq<Line>)
    ensures |r| == |items|
    ensures forall i :: 0 <= i < |items| ==> r[i] == SheetLine(items[i], Label(orders, items[i].orderId))
  {
    seq(|items|, i requires 0 <= i < |items| => SheetLine(items[i], Label(orders, items[i].orderId)))
  }

  /** The response rows of the grouping handlers: positive totals, largest
      first. */
  function PositiveSorted(ls: seq<Line>): seq<Group>
  {
    SortDesc(Filter(GroupLines(ls), Positive), Total)
  }

  /** The rows are the groups with a positive total, each once, largest
      first; and each is its key's group. */
  lemma PositiveSortedSpec(ls: seq<Line>)
    ensures SortedDesc(PositiveSorted(ls), Total)
    ensures multiset(PositiveSorted(ls)) == multiset(Filter(GroupLines(ls), Positive))
    ensures forall g :: g in PositiveSorted(ls) <==> g in GroupLines(ls) && g.total > 0
  {
    var r := PositiveSorted(ls);
    forall g
      ensures g in r <==> g in GroupLines(ls) && g.total > 0
    {
      assert g in r <==> g in multiset(r);
      assert g in Filter(GroupLines(ls), Positive) <==> g in multiset(Filter(GroupLines(ls), Positive));
    }
  }

  // ------------------------------------------------ api/picking-list.js

  predicate ShopIs(s: string, shop: string) { shop == "" || Lower(s) == shop }

  function KeptOrders(orders: seq<Order>, shop: string, from: Option<int>, to: Option<int>, parse: string -> Option<int>): seq<Order>
  {
    Filter(orders, (o: Order) => ShopIs(o.shopDomain, shop) && InWindow(OrderTime(o, parse), from, to))
  }

  /** `itemsAll.filter(r => shop matches && orderIdSet.has(r.ORDER_ID))` */
  function ItemsOf(items: seq<Item>, shop: string, ids: set<string>): seq<Item>
  {
    Filter(items, (it: Item) => ShopIs(it.shopDomain, shop) && it.orderId in ids)
  }

  function IdSet(orders: seq<Order>): set<string>
  {
    set i | 0 <= i < |orders| :: orders[i].orderId
  }

  /** The lines `api/picking-list.js` groups. */
  function ListLines(orders: seq<Order>, items: seq<Item>, shopQuery: string, from: Option<int>, to: Option<int>, parse: string -> Option<int>): seq<Line>
  {
    var shop := Lower(shopQuery);
    var kept := KeptOrders(orders, shop, from, to, parse);
    var latest := LatestOnly(ItemsOf(items, shop, IdSet(kept)), RawKey);
    SheetLines(latest, kept)
  }

  /** `api/picking-list.js`: the items of the shop's orders in the window,
      latest batch per order, grouped, positive totals, largest first. */
  function PickingList(orders: seq<Order>, items: seq<Item>, shopQuery: string, from: Option<int>, to: Option<int>, parse: string -> Option<int>): seq<Group>
  {
    PositiveSorted(ListLines(orders, items, shopQuery, from, to, parse))
  }

  /** Which items reach the grouping: those of the requested shop, of an
      order kept by the shop and window filter, that carry the largest batch
      stamp among the kept items of the same "shop|order" key. */
  lemma PickingListItems(orders: seq<Order>, items: seq<Item>, shopQuery: string, from: Option<int>, to: Option<int>, parse: string -> Option<int>, it: Item)
    ensures var shop := Lower(shopQuery);
      var kept := KeptOrders(orders, shop, from, to, parse);
      var pool := ItemsOf(items, shop, IdSet(kept));
      it in LatestOnly(pool, RawKey) <==>
        && it in items && ShopIs(it.shopDomain, shop)
        && (exists o :: o in orders && o.orderId == it.orderId && ShopIs(o.shopDomain, shop) && InWindow(OrderTime(o, parse), from, to))
        && (forall j :: 0 <= j < |pool| && RawKey(pool[j]) == RawKey(it) ==> pool[j].batchTs <= it.batchTs)
  {
    var shop := Lower(shopQuery);
    var kept := KeptOrders(orders, shop, from, to, parse);
    var pool := ItemsOf(items, shop, IdSet(kept));
    LatestOnlySpec(pool, RawKey, it);
    PoolSpec(items, shop, kept, it);
  }

  /** Every group `api/picking-list.js` returns has a positive total, which
      is the sum of the quantities of its lines; the list is largest first. */
  lemma PickingListGroups(orders: seq<Order>, items: seq<Item>, shopQuery: string, from: Option<int>, to: Option<int>, parse: string -> Option<int>)
    ensures var ls := ListLines(orders, items, shopQuery, from, to, parse);
      var r := PickingList(orders, items, shopQuery, from, to, parse);
      && SortedDesc(r, Total)
      && forall g :: g in r ==>
           && g.total > 0 && |LinesOf(ls, g.key)| > 0
           && g.total == Sum(Map(LinesOf(ls, g.key), LineQty))
           && Map(g.orders, NameOf) == Dedup(Map(LinesOf(ls, g.key), LineName))
  {
    var ls := ListLines(orders, items, shopQuery, from, to, parse);
    PositiveSortedSpec(ls);
    forall g | g in PickingList(orders, items, shopQuery, from, to, parse)
      ensures g.total > 0 && |LinesOf(ls, g.key)| > 0
      ensures g.total == Sum(Map(LinesOf(ls, g.key), LineQty))
      ensures Map(g.orders, NameOf) == Dedup(Map(LinesOf(ls, g.key), LineName))
    {
      GroupMember(ls, g);
    }
  }

  // ------------------------------------------------------ api/picking.js

  /** The `q` filter of `api/picking.js` on a finished row. */
  predicate RowMatches(g: Group, q: string)
  {
    Contains(Lower(g.sku), q) || Contains(Lower(g.title), q) || Contains(Lower(g.variantTitle), q)
  }

  function PickingLines(orders: seq<Order>, items: seq<Item>, shop: string): seq<Line>
  {
    var ids := IdSet(Filter(orders, (o: Order) => ShopIs(o.shopDomain, shop)));
    var latest := LatestOnly(ItemsOf(items, shop, ids), LowerKey);
    SheetLines(latest, orders)
  }

  /** `api/picking.js` as JSON rows: no date window, the latest batch per
      lower-cased "shop|order", labels from all orders, and the search
      applied to the finished rows. */
  function Picking(orders: seq<Order>, items: seq<Item>, shopQuery: string, query: string): seq<Group>
  {
    var shop := Trim(Lower(shopQuery));
    var q := Trim(Lower(query));
    var rows := PositiveSorted(PickingLines(orders, items, shop));
    if q == "" then rows else Filter(rows, (g: Group) => RowMatches(g, q))
  }

  /** The search runs after grouping: it keeps exactly the positive groups
      whose SKU, title or variant contains the search text, still largest
      first. */
  lemma PickingSearch(orders: seq<Order>, items: seq<Item>, shopQuery: string, query: string)
    ensures var shop := Trim(Lower(shopQuery));
      var q := Trim(Lower(query));
      var r := Picking(orders, items, shopQuery, query);
      && SortedDesc(r, Total)
      && forall g :: g in r <==> g in GroupLines(PickingLines(orders, items, shop)) && g.total > 0 && (q == "" || RowMatches(g, q))
  {
    var shop := Trim(Lower(shopQuery));
    var q := Trim(Lower(query));
    var rows := PositiveSorted(PickingLines(orders, items, shop));
    PositiveSortedSpec(PickingLines(orders, items, shop));
    if q != "" {
      FilterSorted(rows, (g: Group) => RowMatches(g, q));
    }
  }

  /** Filtering keeps the order. */
  lemma {:induction false} FilterSorted(xs: seq<Group>, p: Group -> bool)
    requires SortedDesc(xs, Total)
    ensures SortedDesc(Filter(xs, p), Total)
  {
    if |xs| > 0 {
      FilterSorted(xs[1..], p);
      var rest := Filter(xs[1..], p);
      if p(xs[0]) {
        forall j | 0 <= j < |rest|
          ensures rest[j].total <= xs[0].total
        {
          assert rest[j] in xs[1..];
        }
      }
    }
  }

  /** Which items reach the grouping: those of the requested shop, case
      ignored, of an order of that shop, that carry the largest batch stamp
      among those items of the same lower-cased "shop|order" key. */
  lemma PickingItems(orders: seq<Order>, items: seq<Item>, shop: string, it: Item)
    ensures var kept := Filter(orders, (o: Order) => ShopIs(o.shopDomain, shop));
      var pool := ItemsOf(items, shop, IdSet(kept));
      it in LatestOnly(pool, LowerKey) <==>
        && it in items && ShopIs(it.shopDomain, shop)
        && (exists o :: o in orders && o.orderId == it.orderId && ShopIs(o.shopDomain, shop))
        && (forall j :: 0 <= j < |pool| && LowerKey(pool[j]) == LowerKey(it) ==> pool[j].batchTs <= it.batchTs)
  {
    var kept := Filter(orders, (o: Order) => ShopIs(o.shopDomain, shop));
    var pool := ItemsOf(items, shop, IdSet(kept));
    LatestOnlySpec(pool, LowerKey, it);
    PoolSpec(items, shop, kept, it);
  }

  /** An item is in the pool exactly when it is of the shop and some kept
      order has its id. */
  lemma PoolSpec(items: seq<Item>, shop: string, kept: seq<Order>, it: Item)
    ensures it in ItemsOf(items, shop, IdSet(kept)) <==>
      it in items && ShopIs(it.shopDomain, shop) && exists o :: o in kept && o.orderId == it.orderId
  {
    if it.orderId in IdSet(kept) {
      var i :| 0 <= i < |kept| && kept[i].orderId == it.orderId;
      assert kept[i] in kept;
    }
    if exists o :: o in kept && o.orderId == it.orderId {
      var o :| o in kept && o.orderId == it.orderId;
      var i :| 0 <= i < |kept| && kept[i] == o;
      assert it.orderId in IdSet(kept);
    }
  }

  // ---------------------------------- api/print/picking.js, print-picking

  /** `it.SKU?.trim() || \`${it.TITLE} | ${it.VARIANT_TITLE || ""}\`.trim()` */
  function PrintKey(it: Item): string
  {
    if Trim(it.sku) != "" then Trim(it.sku) else Trim(it.title + " | " + it.variantTitle)
  }

  /** The search text a line is matched against before grouping. */
  function Needle(it: Item): string
  {
    Lower(PrintKey(it) + " " + it.title + " " + it.variantTitle)
  }

  predicate Searched(it: Item, q: string) { q == "" || Contains(Needle(it), q) }

  /** The line of the print handlers: the order id as its entry and the
      SKU as stored. */
  function PrintLine(it: Item): Line
  {
    Line(PrintKey(it), it.sku, it.title, it.variantTitle, it.image, PickQty(it), Mark(it.orderId, false, false, 0))
  }

  function PrintLines(all: seq<Item>, q: string): (r: seq<Line>)
    ensures |r| <= |all|
  {
    Map(Filter(all, (it: Item) => Searched(it, q)), PrintLine)
  }

  /** `(req.query.orders || "").split(",").map(s => s.trim()).filter(Boolean)` */
  function OrderList(s: string): (r: seq<string>)
    ensures forall i :: 0 <= i < |r| ==> r[i] != ""
  {
    Filter(Map(Split(s, ','), Trim), (x: string) => x != "")
  }

  /** The order ids of the item table in first-seen order, the last 50. */
  function RecentOrders(items: seq<Item>): (r: seq<string>)
    ensures |r| <= 50
  {
    LastN(Dedup(Map(items, ItemOrderId)), 50)
  }

  /** `getLatestItems(shop, id)` for each id, concatenated. */
  function LatestFor(items: seq<Item>, shop: string, ids: seq<string>): seq<Item>
  {
    Flatten(Map(ids, (id: string) => Sheets.GetLatestItems(items, shop, id)))
  }

  /** `api/print/picking.js` as rows. */
  function PrintPickingFor(items: seq<Item>, shopQuery: string, ordersQuery: string, query: string): (r: Result<seq<Group>>)
    ensures r.Err? <==> Trim(shopQuery) == ""
    ensures r.Err? ==> r.error == "Missing shop"
  {
    var shop := Trim(shopQuery);
    var explicit := OrderList(ordersQuery);
    var q := Lower(query);
    if shop == "" then Err("Missing shop")
    else
      var ids := if |explicit| > 0 then explicit else RecentOrders(items);
      Ok(SortDesc(GroupLines(PrintLines(LatestFor(items, shop, ids), q)), Total))
  }

  /** `api/print-picking.js` as rows. */
  function PrintPicking(items: seq<Item>, shopQuery: string, query: string): (r: Result<seq<Group>>)
    ensures r.Err? <==> Trim(shopQuery) == ""
  {
    var shop := Trim(shopQuery);
    var q := Lower(query);
    if shop == "" then Err("Missing shop")
    else Ok(SortDesc(GroupLines(PrintLines(LatestFor(items, shop, RecentOrders(items)), q)), Total))
  }

  /** The two print handlers agree when no order list is given. */
  lemma PrintHandlersAgree(items: seq<Item>, shopQuery: string, query: string)
    ensures PrintPicking(items, shopQuery, query) == PrintPickingFor(items, shopQuery, "", query)
  {
    assert Split("", ',') == [""];
    assert Map([""], Trim) == [""];
  }

  /** Without an order list at most 50 orders are read: the last 50
      distinct ids of the item table, each once. */
  lemma RecentOrdersWindow(items: seq<Item>)
    ensures Distinct(RecentOrders(items))
    ensures forall id :: id in RecentOrders(items) ==> exists i :: 0 <= i < |items| && items[i].orderId == id
    ensures |Dedup(Map(items, ItemOrderId))| <= 50 ==> RecentOrders(items) == Dedup(Map(items, ItemOrderId))
  {
    var d := Dedup(Map(items, ItemOrderId));
    var r := RecentOrders(items);
    forall id | id in r
      ensures exists i :: 0 <= i < |items| && items[i].orderId == id
    {
      assert id in d;
      var i :| 0 <= i < |items| && Map(items, ItemOrderId)[i] == id;
    }
    forall a, b | 0 <= a < b < |r|
      ensures r[a] != r[b]
    {
      assert r[a] == d[|d| - |r| + a] && r[b] == d[|d| - |r| + b];
    }
  }

  /** The search runs before grouping, every group's lines match it, and
      there is no positive-total filter: the result is all the groups,
      largest first. */
  lemma PrintPickingRows(items: seq<Item>, shopQuery: string, query: string)
    requires Trim(shopQuery) != ""
    ensures var all := LatestFor(items, Trim(shopQuery), RecentOrders(items));
      var ls := PrintLines(all, Lower(query));
      var r := PrintPicking(items, shopQuery, query).value;
      && SortedDesc(r, Total)
      && multiset(r) == multiset(GroupLines(ls))
      && forall i :: 0 <= i < |ls| ==> exists it :: it in all && Searched(it, Lower(query)) && ls[i] == PrintLine(it)
  {
    var all := LatestFor(items, Trim(shopQuery), RecentOrders(items));
    var kept := Filter(all, (it: Item) => Searched(it, Lower(query)));
    var ls := PrintLines(all, Lower(query));
    forall i | 0 <= i < |ls|
      ensures exists it :: it in all && Searched(it, Lower(query)) && ls[i] == PrintLine(it)
    {
      assert kept[i] in kept;
    }
  }

  /** Every item printed for an order is one of its rows in the latest
      batch, the shop compared exactly. */
  lemma LatestForItems(items: seq<Item>, shop: string, ids: seq<string>, it: Item)
    requires it in LatestFor(items, shop, ids)
    ensures it in items && it.shopDomain == shop && it.orderId in ids
    ensures forall j :: 0 <= j < |items| && items[j].shopDomain == shop && items[j].orderId == it.orderId ==>
      items[j].batchTs <= it.batchTs
  {
    var id := LatestForPart(items, shop, ids, it);
  }

  /** An item printed comes from the latest rows of one of the ids. */
  lemma LatestForPart(items: seq<Item>, shop: string, ids: seq<string>, it: Item) returns (id: string)
    requires it in LatestFor(items, shop, ids)
    ensures id in ids && it in Sheets.GetLatestItems(items, shop, id)
  {
    var parts := Map(ids, (id: string) => Sheets.GetLatestItems(items, shop, id));
    var i :| 0 <= i < |parts| && it in parts[i];
    id := ids[i];
  }

  // -------------------------------------- handlePickingList of api/router.js

  /** The age in whole days, `Math.floor((now - created) / 86400000)`. */
  function AgeDays(now: int, created: int): int
  {
    (now - created) / 86400000
  }

  /** `ageDays > 7 && !/\bshipped\b/i.test(TAGS)`; with an invalid date
      the age is NaN and the order is not old. */
  predicate IsOld(o: Order, now: int, parse: string -> Option<int>)
  {
    var t := OrderTime(o, parse);
    t.Some? && AgeDays(now, t.value) > 7 && !HasWord(o.tags, "shipped")
  }

  /** The line of one store item of a kept order. */
  function RouterLine(it: Item, o: Order, now: int, parse: string -> Option<int>): (l: Line)
    ensures l.mark.name == NameOrId(o)
    ensures l.mark.express <==> HasWord(o.shippingMethod, "express")
    ensures l.mark.aged <==> IsOld(o, now, parse)
  {
    var sku := Trim(it.sku);
    Line(if sku != "" then sku else it.title + "|" + it.variantTitle,
         sku, it.title, it.variantTitle, it.image, PickQty(it),
         Mark(NameOrId(o), HasWord(o.shippingMethod, "express"), IsOld(o, now, parse),
              OrderTime(o, parse).GetOr(0)))
  }

  /** The lines of one order: the store's items of that order, each tagged
      with the order. */
  function OrderLines(o: Order, its: seq<Item>, now: int, parse: string -> Option<int>): (r: seq<Line>)
    ensures |r| == |its|
    ensures forall i :: 0 <= i < |its| ==> r[i] == RouterLine(its[i], o, now, parse)
  {
    seq(|its|, i requires 0 <= i < |its| => RouterLine(its[i], o, now, parse))
  }

  /** The lines of the orders `ids`, in order, each with the last kept
      order of its id. */
  function RouterLines(kept: seq<Order>, ids: seq<string>, store: string -> seq<Item>, now: int, parse: string -> Option<int>): seq<Line>
    requires forall i :: 0 <= i < |ids| ==> OrderFor(kept, ids[i]).Some?
  {
    if |ids| == 0 then []
    else OrderLines(OrderFor(kept, ids[0]).value, store(ids[0]), now, parse) + RouterLines(kept, ids[1..], store, now, parse)
  }

  /** Whether some order of `ids` that has items has no valid date: its
      `toISOString()` throws and the request fails. */
  predicate BadDate(kept: seq<Order>, ids: seq<string>, store: string -> seq<Item>, parse: string -> Option<int>)
    requires forall i :: 0 <= i < |ids| ==> OrderFor(kept, ids[i]).Some?
  {
    exists i :: 0 <= i < |ids| && |store(ids[i])| > 0 && OrderTime(OrderFor(kept, ids[i]).value, parse).None?
  }

  /** The orders `handlePickingList` keeps: the store's orders of the
      shop in the date window. */
  function RouterKept(orders: seq<Order>, shopQuery: string, from: Option<int>, to: Option<int>, parse: string -> Option<int>): seq<Order>
  {
    Filter(Shipday.Fetched(orders, Lower(shopQuery)), (o: Order) => InWindow(OrderTime(o, parse), from, to))
  }

  /** `new Set(ordersFiltered.map(o => o.ORDER_ID))` in iteration order;
      every id has its order. */
  function RouterIds(kept: seq<Order>): (ids: seq<string>)
    ensures Distinct(ids)
    ensures forall i :: 0 <= i < |ids| ==> OrderFor(kept, ids[i]).Some?
  {
    var ids := Dedup(Map(kept, OrderId));
    assert forall i :: 0 <= i < |ids| ==> ids[i] in Map(kept, OrderId);
    ids
  }

  /** `handlePickingList`: the shop's orders from the store, the window
      filter, every kept order's items from `store`, grouped with per-order
      flags, positive totals largest first. */
  function RouterPickingList(orders: seq<Order>, store: string -> seq<Item>, shopQuery: string, from: Option<int>, to: Option<int>, now: int, parse: string -> Option<int>): (r: Result<seq<Group>>)
    ensures var kept := RouterKept(orders, shopQuery, from, to, parse);
      r.Err? <==> BadDate(kept, RouterIds(kept), store, parse)
    ensures r.Ok? ==> var kept := RouterKept(orders, shopQuery, from, to, parse);
      r.value == PositiveSorted(RouterLines(kept, RouterIds(kept), store, now, parse))
  {
    var kept := RouterKept(orders, shopQuery, from, to, parse);
    var ids := RouterIds(kept);
    if BadDate(kept, ids, store, parse) then Err("Invalid time value")
    else Ok(PositiveSorted(RouterLines(kept, ids, store, now, parse)))
  }

  /** The lines of an order name, gathered over the orders. */
  lemma {:induction false} RouterLineOf(kept: seq<Order>, ids: seq<string>, store: string -> seq<Item>, now: int, parse: string -> Option<int>, l: Line)
      returns (id: string, it: Item)
    requires forall i :: 0 <= i < |ids| ==> OrderFor(kept, ids[i]).Some?
    requires l in RouterLines(kept, ids, store, now, parse)
    ensures id in ids && OrderFor(kept, id).Some?
    ensures it in store(id) && l == RouterLine(it, OrderFor(kept, id).value, now, parse)
    decreases |ids|
  {
    var o := OrderFor(kept, ids[0]).value;
    var its := store(ids[0]);
    if l in OrderLines(o, its, now, parse) {
      var j := OrderLineOf(o, its, now, parse, l);
      id, it := ids[0], its[j];
    } else {
      id, it := RouterLineOf(kept, ids[1..], store, now, parse, l);
    }
  }

  lemma OrderLineOf(o: Order, its: seq<Item>, now: int, parse: string -> Option<int>, l: Line) returns (j: nat)
    requires l in OrderLines(o, its, now, parse)
    ensures j < |its| && l == RouterLine(its[j], o, now, parse)
  {
    var ls := OrderLines(o, its, now, parse);
    j :| 0 <= j < |ls| && ls[j] == l;
  }

  /** The per-order flags of a picking group: an order entry is marked
      express exactly when one of the group's lines of that order has the
      word "express" in its shipping method, and old exactly when one is
      more than seven days old and untagged "shipped". */
  lemma RouterFlags(orders: seq<Order>, store: string -> seq<Item>, shopQuery: string, from: Option<int>, to: Option<int>, now: int, parse: string -> Option<int>, g: Group, n: string)
    requires RouterPickingList(orders, store, shopQuery, from, to, now, parse).Ok?
    requires g in RouterPickingList(orders, store, shopQuery, from, to, now, parse).value
    ensures g.total > 0
    ensures var kept := RouterKept(orders, shopQuery, from, to, parse);
      var ls := RouterLines(kept, RouterIds(kept), store, now, parse);
      var m := MarkFor(g.orders, n);
      && (m.Some? ==> m.value.express == AnyExpress(LinesOf(ls, g.key), n) && m.value.aged == AnyOld(LinesOf(ls, g.key), n))
      && (m.None? ==> !AnyExpress(LinesOf(ls, g.key), n) && !AnyOld(LinesOf(ls, g.key), n))
  {
    var kept := RouterKept(orders, shopQuery, from, to, parse);
    var ls := RouterLines(kept, RouterIds(kept), store, now, parse);
    PositiveSortedSpec(ls);
    GroupMemberFlags(ls, g, n);
  }

  // ----------------------------------------------------------- escaping

  /** One character of `esc`: the five HTML-special characters become
      entities. The `replace` chain starts with "&", so the entities the
      later steps introduce are not escaped again; character by character
      is the same mapping. */
  function EscChar(c: char): string
  {
    if c == '&' then "&amp;"
    else if c == '<' then "&lt;"
    else if c == '>' then "&gt;"
    else if c == '"' then "&quot;"
    else if c == '\'' then "&#39;"
    else [c]
  }

  /** `esc(s)` of `api/picking.js` and `api/print-picking.js`. */
  function Esc(s: string): (r: string)
    ensures forall i :: 0 <= i < |r| ==> r[i] != '<' && r[i] != '>' && r[i] != '"' && r[i] != '\''
  {
    if |s| == 0 then "" else EscChar(s[0]) + Esc(s[1..])
  }

  /** The browser's reading of the five entities. */
  function Unescape(s: string): string
  {
    if |s| == 0 then ""
    else if |s| >= 5 && s[..5] == "&amp;" then "&" + Unescape(s[5..])
    else if |s| >= 4 && s[..4] == "&lt;" then "<" + Unescape(s[4..])
    else if |s| >= 4 && s[..4] == "&gt;" then ">" + Unescape(s[4..])
    else if |s| >= 6 && s[..6] == "&quot;" then "\"" + Unescape(s[6..])
    else if |s| >= 5 && s[..5] == "&#39;" then "'" + Unescape(s[5..])
    else [s[0]] + Unescape(s[1..])
  }

  /** Unescaping reads one escaped character back. */
  lemma UnescapeStep(c: char, t: string)
    ensures Unescape(EscChar(c) + t) == [c] + Unescape(t)
  {
    var u := EscChar(c) + t;
    if c == '&' {
      assert u[..5] == "&amp;" && u[5..] == t;
    } else if c == '<' {
      assert u[1] == 'l' && u[..4] == "&lt;" && u[4..] == t;
      assert |u| < 5 || u[..5] != "&amp;" by { if |u| >= 5 { assert u[..5][1] == 'l'; } }
    } else if c == '>' {
      assert u[1] == 'g' && u[..4] == "&gt;" && u[4..] == t;
      assert |u| < 5 || u[..5] != "&amp;" by { if |u| >= 5 { assert u[..5][1] == 'g'; } }
      assert u[..4] != "&lt;" by { assert u[..4][1] == 'g'; }
    } else if c == '"' {
      assert u[..5] != "&amp;" by { assert u[..5][1] == 'q'; }
      assert u[..4] != "&lt;" by { assert u[..4][1] == 'q'; }
      assert u[..4] != "&gt;" by { assert u[..4][1] == 'q'; }
      assert u[..6] == "&quot;" && u[6..] == t;
    } else if c == '\'' {
      assert u[..5] != "&amp;" by { assert u[..5][1] == '#'; }
      assert u[..4] != "&lt;" by { assert u[..4][1] == '#'; }
      assert u[..4] != "&gt;" by { assert u[..4][1] == '#'; }
      assert |u| < 6 || u[..6] != "&quot;" by { if |u| >= 6 { assert u[..6][1] == '#'; } }
      assert u[..5] == "&#39;" && u[5..] == t;
    } else {
      assert u[0] == c && u[1..] == t;
      assert |u| < 4 || (u[..4] != "&lt;" && u[..4] != "&gt;") by { if |u| >= 4 { assert u[..4][0] == c; } }
      assert |u| < 5 || (u[..5] != "&amp;" && u[..5] != "&#39;") by { if |u| >= 5 { assert u[..5][0] == c; } }
      assert |u| < 6 || u[..6] != "&quot;" by { if |u| >= 6 { assert u[..6][0] == c; } }
    }
  }

  /** Escaping loses nothing: the page shows exactly the text escaped. */
  lemma {:induction false} UnescapeEsc(s: string)
    ensures Unescape(Esc(s)) == s
  {
    if |s| > 0 {
      UnescapeEsc(s[1..]);
      UnescapeStep(s[0], Esc(s[1..]));
      assert s == [s[0]] + s[1..];
    }
  }
}
