/** Order labels (api/orders/tags.js, and the same request validation in
    api/router.js): the comma-joined TAGS column read as a list of labels,
    the `add` / `remove` / `set` edits, and the POST handler that applies one
    edit to a stored order. */
module Tags {
  import opened Wrappers
  import opened Seqs
  import opened JsText
  import Cache

  // ------------------------------------------------------------ the codec

  /** A label as the codec can carry it: non-empty, trimmed, comma-free. */
  predicate WellFormed(l: string)
  {
    |l| > 0 && IsTrimmed(l) && ',' !in l
  }

  predicate NonEmpty(s: string) { |s| > 0 }

  /** `String(TAGS || "").split(",").map(s => s.trim()).filter(Boolean)` */
  function Labels(raw: string): (r: seq<string>)
    ensures forall i :: 0 <= i < |r| ==> |r[i]| > 0
  {
    Filter(Map(Split(raw, ','), Trim), NonEmpty)
  }

  /** `labels.join(", ")`: the value written back to TAGS. */
  function Serialize(labels: seq<string>): string
  {
    Join(labels, ", ")
  }

  /** Every label read from TAGS is well formed. */
  lemma LabelsWellFormed(raw: string)
    ensures forall i :: 0 <= i < |Labels(raw)| ==> WellFormed(Labels(raw)[i])
  {
    var pieces := Split(raw, ',');
    var trimmed := Map(pieces, Trim);
    forall j | 0 <= j < |trimmed|
      ensures IsTrimmed(trimmed[j]) && ',' !in trimmed[j]
    {
      TrimSpec(pieces[j]);
      TrimKeepsOut(pieces[j], ',');
    }
    forall i | 0 <= i < |Labels(raw)|
      ensures WellFormed(Labels(raw)[i])
    {
      assert Labels(raw)[i] in trimmed;
    }
  }

  /** A ", " join is a "," join whose later pieces start with a blank. */
  function Blank(l: string): string { " " + l }

  lemma JoinPrefix(p: string, x: string, ys: seq<string>, sep: string)
    ensures Join([p + x] + ys, sep) == p + Join([x] + ys, sep)
  {
    if |ys| > 0 {
      JoinCons(p + x, ys, sep);
      JoinCons(x, ys, sep);
    }
  }

  lemma {:induction false} JoinSpaced(labels: seq<string>)
    requires |labels| >= 1
    ensures Join(labels, ", ") == Join([labels[0]] + Map(labels[1..], Blank), ",")
  {
    if |labels| > 1 {
      var rest := labels[1..];
      JoinSpaced(rest);
      var m := Map(rest, Blank);
      assert m == [" " + rest[0]] + Map(rest[1..], Blank);
      JoinPrefix(" ", rest[0], Map(rest[1..], Blank), ",");
      JoinCons(labels[0], rest, ", ");
      JoinCons(labels[0], m, ",");
      assert labels == [labels[0]] + rest;
    }
  }

  lemma SpacedPieces(labels: seq<string>)
    requires |labels| >= 1
    requires forall i :: 0 <= i < |labels| ==> WellFormed(labels[i])
    ensures var pieces := [labels[0]] + Map(labels[1..], Blank);
      (forall i :: 0 <= i < |pieces| ==> ',' !in pieces[i])
      && Map(pieces, Trim) == labels
  {
    var pieces := [labels[0]] + Map(labels[1..], Blank);
    forall i | 0 <= i < |pieces|
      ensures ',' !in pieces[i] && Trim(pieces[i]) == labels[i]
    {
      if i == 0 {
        PieceBack(labels[0], false);
      } else {
        assert pieces[i] == Blank(labels[i]);
        PieceBack(labels[i], true);
      }
    }
  }

  /** One written piece, with or without its leading blank, trims back to
      its label and holds no comma. */
  lemma PieceBack(l: string, spaced: bool)
    requires WellFormed(l)
    ensures var piece := if spaced then Blank(l) else l;
      ',' !in piece && Trim(piece) == l
  {
    TrimSpec(l);
    if spaced {
      assert Blank(l) == [' '] + l;
      TrimLeadingSpace(' ', l);
    }
  }

  /** Reading back what was written gives the same labels: the codec round
      trip, for well-formed labels. */
  lemma LabelsOfSerialize(labels: seq<string>)
    requires forall i :: 0 <= i < |labels| ==> WellFormed(labels[i])
    ensures Labels(Serialize(labels)) == labels
  {
    if |labels| == 0 {
      assert Split("", ',') == [""];
      assert Map([""], Trim) == [""];
    } else {
      var pieces := [labels[0]] + Map(labels[1..], Blank);
      JoinSpaced(labels);
      SpacedPieces(labels);
      SplitJoin(pieces, ',');
      FilterAll(labels, NonEmpty);
    }
  }

  /** Normalising a TAGS value is stable: reading, writing and reading again
      gives the labels of the first read. */
  lemma LabelsStable(raw: string)
    ensures Labels(Serialize(Labels(raw))) == Labels(raw)
  {
    LabelsWellFormed(raw);
    LabelsOfSerialize(Labels(raw));
  }

  // -------------------------------------------------------------- editing

  /** Case-insensitive equality of labels. */
  predicate SameLabel(a: string, b: string)
  {
    Lower(a) == Lower(b)
  }

  /** `labels.some(t => t.toLowerCase() === tag.toLowerCase())` */
  predicate HasLabel(labels: seq<string>, tag: string)
  {
    exists i :: 0 <= i < |labels| && SameLabel(labels[i], tag)
  }

  /** `add`: the tag is appended unless some label already equals it
      ignoring case. */
  function Add(labels: seq<string>, tag: string): (r: seq<string>)
    ensures labels <= r && |r| <= |labels| + 1
    ensures HasLabel(r, tag)
    ensures r == labels <==> HasLabel(labels, tag)
    ensures |r| == |labels| + 1 ==> r[|labels|] == tag
  {
    if HasLabel(labels, tag) then labels
    else
      assert SameLabel((labels + [tag])[|labels|], tag);
      labels + [tag]
  }

  /** `remove`: every label equal to the tag ignoring case is dropped; every
      other label keeps its number of occurrences (and, by `RemoveAppend`,
      its place). */
  function Remove(labels: seq<string>, tag: string): (r: seq<string>)
    ensures !HasLabel(r, tag)
    ensures forall l :: l in r <==> l in labels && !SameLabel(l, tag)
    ensures forall l :: multiset(r)[l] == if SameLabel(l, tag) then 0 else multiset(labels)[l]
    ensures |r| <= |labels|
  {
    var keep := (l: string) => !SameLabel(l, tag);
    var r := Filter(labels, keep);
    assert forall l :: multiset(r)[l] == if SameLabel(l, tag) then 0 else multiset(labels)[l] by {
      forall l
        ensures multiset(r)[l] == if SameLabel(l, tag) then 0 else multiset(labels)[l]
      {
        FilterCount(labels, keep, l);
      }
    }
    assert !HasLabel(r, tag) by {
      forall i | 0 <= i < |r|
        ensures !SameLabel(r[i], tag)
      {
        assert keep(r[i]);
      }
    }
    r
  }

  /** Removal works label by label, so the labels that stay keep their
      order. */
  lemma RemoveAppend(a: seq<string>, b: seq<string>, tag: string)
    ensures Remove(a + b, tag) == Remove(a, tag) + Remove(b, tag)
  {
    FilterAppend(a, b, (l: string) => !SameLabel(l, tag));
  }

  lemma AddIdempotent(labels: seq<string>, tag: string)
    ensures Add(Add(labels, tag), tag) == Add(labels, tag)
  {
  }

  /** `add` only tests for the tag: duplicates already present (in any
      case) are kept as they are. */
  lemma AddKeepsDuplicates()
    ensures Add(["Rush", "rush"], "RUSH") == ["Rush", "rush"]
  {
    assert SameLabel(["Rush", "rush"][0], "RUSH");
  }

  lemma RemoveIdempotent(labels: seq<string>, tag: string)
    ensures Remove(Remove(labels, tag), tag) == Remove(labels, tag)
  {
    FilterIdempotent(labels, (l: string) => !SameLabel(l, tag));
  }

  /** Removing a tag that is absent changes nothing. */
  lemma RemoveAbsent(labels: seq<string>, tag: string)
    requires !HasLabel(labels, tag)
    ensures Remove(labels, tag) == labels
  {
    FilterAll(labels, (l: string) => !SameLabel(l, tag));
  }

  /** `remove` undoes `add`: removing what was just added gives the labels
      with that tag removed. */
  lemma RemoveAfterAdd(labels: seq<string>, tag: string)
    ensures Remove(Add(labels, tag), tag) == Remove(labels, tag)
  {
    var keep := (l: string) => !SameLabel(l, tag);
    if !HasLabel(labels, tag) {
      FilterAppend(labels, [tag], keep);
      assert Filter([tag], keep) == [];
      assert Filter(labels, keep) + [] == Filter(labels, keep);
    }
  }

  // -------------------------------------------------------------- request

  /** The JSON body fields; `None` stands for absent or null, and `tags` is
      `None` when the field is not an array. */
  datatype TagBody = TagBody(shop: Option<string>, orderId: Option<string>, action: Option<string>,
                             tag: Option<string>, tags: Option<seq<string>>)

  datatype TagRequest = TagRequest(shop: string, orderId: string, action: string, tag: string,
                                   tagsIn: Option<seq<string>>)

  /** `String(v || d)` for a text field. */
  function OrText(v: Option<string>, d: string): (r: string)
    ensures v.Some? && v.value != "" ==> r == v.value
    ensures (v.None? || v.value == "") ==> r == d
  {
    if v.Some? && v.value != "" then v.value else d
  }

  /** `tags.map(s => String(s).trim()).filter(Boolean)` */
  function CleanTags(ts: seq<string>): (r: seq<string>)
    ensures forall i :: 0 <= i < |r| ==> |r[i]| > 0 && IsTrimmed(r[i])
    ensures forall i :: 0 <= i < |r| ==> exists j :: 0 <= j < |ts| && r[i] == Trim(ts[j])
  {
    var m := Map(ts, Trim);
    var r := Filter(m, NonEmpty);
    assert forall i :: 0 <= i < |r| ==> r[i] in m;
    forall j | 0 <= j < |ts|
      ensures IsTrimmed(m[j])
    {
      TrimSpec(ts[j]);
    }
    r
  }

  /** `String(action || "add").toLowerCase()` */
  function ActionOf(a: Option<string>): (r: string)
    ensures (a.None? || a == Some("")) ==> r == "add"
    ensures a.Some? && a.value != "" ==> r == Lower(a.value)
  {
    Lower(OrText(a, "add"))
  }

  /** Shared by the file handler and the router: shop and action are
      lower-cased, the action defaults to "add", the tag is trimmed and an
      array of tags is trimmed with blanks dropped. */
  function ParseTagRequest(b: TagBody): (r: TagRequest)
    ensures r.shop == Lower(OrText(b.shop, ""))
    ensures r.orderId == OrText(b.orderId, "")
    ensures (b.action.None? || b.action == Some("")) ==> r.action == "add"
    ensures r.tag == Trim(OrText(b.tag, ""))
    ensures r.tagsIn.Some? <==> b.tags.Some?
    ensures r.tagsIn.Some? ==> forall i :: 0 <= i < |r.tagsIn.value| ==>
      |r.tagsIn.value[i]| > 0 && IsTrimmed(r.tagsIn.value[i])
  {
    TagRequest(Lower(OrText(b.shop, "")), OrText(b.orderId, ""), ActionOf(b.action),
               Trim(OrText(b.tag, "")), if b.tags.Some? then Some(CleanTags(b.tags.value)) else None)
  }

  /** The checks made before any database access: a 400 and its message,
      or `None` when the request may proceed. */
  function Validate(req: TagRequest): (r: Option<string>)
    ensures r.None? <==> req.shop != "" && req.orderId != "" && (req.action == "set" || req.tag != "")
  {
    if req.shop == "" || req.orderId == "" then Some("Missing shop or orderId")
    else if req.action != "set" && req.tag == "" then Some("Missing tag")
    else None
  }

  /** The next label list for a known action, or the bad-action message. */
  function Next(current: seq<string>, req: TagRequest): (r: Result<seq<string>>)
    ensures r.Err? <==> req.action !in {"add", "remove", "set"}
    ensures req.action == "add" ==> r == Ok(Add(current, req.tag))
    ensures req.action == "remove" ==> r == Ok(Remove(current, req.tag))
    ensures req.action == "set" ==> r == Ok(req.tagsIn.GetOr([]))
  {
    if req.action == "add" then Ok(Add(current, req.tag))
    else if req.action == "remove" then Ok(Remove(current, req.tag))
    else if req.action == "set" then Ok(req.tagsIn.GetOr([]))
    else Err("Bad action (add|remove|set)")
  }

  // -------------------------------------------------------------- handler

  /** A stored order as the handler sees it; `tags` is `None` for NULL. */
  datatype OrderRecord = OrderRecord(shopDomain: string, orderId: string, tags: Option<string>)

  /** The shop filter of `getOrders`: trimmed and lower-cased, blank
      meaning every shop. */
  function NormShop(shop: string): string
  {
    Lower(Trim(shop))
  }

  /** The row the handler picks: the first one the shop-filtered query
      returns whose lower-cased shop and exact order id match. The table is
      taken in the query's `updated_at DESC` order. */
  predicate Picked(row: OrderRecord, shop: string, orderId: string)
  {
    (NormShop(shop) == "" || Lower(row.shopDomain) == NormShop(shop))
    && Lower(row.shopDomain) == shop && row.orderId == orderId
  }

  /** What the handler decides before writing: a rejection, or the row to
      write and the new labels. */
  datatype Decision = Reject(status: int, error: string) | Write(row: nat, next: seq<string>)

  function Decide(orders: seq<OrderRecord>, req: TagRequest): (d: Decision)
    ensures d.Write? ==> (d.row < |orders| && Picked(orders[d.row], req.shop, req.orderId)
      && Validate(req).None?
      && Next(Labels(orders[d.row].tags.GetOr("")), req) == Ok(d.next))
    ensures d.Write? ==> forall j :: 0 <= j < d.row ==> !Picked(orders[j], req.shop, req.orderId)
    ensures Validate(req).Some? ==> d == Reject(400, Validate(req).value)
    ensures Validate(req).None? && (forall j :: 0 <= j < |orders| ==> !Picked(orders[j], req.shop, req.orderId))
      ==> d == Reject(404, "Order not found")
    ensures d.Reject? ==> d.status in {400, 404}
  {
    match Validate(req)
    case Some(msg) => Reject(400, msg)
    case None =>
      match FindFirst(orders, (o: OrderRecord) => Picked(o, req.shop, req.orderId))
      case None => Reject(404, "Order not found")
      case Some(i) =>
        match Next(Labels(orders[i].tags.GetOr("")), req)
        case Err(msg) => Reject(400, msg)
        case Ok(next) => Write(i, next)
  }

  datatype TagReply = Labelled(tags: seq<string>) | Failed(status: int, error: string)

  datatype TagOutcome<V> = TagOutcome(reply: TagReply, orders: seq<OrderRecord>, cache: Cache.Store<V>)

  /** The handler as it is meant to work: validate, find the order, edit
      its labels, write the ", "-joined list back to that order alone and
      drop the cached "orders" responses. */
  function Handle<V>(orders: seq<OrderRecord>, cache: Cache.Store<V>, b: TagBody): (r: TagOutcome<V>)
    ensures r.reply.Failed? ==> r.orders == orders && r.cache == cache
    ensures |r.orders| == |orders|
    ensures r.reply.Labelled? ==> forall k :: k in r.cache ==> "orders" !in r.cache[k].tags
  {
    match Decide(orders, ParseTagRequest(b))
    case Reject(status, msg) => TagOutcome(Failed(status, msg), orders, cache)
    case Write(i, next) =>
      TagOutcome(Labelled(next), orders[i := orders[i].(tags := Some(Serialize(next)))],
                 Cache.InvalidateByTag(cache, "orders"))
  }

  /** The handler as written: the write goes through `updateOrderField`,
      which api/lib/db.js does not export, so the call throws a TypeError
      and the request ends in a 500 once the edit is computed. */
  function HandleAsWritten<V>(orders: seq<OrderRecord>, cache: Cache.Store<V>, b: TagBody): (r: TagOutcome<V>)
    ensures r.orders == orders && r.cache == cache
    ensures !r.reply.Labelled?
  {
    match Decide(orders, ParseTagRequest(b))
    case Reject(status, msg) => TagOutcome(Failed(status, msg), orders, cache)
    case Write(_, _) => TagOutcome(Failed(500, "updateOrderField is not a function"), orders, cache)
  }

  /** The two handlers agree on every rejection; every request the intended
      handler accepts, the written one answers with a 500. */
  lemma AsWrittenNeverSucceeds<V>(orders: seq<OrderRecord>, cache: Cache.Store<V>, b: TagBody)
    ensures Handle(orders, cache, b).reply.Labelled? <==>
      HandleAsWritten(orders, cache, b).reply == Failed(500, "updateOrderField is not a function")
    ensures Handle(orders, cache, b).reply.Failed? ==>
      HandleAsWritten(orders, cache, b) == Handle(orders, cache, b)
  {
  }

  lemma ExampleTexts()
    ensures Lower("s") == "s" && Trim("rush") == "rush" && Trim("s") == "s"
  {
    assert IsTrimmed("rush") && IsTrimmed("s");
    TrimSpec("rush");
    TrimSpec("s");
  }

  lemma ExampleRequest()
    ensures ParseTagRequest(TagBody(Some("s"), Some("7"), None, Some("rush"), None))
      == TagRequest("s", "7", "add", "rush", None)
  {
    ExampleTexts();
  }

  lemma ExampleLabels()
    ensures Labels("vip") == ["vip"]
    ensures Add(["vip"], "rush") == ["vip", "rush"]
  {
    ExampleRead();
    ExampleAdd();
  }

  lemma ExampleRead()
    ensures Labels("vip") == ["vip"]
  {
    assert IsTrimmed("vip");
    LabelsOfSerialize(["vip"]);
    assert Serialize(["vip"]) == "vip";
  }

  lemma ExampleAdd()
    ensures Add(["vip"], "rush") == ["vip", "rush"]
  {
    assert Lower("vip")[0] == 'v' && Lower("rush")[0] == 'r';
    assert !HasLabel(["vip"], "rush");
  }

  lemma ExampleDecision()
    ensures Decide([OrderRecord("s", "7", Some("vip"))], TagRequest("s", "7", "add", "rush", None))
      == Write(0, ["vip", "rush"])
  {
    var orders := [OrderRecord("s", "7", Some("vip"))];
    var req := TagRequest("s", "7", "add", "rush", None);
    ExampleTexts();
    ExampleLabels();
    assert NormShop("s") == "s";
    assert Picked(orders[0], "s", "7");
    assert FindFirst(orders, (o: OrderRecord) => Picked(o, req.shop, req.orderId)) == Some(0);
    assert Next(Labels("vip"), req) == Ok(["vip", "rush"]);
  }

  /** A concrete request the written handler loses: adding "rush" to an
      existing order labelled "vip". */
  lemma AsWrittenLosesAdd()
    ensures var orders := [OrderRecord("s", "7", Some("vip"))];
      var b := TagBody(Some("s"), Some("7"), None, Some("rush"), None);
      HandleAsWritten<int>(orders, map[], b).reply == Failed(500, "updateOrderField is not a function")
      && Handle<int>(orders, map[], b).reply == Labelled(["vip", "rush"])
  {
    ExampleRequest();
    ExampleDecision();
  }

  /** On success the handler answers with the decided labels, rewrites the
      picked order's TAGS and nothing else, and reading that column back
      gives exactly the labels it answered with, provided the request's
      labels carry no comma. */
  lemma HandleWritesWhatItAnswers<V>(orders: seq<OrderRecord>, cache: Cache.Store<V>, b: TagBody)
    requires b.tag.Some? ==> ',' !in b.tag.value
    requires b.tags.Some? ==> forall i :: 0 <= i < |b.tags.value| ==> ',' !in b.tags.value[i]
    ensures var d := Decide(orders, ParseTagRequest(b)); var r := Handle(orders, cache, b);
      d.Write? ==>
        r.reply == Labelled(d.next)
        && r.orders == orders[d.row := orders[d.row].(tags := Some(Serialize(d.next)))]
        && Labels(Serialize(d.next)) == d.next
  {
    var d := Decide(orders, ParseTagRequest(b));
    if d.Write? {
      var current := Labels(orders[d.row].tags.GetOr(""));
      LabelsWellFormed(orders[d.row].tags.GetOr(""));
      NextWellFormed(current, b);
      assert Next(current, ParseTagRequest(b)) == Ok(d.next);
      LabelsOfSerialize(d.next);
      HandleOfWrite(orders, cache, b, d.row, d.next);
    }
  }

  lemma HandleOfWrite<V>(orders: seq<OrderRecord>, cache: Cache.Store<V>, b: TagBody, i: nat, next: seq<string>)
    requires Decide(orders, ParseTagRequest(b)) == Write(i, next)
    ensures Handle(orders, cache, b).reply == Labelled(next)
    ensures Handle(orders, cache, b).orders == orders[i := orders[i].(tags := Some(Serialize(next)))]
  {
  }

  lemma AddWellFormed(current: seq<string>, tag: string)
    requires forall i :: 0 <= i < |current| ==> WellFormed(current[i])
    requires tag != "" && IsTrimmed(tag) && ',' !in tag
    ensures forall j :: 0 <= j < |Add(current, tag)| ==> WellFormed(Add(current, tag)[j])
  {
  }

  lemma RemoveWellFormed(current: seq<string>, tag: string)
    requires forall i :: 0 <= i < |current| ==> WellFormed(current[i])
    ensures forall j :: 0 <= j < |Remove(current, tag)| ==> WellFormed(Remove(current, tag)[j])
  {
    var next := Remove(current, tag);
    forall j | 0 <= j < |next|
      ensures WellFormed(next[j])
    {
      assert next[j] in current;
    }
  }

  lemma CleanTagsWellFormed(ts: seq<string>)
    requires forall i :: 0 <= i < |ts| ==> ',' !in ts[i]
    ensures forall j :: 0 <= j < |CleanTags(ts)| ==> WellFormed(CleanTags(ts)[j])
  {
    var next := CleanTags(ts);
    forall j | 0 <= j < |next|
      ensures WellFormed(next[j])
    {
      var k :| 0 <= k < |ts| && next[j] == Trim(ts[k]);
      TrimKeepsOut(ts[k], ',');
    }
  }

  /** Edits keep labels well formed when the request's labels carry no
      comma. */
  lemma NextWellFormed(current: seq<string>, b: TagBody)
    requires forall i :: 0 <= i < |current| ==> WellFormed(current[i])
    requires b.tag.Some? ==> ',' !in b.tag.value
    requires b.tags.Some? ==> forall i :: 0 <= i < |b.tags.value| ==> ',' !in b.tags.value[i]
    requires Validate(ParseTagRequest(b)).None?
    ensures Next(current, ParseTagRequest(b)).Ok? ==>
      forall j :: 0 <= j < |Next(current, ParseTagRequest(b)).value| ==> WellFormed(Next(current, ParseTagRequest(b)).value[j])
  {
    var req := ParseTagRequest(b);
    TrimKeepsOut(OrText(b.tag, ""), ',');
    if b.tags.Some? {
      CleanTagsWellFormed(b.tags.value);
    }
    NextWellFormedReq(current, req);
  }

  lemma NextWellFormedReq(current: seq<string>, req: TagRequest)
    requires forall i :: 0 <= i < |current| ==> WellFormed(current[i])
    requires req.action == "add" ==> req.tag != "" && IsTrimmed(req.tag) && ',' !in req.tag
    requires req.tagsIn.Some? ==> forall j :: 0 <= j < |req.tagsIn.value| ==> WellFormed(req.tagsIn.value[j])
    ensures Next(current, req).Ok? ==>
      forall j :: 0 <= j < |Next(current, req).value| ==> WellFormed(Next(current, req).value[j])
  {
    if req.action == "add" {
      AddWellFormed(current, req.tag);
    } else if req.action == "remove" {
      RemoveWellFormed(current, req.tag);
    }
  }

  /** Rejections: each validation failure is a 400 and an unknown order a
      404, and none of them writes anything. */
  lemma HandleRejects<V>(orders: seq<OrderRecord>, cache: Cache.Store<V>, b: TagBody)
    ensures var req := ParseTagRequest(b); var r := Handle(orders, cache, b);
      (req.shop == "" || req.orderId == "" ==> r == TagOutcome(Failed(400, "Missing shop or orderId"), orders, cache))
      && (req.shop != "" && req.orderId != "" && req.action != "set" && req.tag == "" ==>
            r == TagOutcome(Failed(400, "Missing tag"), orders, cache))
      && (Validate(req).None? && (forall i :: 0 <= i < |orders| ==> !Picked(orders[i], req.shop, req.orderId)) ==>
            r == TagOutcome(Failed(404, "Order not found"), orders, cache))
  {
    var d := Decide(orders, ParseTagRequest(b));
    if d.Reject? {
      HandleOfReject(orders, cache, b, d.status, d.error);
    }
  }

  lemma HandleOfReject<V>(orders: seq<OrderRecord>, cache: Cache.Store<V>, b: TagBody, status: int, msg: string)
    requires Decide(orders, ParseTagRequest(b)) == Reject(status, msg)
    ensures Handle(orders, cache, b) == TagOutcome(Failed(status, msg), orders, cache)
  {
  }
}
