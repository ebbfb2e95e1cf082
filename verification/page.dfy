/** Offset pagination of the order sheet (`api/orders/page.js`): the cursor
    is the offset's decimal text in base 64 (section 4 of RFC 4648), a page
    holds at most 100 rows, and `nextCursor` points past the page while rows
    remain. */
module Page {
  import opened Wrappers
  import opened Seqs
  import opened JsText
  import Decimal
  import Base64
  import Utf8
  import Sheets

  /** `enc(n)`: the base-64 text of the UTF-8 bytes of `String(n)`. */
  function Enc(n: int): (r: string)
    ensures |r| % 4 == 0 && |r| > 0
  {
    Base64.Encode(Utf8.Encode(Decimal.IntToString(n)))
  }

  /** `dec(c)`: `Number` of the UTF-8 text of the bytes the base-64 text
      spells, or 0 when that is `NaN` (`Number(...) || 0`). */
  function Dec(c: string): (r: int)
    ensures c == "" ==> r == 0
    ensures Decimal.ToNumber(Utf8.Decode(Base64.Decode(c))).None? ==> r == 0
  {
    match Decimal.ToNumber(Utf8.Decode(Base64.Decode(c)))
    case None => 0
    case Some(n) => n
  }

  /** A cursor that carries the text `t` reads as `Number(t) || 0`. */
  lemma DecText(t: string)
    ensures Dec(Base64.Encode(Utf8.Encode(t))) == match Decimal.ToNumber(t) case None => 0 case Some(n) => n
  {
    Base64.DecodeEncode(Utf8.Encode(t));
    Utf8.DecodeEncode(t);
  }

  /** Every cursor the handler issues reads back as its offset. */
  lemma DecEnc(n: int)
    ensures Dec(Enc(n)) == n
  {
    DecText(Decimal.IntToString(n));
    Decimal.ToNumberOfIntToString(n);
  }

  /** White space before the digits, such as a no-break space or a byte
      order mark, is skipped as `Number` skips it. */
  lemma DecLeadingSpace(c: char, n: int)
    requires IsSpace(c)
    ensures Dec(Base64.Encode(Utf8.Encode([c] + Decimal.IntToString(n)))) == n
  {
    var t := Decimal.IntToString(n);
    DecText([c] + t);
    TrimLeadingSpace(c, t);
    Decimal.ToNumberTrim([c] + t, t);
    Decimal.ToNumberOfIntToString(n);
  }

  /** The cursor "wqA1" is the bytes C2 A0 35, a no-break space and "5": it
      reads as offset 5. */
  lemma DecNoBreakSpace()
    ensures Dec("wqA1") == 5
  {
    assert Base64.Decode("wqA1") == [0xC2, 0xA0, 0x35];
    Utf8.DecodeAppend('\U{00A0}', [0x35]);
    assert Utf8.Decode([0x35]) == "5";
    assert Utf8.Decode(Base64.Decode("wqA1")) == ['\U{00A0}'] + "5";
    TrimLeadingSpace('\U{00A0}', "5");
    assert Decimal.IntToString(5) == "5";
    Decimal.ToNumberTrim(['\U{00A0}'] + "5", Decimal.IntToString(5));
    Decimal.ToNumberOfIntToString(5);
  }

  /** `Math.min(Number(limitQuery || 25), 100)`; `None` is `NaN`. */
  function Limit(limitQuery: string): (r: Option<int>)
    ensures limitQuery == "" ==> r == Some(25)
    ensures r.Some? ==> r.value <= 100
    ensures limitQuery != "" ==> match Decimal.ToNumber(limitQuery)
      case None => r.None?
      case Some(v) => r == Some(if v < 100 then v else 100)
  {
    var n := if limitQuery == "" then Some(25) else Decimal.ToNumber(limitQuery);
    match n
    case None => None
    case Some(v) => Some(if v < 100 then v else 100)
  }

  /** The answer of the handler; `next` is the offset the answer's
      `nextCursor` encodes (see `NextCursor`). */
  datatype Answer<T> = Answer(items: seq<T>, next: Option<int>, total: nat)

  /** The rows of the shop (every row when no shop is asked for). */
  function ShopRows(rows: seq<Sheets.Obj>, shopQuery: string): (r: seq<Sheets.Obj>)
    ensures forall o :: o in r <==> o in rows && (Lower(shopQuery) == "" || Lower(Sheets.Get(o, "SHOP_DOMAIN")) == Lower(shopQuery))
  {
    var shop := Lower(shopQuery);
    if shop == "" then rows else Filter(rows, (o: Sheets.Obj) => Lower(Sheets.Get(o, "SHOP_DOMAIN")) == shop)
  }

  /** The `nextCursor` text of an answer: its next offset, encoded. It
      reads back as that offset, so a client that echoes it resumes where
      the page ended. */
  function NextCursor<T>(a: Answer<T>): (r: Option<string>)
    ensures r.Some? <==> a.next.Some?
    ensures r.Some? ==> Dec(r.value) == a.next.value
  {
    match a.next
    case None => None
    case Some(n) => DecEnc(n); Some(Enc(n))
  }

  /** `view.slice(offset, offset + l)` for a non-negative offset and limit. */
  function Window<T>(view: seq<T>, offset: int, l: int): (r: seq<T>)
    ensures 0 <= offset && 0 <= l ==>
      r == view[if offset <= |view| then offset else |view|..if offset + l <= |view| then offset + l else |view|]
  {
    if 0 <= offset && 0 <= l then JsSliceClamped(view, offset, offset + l); JsSlice(view, offset, offset + l)
    else JsSlice(view, offset, offset + l)
  }

  /** One page of `view` from `offset`; a `NaN` limit makes the end `NaN`,
      which `slice` reads as 0 and the `<` test as false. */
  function PageAt<T>(view: seq<T>, offset: int, limit: Option<int>): (r: Answer<T>)
    ensures r.total == |view|
    ensures limit.None? ==> r.next.None?
    ensures limit.Some? ==> (r.next.Some? <==> offset + limit.value < |view|)
    ensures limit.Some? && r.next.Some? ==> r.next.value == offset + limit.value
    ensures limit.Some? && 0 <= offset && 0 <= limit.value ==>
      r.items == view[if offset <= |view| then offset else |view|..if offset + limit.value <= |view| then offset + limit.value else |view|]
  {
    match limit
    case None => Answer(JsSlice(view, offset, 0), None, |view|)
    case Some(l) => Answer(Window(view, offset, l), if offset + l < |view| then Some(offset + l) else None, |view|)
  }

  /** `view` is `rows` sorted newest first, as `rows.sort` with the
      comparator on `CREATED_AT` leaves them: a permutation of the rows in
      which no row's `CREATED_AT` is below a later row's. */
  predicate NewestFirst(view: seq<Sheets.Obj>, rows: seq<Sheets.Obj>)
  {
    && multiset(view) == multiset(rows)
    && forall i, j :: 0 <= i < j < |view| ==> LexLe(Sheets.Get(view[j], "CREATED_AT"), Sheets.Get(view[i], "CREATED_AT"))
  }

  /** The handler: `order` is the sort by `CREATED_AT` the rows go through
      after the shop filter. */
  function Handle(rows: seq<Sheets.Obj>, order: seq<Sheets.Obj> -> seq<Sheets.Obj>, shopQuery: string, limitQuery: string, cursorQuery: string): (r: Answer<Sheets.Obj>)
    requires NewestFirst(order(ShopRows(rows, shopQuery)), ShopRows(rows, shopQuery))
    ensures r.total == |ShopRows(rows, shopQuery)|
    ensures cursorQuery == "" && limitQuery == "" ==>
      var view := order(ShopRows(rows, shopQuery));
      r.items == view[..if |view| < 25 then |view| else 25]
  {
    var view := order(ShopRows(rows, shopQuery));
    assert |multiset(view)| == |view| && |multiset(ShopRows(rows, shopQuery))| == |ShopRows(rows, shopQuery)|;
    PageAt(view, Dec(cursorQuery), Limit(limitQuery))
  }

  /** Echoing an answer's `nextCursor` asks for the page at its next
      offset. */
  lemma FollowCursor(rows: seq<Sheets.Obj>, order: seq<Sheets.Obj> -> seq<Sheets.Obj>, shopQuery: string, limitQuery: string, n: int)
    requires NewestFirst(order(ShopRows(rows, shopQuery)), ShopRows(rows, shopQuery))
    ensures Handle(rows, order, shopQuery, limitQuery, Enc(n))
      == PageAt(order(ShopRows(rows, shopQuery)), n, Limit(limitQuery))
  {
    DecEnc(n);
  }

  /** The rows a client collects by following the cursors from `offset`:
      each echoed cursor resumes at the answer's next offset
      (`FollowCursor`). */
  function Walk<T>(view: seq<T>, limit: int, offset: nat): seq<T>
    requires 0 < limit
    decreases |view| - offset
  {
    var a := PageAt(view, offset, Some(limit));
    match a.next
    case None => a.items
    case Some(n) => a.items + Walk(view, limit, n)
  }

  lemma WalkStep<T>(view: seq<T>, limit: int, offset: nat)
    requires 0 < limit && offset + limit < |view|
    requires Walk(view, limit, offset + limit) == view[offset + limit..]
    ensures Walk(view, limit, offset) == view[offset..]
  {
    var a := PageAt(view, offset, Some(limit));
    assert a.items == view[offset..offset + limit];
    assert view[offset..] == view[offset..offset + limit] + view[offset + limit..];
  }

  /** From any offset inside the view the walk visits the rest of the view,
      each row once and in order. */
  lemma {:induction false} WalkRest<T>(view: seq<T>, limit: int, offset: nat)
    requires 0 < limit && offset <= |view|
    ensures Walk(view, limit, offset) == view[offset..]
    decreases |view| - offset
  {
    if offset + limit < |view| {
      WalkRest(view, limit, offset + limit);
      WalkStep(view, limit, offset);
    }
  }

  /** From the first page on, the walk reads the whole view. */
  lemma WalkFromStart<T>(view: seq<T>, l: int)
    requires 0 < l
    ensures Walk(view, l, 0) == view
    ensures PageAt(view, 0, Some(l)).items + Walk(view, l, l) == view
  {
    WalkRest(view, l, 0);
    assert view[0..] == view;
    if l < |view| {
      WalkRest(view, l, l);
      assert view == view[0..l] + view[l..];
    } else {
      assert Walk(view, l, l) == [];
    }
  }

  /** A client that starts without a cursor and follows `nextCursor` with a
      positive limit reads every row of the shop exactly once, newest
      first. */
  lemma WalkAll(rows: seq<Sheets.Obj>, order: seq<Sheets.Obj> -> seq<Sheets.Obj>, shopQuery: string, limitQuery: string)
    requires NewestFirst(order(ShopRows(rows, shopQuery)), ShopRows(rows, shopQuery))
    requires Limit(limitQuery).Some? && Limit(limitQuery).value > 0
    ensures var view := order(ShopRows(rows, shopQuery));
      multiset(Walk(view, Limit(limitQuery).value, 0)) == multiset(ShopRows(rows, shopQuery))
      && Walk(view, Limit(limitQuery).value, 0) == view
      && Handle(rows, order, shopQuery, limitQuery, "").items + Walk(view, Limit(limitQuery).value, Limit(limitQuery).value) == view
  {
    var view := order(ShopRows(rows, shopQuery));
    WalkFromStart(view, Limit(limitQuery).value);
  }
}
