/** The Google-Sheets storage layer (`api/lib/sheets.js` and its older copy
    `lib/sheets.js`) with the Sheets API replaced by an in-memory table: a
    header row and data rows of text cells. Rows are read as objects keyed by
    header, written back through the header order, and the order upserts,
    single-field update, work-entry completion and line-item batches are
    table transformers. Each call is one atomic step. */
module Sheets {
  import opened Wrappers
  import opened Seqs
  import opened JsText
  import opened Rows

  /** A row read as an object: header name to cell text. */
  type Obj = map<string, string>

  /** A tab: its header row and its data rows (sheet rows 2, 3, ...). */
  datatype Table = Table(headers: seq<string>, rows: seq<seq<string>>)

  /** `row[i] ?? ""`: a short row reads as "" past its end. */
  function CellAt(row: seq<string>, i: nat): string
  {
    if i < |row| then row[i] else ""
  }

  /** `obj[k] ?? ""` */
  function Get(o: Obj, k: string): string
  {
    if k in o then o[k] else ""
  }

  /** `String(obj[k])`: a missing field prints as "undefined". */
  function Str(o: Obj, k: string): string
  {
    if k in o then o[k] else "undefined"
  }

  /** `rowToObj(headers, row)`: each header takes the cell below it; of two
      equal headers the later one wins, as `forEach` assigns in order. */
  function RowToObj(headers: seq<string>, row: seq<string>): (o: Obj)
    ensures forall k :: k in o <==> k in headers
    decreases |headers|
  {
    if |headers| == 0 then map[]
    else
      var n := |headers| - 1;
      var o0 := RowToObj(headers[..n], row);
      assert forall k :: k in headers <==> k in headers[..n] || k == headers[n];
      o0[headers[n] := CellAt(row, n)]
  }

  /** A header not repeated later reads the cell in its own column. */
  lemma {:induction false} RowToObjAt(headers: seq<string>, row: seq<string>, i: nat)
    requires i < |headers|
    requires forall j :: i < j < |headers| ==> headers[j] != headers[i]
    ensures RowToObj(headers, row)[headers[i]] == CellAt(row, i)
    decreases |headers|
  {
    var n := |headers| - 1;
    if i < n {
      RowToObjAt(headers[..n], row, i);
    }
  }

  /** Of repeated headers the last column wins. */
  lemma RowToObjLastWins(headers: seq<string>, row: seq<string>, i: nat, j: nat)
    requires i < j < |headers| && headers[i] == headers[j]
    requires forall m :: j < m < |headers| ==> headers[m] != headers[j]
    ensures RowToObj(headers, row)[headers[i]] == CellAt(row, j)
  {
    RowToObjAt(headers, row, j);
  }

  /** `objToRow(headers, obj)`: the object's field under each header, ""
      where it has none. */
  function ObjToRow(headers: seq<string>, o: Obj): (r: seq<string>)
    ensures |r| == |headers|
    ensures forall i :: 0 <= i < |headers| ==> r[i] == Get(o, headers[i])
  {
    seq(|headers|, i requires 0 <= i < |headers| => Get(o, headers[i]))
  }

  /** A row cut or padded with "" to `n` cells. */
  function Fit(row: seq<string>, n: nat): (r: seq<string>)
    ensures |r| == n
    ensures forall i :: 0 <= i < n ==> r[i] == CellAt(row, i)
  {
    seq(n, i requires 0 <= i < n => CellAt(row, i))
  }

  /** Reading a row and writing it back under the same distinct headers
      gives the row cut or padded to the header width. */
  lemma ObjToRowOfRowToObj(headers: seq<string>, row: seq<string>)
    requires Distinct(headers)
    ensures ObjToRow(headers, RowToObj(headers, row)) == Fit(row, |headers|)
  {
    forall i | 0 <= i < |headers|
      ensures ObjToRow(headers, RowToObj(headers, row))[i] == CellAt(row, i)
    {
      RowToObjAt(headers, row, i);
    }
  }

  /** The last position of a header. */
  lemma LastPosition(headers: seq<string>, k: string) returns (i: nat)
    requires k in headers
    ensures i < |headers| && headers[i] == k
    ensures forall j :: i < j < |headers| ==> headers[j] != k
    decreases |headers|
  {
    var n := |headers| - 1;
    if headers[n] == k {
      i := n;
    } else {
      assert k in headers[..n];
      i := LastPosition(headers[..n], k);
    }
  }

  /** Writing an object and reading it back keeps exactly its fields under
      the headers, with "" for those it lacks; this needs no distinctness. */
  lemma RowToObjOfObjToRow(headers: seq<string>, o: Obj)
    ensures RowToObj(headers, ObjToRow(headers, o)) == map k | k in headers :: Get(o, k)
  {
    var r := RowToObj(headers, ObjToRow(headers, o));
    forall k | k in headers
      ensures r[k] == Get(o, k)
    {
      var i := LastPosition(headers, k);
      RowToObjAt(headers, ObjToRow(headers, o), i);
    }
  }

  /** `getAll(tab)`: every data row as an object. */
  function GetAll(t: Table): (r: seq<Obj>)
    ensures |r| == |t.rows|
    ensures forall i :: 0 <= i < |r| ==> r[i] == RowToObj(t.headers, t.rows[i])
  {
    Map(t.rows, (row: seq<string>) => RowToObj(t.headers, row))
  }

  /** `appendObjects(tab, objs)`: the objects written as new rows at the
      end; nothing for an empty list. */
  function AppendObjects(t: Table, objs: seq<Obj>): (r: Table)
    ensures r.headers == t.headers
    ensures r.rows == t.rows + Map(objs, (o: Obj) => ObjToRow(t.headers, o))
  {
    if |objs| == 0 then t else Table(t.headers, t.rows + Map(objs, (o: Obj) => ObjToRow(t.headers, o)))
  }
  // ------------------------------------------------------------ upserts

  datatype Upsert = SkippedOlderOrEqual | Updated | Inserted

  datatype UpsertResult = UpsertResult(action: Upsert, table: Table)

  /** `new Date(x || 0).getTime() || 0`, with the date parser a parameter
      (`None` is an invalid date). */
  function TimeOr0(parse: string -> Option<int>, s: string): int
  {
    if s == "" then 0 else parse(s).GetOr(0)
  }

  /** The row lookup of `api/lib/sheets.js`: shop compared case-blind,
      order id exactly, both through `String(...)`. */
  predicate SameOrder(r: Obj, o: Obj)
  {
    Lower(Str(r, "SHOP_DOMAIN")) == Lower(Str(o, "SHOP_DOMAIN")) && Str(r, "ORDER_ID") == Str(o, "ORDER_ID")
  }

  /** Whether `upsertOrder` leaves an existing row alone: the incoming
      update is not newer, and neither tags nor deliver-by date change. */
  predicate Unchanged(parse: string -> Option<int>, cur: Obj, o: Obj)
  {
    && TimeOr0(parse, Get(o, "UPDATED_AT")) <= TimeOr0(parse, Get(cur, "UPDATED_AT"))
    && Get(cur, "TAGS") == Get(o, "TAGS")
    && Get(cur, "DELIVER_BY") == Get(o, "DELIVER_BY")
  }

  /** The row predicate of the lookup. */
  function Matches(o: Obj): Obj -> bool
  {
    (r: Obj) => SameOrder(r, o)
  }

  /** `upsertOrder(orderObj)` of `api/lib/sheets.js`. */
  function UpsertOrder(t: Table, o: Obj, parse: string -> Option<int>): (r: UpsertResult)
    ensures r.table.headers == t.headers
    ensures r.action == Inserted <==> forall i :: 0 <= i < |t.rows| ==> !SameOrder(GetAll(t)[i], o)
    ensures r.action == Inserted ==> r.table.rows == t.rows + [ObjToRow(t.headers, o)]
    ensures r.action == SkippedOlderOrEqual ==> r.table == t
    ensures r.action != Inserted ==> |r.table.rows| == |t.rows|
  {
    var all := GetAll(t);
    match FindFirst(all, Matches(o))
    case None => UpsertResult(Inserted, AppendObjects(t, [o]))
    case Some(i) =>
      if Unchanged(parse, all[i], o) then UpsertResult(SkippedOlderOrEqual, t)
      else UpsertResult(Updated, Table(t.headers, t.rows[i := ObjToRow(t.headers, all[i] + o)]))
  }

  /** An existing row: it is skipped exactly when the update is not newer
      and changes neither tags nor date; otherwise it alone is rewritten
      from the stored fields with the incoming ones over them. */
  lemma UpsertExisting(t: Table, o: Obj, parse: string -> Option<int>, i: nat)
    requires i < |t.rows| && SameOrder(GetAll(t)[i], o)
    requires forall j :: 0 <= j < i ==> !SameOrder(GetAll(t)[j], o)
    ensures var r := UpsertOrder(t, o, parse);
      && (r.action == SkippedOlderOrEqual <==> Unchanged(parse, GetAll(t)[i], o))
      && (r.action == Updated ==> r.table.rows == t.rows[i := ObjToRow(t.headers, GetAll(t)[i] + o)])
  {
    FindFirstAt(GetAll(t), Matches(o), i);
  }

  /** The merged row: the incoming field where there is one, else the
      stored one. */
  lemma MergedRow(headers: seq<string>, cur: Obj, o: Obj)
    ensures forall c :: 0 <= c < |headers| ==>
      ObjToRow(headers, cur + o)[c] == if headers[c] in o then o[headers[c]] else Get(cur, headers[c])
  {
  }

  /** The keys `upsertOrder` compares. */
  const UpsertKeys: set<string> := {"SHOP_DOMAIN", "ORDER_ID", "UPDATED_AT", "TAGS", "DELIVER_BY"}

  lemma ReadBackKeys(headers: seq<string>, written: Obj, o: Obj)
    requires forall k :: k in UpsertKeys ==> k in headers && k in o && k in written && written[k] == o[k]
    ensures forall k :: k in UpsertKeys ==> Get(RowToObj(headers, ObjToRow(headers, written)), k) == o[k]
  {
    RowToObjOfObjToRow(headers, written);
  }

  /** The row an upsert writes reads back as a match of the same order
      that the same order leaves unchanged. */
  lemma WrittenRowMatches(headers: seq<string>, written: Obj, o: Obj, parse: string -> Option<int>)
    requires forall k :: k in UpsertKeys ==> k in headers && k in o && k in written && written[k] == o[k]
    ensures SameOrder(RowToObj(headers, ObjToRow(headers, written)), o)
    ensures Unchanged(parse, RowToObj(headers, ObjToRow(headers, written)), o)
  {
    ReadBackKeys(headers, written, o);
    var back := RowToObj(headers, ObjToRow(headers, written));
    assert Get(back, "SHOP_DOMAIN") == o["SHOP_DOMAIN"];
    assert Get(back, "ORDER_ID") == o["ORDER_ID"];
    assert Get(back, "UPDATED_AT") == o["UPDATED_AT"];
    assert Get(back, "TAGS") == o["TAGS"];
    assert Get(back, "DELIVER_BY") == o["DELIVER_BY"];
  }

  /** Upserting the same order twice: the second call finds the row the
      first wrote and skips it, provided the tab has the compared columns
      and the order object carries them. */
  lemma UpsertTwice(t: Table, o: Obj, parse: string -> Option<int>)
    requires forall k :: k in UpsertKeys ==> k in t.headers && k in o
    ensures var r := UpsertOrder(t, o, parse);
      UpsertOrder(r.table, o, parse) == UpsertResult(SkippedOlderOrEqual, r.table)
  {
    var r := UpsertOrder(t, o, parse);
    var all := GetAll(t);
    var f := FindFirst(all, Matches(o));
    if r.action == SkippedOlderOrEqual {
      UpsertExisting(t, o, parse, f.value);
    } else {
      var i: nat := if f.None? then |t.rows| else f.value;
      var written := if f.None? then o else all[i] + o;
      assert r.table.rows[i] == ObjToRow(t.headers, written);
      WrittenRowMatches(t.headers, written, o, parse);
      var all2 := GetAll(r.table);
      forall j | 0 <= j < i
        ensures !SameOrder(all2[j], o)
      {
        assert r.table.rows[j] == t.rows[j];
      }
      UpsertExisting(r.table, o, parse, i);
    }
  }

  /** `upsertOrder(orderObj)` of `lib/sheets.js`: exact shop and order id,
      and a skip rule on the update time alone, where an invalid time (NaN)
      never compares as older. */
  predicate SameOrderExact(r: Obj, o: Obj)
  {
    && ("SHOP_DOMAIN" in r <==> "SHOP_DOMAIN" in o)
    && ("SHOP_DOMAIN" in r ==> r["SHOP_DOMAIN"] == o["SHOP_DOMAIN"])
    && "ORDER_ID" in r && r["ORDER_ID"] == Str(o, "ORDER_ID")
  }

  function MatchesExact(o: Obj): Obj -> bool
  {
    (r: Obj) => SameOrderExact(r, o)
  }

  /** `new Date(x || 0).getTime()`, `None` being NaN. */
  function TimeOf(parse: string -> Option<int>, s: string): Option<int>
  {
    if s == "" then Some(0) else parse(s)
  }

  predicate NotNewer(parse: string -> Option<int>, cur: Obj, o: Obj)
  {
    var incoming := TimeOf(parse, Get(o, "UPDATED_AT"));
    var existing := TimeOf(parse, Get(cur, "UPDATED_AT"));
    incoming.Some? && existing.Some? && incoming.value <= existing.value
  }

  function UpsertOrderByTime(t: Table, o: Obj, parse: string -> Option<int>): (r: UpsertResult)
    ensures r.table.headers == t.headers
    ensures r.action == Inserted <==> forall i :: 0 <= i < |t.rows| ==> !SameOrderExact(GetAll(t)[i], o)
    ensures r.action == Inserted ==> r.table.rows == t.rows + [ObjToRow(t.headers, o)]
    ensures r.action == SkippedOlderOrEqual ==> r.table == t
  {
    var all := GetAll(t);
    match FindFirst(all, MatchesExact(o))
    case None => UpsertResult(Inserted, AppendObjects(t, [o]))
    case Some(i) =>
      if NotNewer(parse, all[i], o) then UpsertResult(SkippedOlderOrEqual, t)
      else UpsertResult(Updated, Table(t.headers, t.rows[i := ObjToRow(t.headers, all[i] + o)]))
  }

  /** For a matched row the older rule looks at the time only: a tag
      change with an older or equal time is skipped, while a NaN time on
      either side always rewrites the row. */
  lemma UpsertByTimeRule(t: Table, o: Obj, parse: string -> Option<int>, i: nat)
    requires i < |t.rows| && SameOrderExact(GetAll(t)[i], o)
    requires forall j :: 0 <= j < i ==> !SameOrderExact(GetAll(t)[j], o)
    ensures var r := UpsertOrderByTime(t, o, parse);
      && (r.action == SkippedOlderOrEqual <==> NotNewer(parse, GetAll(t)[i], o))
      && (r.action == Updated ==> r.table.rows == t.rows[i := ObjToRow(t.headers, GetAll(t)[i] + o)])
      && (TimeOf(parse, Get(o, "UPDATED_AT")).None? ==> r.action == Updated)
  {
    FindFirstAt(GetAll(t), MatchesExact(o), i);
  }

  // ------------------------------------------------- single-row updates

  /** The row `upsertOrderField` looks for. */
  function FieldTarget(shopDomain: string, orderId: string): Obj -> bool
  {
    (r: Obj) => Lower(Str(r, "SHOP_DOMAIN")) == Lower(shopDomain) && Str(r, "ORDER_ID") == orderId
  }

  /** `upsertOrderField({shopDomain, orderId, field, value})`: the found
      row with one field replaced (`value ?? ""`). */
  function UpsertOrderField(t: Table, shopDomain: string, orderId: string, field: string, value: Option<string>): (r: Result<Table>)
    ensures r.Err? <==> forall i :: 0 <= i < |t.rows| ==> !FieldTarget(shopDomain, orderId)(GetAll(t)[i])
    ensures r.Err? ==> r.error == "Order not found"
    ensures r.Ok? ==> r.value.headers == t.headers && |r.value.rows| == |t.rows|
  {
    var all := GetAll(t);
    match FindFirst(all, FieldTarget(shopDomain, orderId))
    case None => Err("Order not found")
    case Some(i) => Ok(Table(t.headers, t.rows[i := ObjToRow(t.headers, all[i][field := value.GetOr("")])]))
  }

  /** The cells of a row rewritten with one field changed: under distinct
      headers every other cell keeps its value (short rows read as ""). */
  lemma RewriteOneField(headers: seq<string>, row: seq<string>, field: string, v: string)
    requires Distinct(headers)
    ensures forall c :: 0 <= c < |headers| ==>
      ObjToRow(headers, RowToObj(headers, row)[field := v])[c] == if headers[c] == field then v else CellAt(row, c)
  {
    forall c | 0 <= c < |headers| && headers[c] != field
      ensures RowToObj(headers, row)[headers[c]] == CellAt(row, c)
    {
      RowToObjAt(headers, row, c);
    }
  }

  /** `upsertOrderField` changes only the named field of the first
      matching row and no other row. */
  lemma UpsertOrderFieldOnlyField(t: Table, shopDomain: string, orderId: string, field: string, value: Option<string>, i: nat)
    requires Distinct(t.headers)
    requires i < |t.rows| && FieldTarget(shopDomain, orderId)(GetAll(t)[i])
    requires forall j :: 0 <= j < i ==> !FieldTarget(shopDomain, orderId)(GetAll(t)[j])
    ensures var r := UpsertOrderField(t, shopDomain, orderId, field, value);
      && r.Ok?
      && (forall j :: 0 <= j < |t.rows| && j != i ==> r.value.rows[j] == t.rows[j])
      && |r.value.rows[i]| == |t.headers|
      && (forall c :: 0 <= c < |t.headers| ==>
            r.value.rows[i][c] == if t.headers[c] == field then value.GetOr("") else CellAt(t.rows[i], c))
  {
    FindFirstAt(GetAll(t), FieldTarget(shopDomain, orderId), i);
    RewriteOneField(t.headers, t.rows[i], field, value.GetOr(""));
  }

  function WorkTarget(workId: string): Obj -> bool
  {
    (r: Obj) => Get(r, "WORK_ID") == workId
  }

  /** `markWorkDone(workId)` at time `nowIso`: the first entry with that
      id gets STATUS "done" and END_TS `nowIso`. */
  function MarkWorkDone(t: Table, workId: string, nowIso: string): (r: Result<Table>)
    ensures r.Err? <==> forall i :: 0 <= i < |t.rows| ==> Get(GetAll(t)[i], "WORK_ID") != workId
    ensures r.Err? ==> r.error == "WORK_ID not found"
    ensures r.Ok? ==> r.value.headers == t.headers && |r.value.rows| == |t.rows|
  {
    var all := GetAll(t);
    match FindFirst(all, WorkTarget(workId))
    case None => Err("WORK_ID not found")
    case Some(i) => Ok(Table(t.headers, t.rows[i := ObjToRow(t.headers, all[i]["END_TS" := nowIso]["STATUS" := "done"])]))
  }

  lemma RewriteTwoFields(headers: seq<string>, row: seq<string>, f1: string, v1: string, f2: string, v2: string)
    requires Distinct(headers)
    ensures forall c :: 0 <= c < |headers| ==>
      ObjToRow(headers, RowToObj(headers, row)[f1 := v1][f2 := v2])[c]
        == if headers[c] == f2 then v2 else if headers[c] == f1 then v1 else CellAt(row, c)
  {
    forall c | 0 <= c < |headers| && headers[c] != f1 && headers[c] != f2
      ensures RowToObj(headers, row)[headers[c]] == CellAt(row, c)
    {
      RowToObjAt(headers, row, c);
    }
  }

  /** Completing a work entry sets its status and end time and leaves its
      other cells and every other row as they were. */
  lemma MarkWorkDoneOnlyStatus(t: Table, workId: string, nowIso: string, i: nat)
    requires Distinct(t.headers)
    requires i < |t.rows| && Get(GetAll(t)[i], "WORK_ID") == workId
    requires forall j :: 0 <= j < i ==> Get(GetAll(t)[j], "WORK_ID") != workId
    ensures var r := MarkWorkDone(t, workId, nowIso);
      && r.Ok?
      && (forall j :: 0 <= j < |t.rows| && j != i ==> r.value.rows[j] == t.rows[j])
      && |r.value.rows[i]| == |t.headers|
      && (forall c :: 0 <= c < |t.headers| ==>
            r.value.rows[i][c] == if t.headers[c] == "STATUS" then "done"
                                  else if t.headers[c] == "END_TS" then nowIso
                                  else CellAt(t.rows[i], c))
  {
    FindFirstAt(GetAll(t), WorkTarget(workId), i);
    RewriteTwoFields(t.headers, t.rows[i], "END_TS", nowIso, "STATUS", "done");
  }

  // ---------------------------------------------------------- line items

  /** `writeLineItems(items, batchTs)`: every item appended with the same
      BATCH_TS; nothing for no items. */
  function WriteLineItems(t: Table, items: seq<Obj>, batchTs: string): (r: Table)
    ensures |items| == 0 ==> r == t
    ensures r.headers == t.headers && |r.rows| == |t.rows| + |items|
    ensures r.rows[..|t.rows|] == t.rows
  {
    if |items| == 0 then t else AppendObjects(t, Map(items, (x: Obj) => x["BATCH_TS" := batchTs]))
  }

  /** Each appended row carries the batch stamp in the BATCH_TS column and
      the item's own field (or "") in every other column. */
  lemma WriteLineItemsStamp(t: Table, items: seq<Obj>, batchTs: string, n: nat, c: nat)
    requires n < |items| && c < |t.headers|
    ensures WriteLineItems(t, items, batchTs).rows[|t.rows| + n][c]
      == if t.headers[c] == "BATCH_TS" then batchTs else Get(items[n], t.headers[c])
  {
  }

  /** The largest batch stamp of some rows. */
  function MaxBatch(rows: seq<Item>): (m: int)
    requires |rows| > 0
    ensures forall i :: 0 <= i < |rows| ==> rows[i].batchTs <= m
    ensures exists i :: 0 <= i < |rows| && rows[i].batchTs == m
  {
    if |rows| == 1 then rows[0].batchTs
    else
      var m := MaxBatch(rows[1..]);
      assert forall i :: 1 <= i < |rows| ==> rows[i] == rows[1..][i - 1];
      if rows[0].batchTs >= m then rows[0].batchTs else m
  }

  /** `getLatestItems(shopDomain, orderId)`: the order's item rows (shop
      compared exactly) from its latest batch. */
  function GetLatestItems(items: seq<Item>, shopDomain: string, orderId: string): (r: seq<Item>)
    ensures forall it :: it in r <==>
      (it in items && it.shopDomain == shopDomain && it.orderId == orderId
       && forall j :: 0 <= j < |items| && items[j].shopDomain == shopDomain && items[j].orderId == orderId
            ==> items[j].batchTs <= it.batchTs)
    ensures |r| <= |items|
  {
    var rows := Filter(items, (it: Item) => it.shopDomain == shopDomain && it.orderId == orderId);
    if |rows| == 0 then []
    else
      var m := MaxBatch(rows);
      assert forall j :: 0 <= j < |items| && items[j].shopDomain == shopDomain && items[j].orderId == orderId ==>
        items[j] in rows;
      Filter(rows, (it: Item) => it.batchTs == m)
  }

  /** All rows `getLatestItems` returns share one batch stamp. */
  lemma LatestOneBatch(items: seq<Item>, shopDomain: string, orderId: string)
    ensures var r := GetLatestItems(items, shopDomain, orderId);
      forall i, j :: 0 <= i < |r| && 0 <= j < |r| ==> r[i].batchTs == r[j].batchTs
  {
    var r := GetLatestItems(items, shopDomain, orderId);
    forall i, j | 0 <= i < |r| && 0 <= j < |r|
      ensures r[i].batchTs == r[j].batchTs
    {
      assert r[i] in r && r[j] in r;
      var a := r[i];
      var b := r[j];
      var ia :| 0 <= ia < |items| && items[ia] == a;
      var ib :| 0 <= ib < |items| && items[ib] == b;
    }
  }
}
