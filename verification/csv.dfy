/** The CSV writer shared, character for character, by the shipday export in
    `api/router.js` (`csvEsc`/`toCSV`) and `api/shipday.js` (`esc`/`csv`):
    every cell is quoted, a quote inside a cell is doubled as in section 2
    of RFC 4180, the header line is the first row's keys, and lines are
    joined with "\n". A reader for that shape is the writer's partner. */
module Csv {
  import opened Wrappers
  import opened Seqs
  import opened JsText

  /** An object to export: its keys in insertion order, and its fields. */
  datatype Record = Record(keys: seq<string>, fields: map<string, string>)

  /** `r[h] ?? ""` */
  function Field(r: Record, h: string): string
  {
    if h in r.fields then r.fields[h] else ""
  }

  function QuoteCount(s: string): nat
  {
    if |s| == 0 then 0 else (if s[0] == '"' then 1 else 0) + QuoteCount(s[1..])
  }

  /** `csvEsc(s)`: every `"` doubled. */
  function Esc(s: string): (r: string)
    ensures |r| == |s| + QuoteCount(s)
  {
    if |s| == 0 then ""
    else (if s[0] == '"' then "\"\"" else [s[0]]) + Esc(s[1..])
  }

  /** A quoted cell. */
  function Quote(v: string): string
  {
    "\"" + Esc(v) + "\""
  }

  function QuoteAll(vs: seq<string>): (r: seq<string>)
    ensures |r| == |vs|
  {
    if |vs| == 0 then [] else [Quote(vs[0])] + QuoteAll(vs[1..])
  }

  /** The values of a record under the header keys. */
  function Values(headers: seq<string>, r: Record): (r': seq<string>)
    ensures |r'| == |headers|
  {
    if |headers| == 0 then [] else [Field(r, headers[0])] + Values(headers[1..], r)
  }

  /** One body line: `headers.map(h => '"' + esc(r[h] ?? '') + '"').join(',')`. */
  function Line(headers: seq<string>, r: Record): string
  {
    Join(QuoteAll(Values(headers, r)), ",")
  }

  function Lines(headers: seq<string>, rows: seq<Record>): (r: seq<string>)
    ensures |r| == |rows|
  {
    if |rows| == 0 then [] else [Line(headers, rows[0])] + Lines(headers, rows[1..])
  }

  function Headers(rows: seq<Record>): seq<string>
  {
    if |rows| == 0 then [] else rows[0].keys
  }

  predicate NonEmptyText(s: string) { s != "" }

  /** `toCSV(rows)`: header line and body, dropping whichever is empty. */
  function ToCsv(rows: seq<Record>): string
  {
    var headers := Headers(rows);
    var body := Join(Lines(headers, rows), "\n");
    Join(Filter([Join(headers, ","), body], NonEmptyText), "\n")
  }

  // ------------------------------------------------------------ reader

  /** Reads one quoted cell from just after its opening quote: the value,
      and the text after its closing quote. */
  function Cell(s: string): (r: Option<(string, string)>)
    ensures r.Some? ==> |r.value.1| < |s|
  {
    if |s| == 0 then None
    else if s[0] == '"' then
      if |s| >= 2 && s[1] == '"' then
        match Cell(s[2..])
        case None => None
        case Some(p) => Some(("\"" + p.0, p.1))
      else Some(("", s[1..]))
    else
      match Cell(s[1..])
      case None => None
      case Some(p) => Some(([s[0]] + p.0, p.1))
  }

  /** Reads the quoted cells of one line, up to the end of the line. */
  function Cells(s: string): (r: Option<(seq<string>, string)>)
    ensures r.Some? ==> |r.value.1| < |s|
    decreases |s|
  {
    if |s| == 0 || s[0] != '"' then None
    else match Cell(s[1..])
      case None => None
      case Some(p) =>
        if |p.1| > 0 && p.1[0] == ',' then
          match Cells(p.1[1..])
          case None => None
          case Some(q) => Some(([p.0] + q.0, q.1))
        else Some(([p.0], p.1))
  }

  /** Reads lines of quoted cells separated by "\n" up to the end. */
  function Records(s: string): Option<seq<seq<string>>>
    decreases |s|
  {
    match Cells(s)
    case None => None
    case Some(p) =>
      if |p.1| == 0 then Some([p.0])
      else if p.1[0] == '\n' then
        match Records(p.1[1..])
        case None => None
        case Some(rest) => Some([p.0] + rest)
      else None
  }

  function AllValues(headers: seq<string>, rows: seq<Record>): (r: seq<seq<string>>)
    ensures |r| == |rows|
    ensures forall i :: 0 <= i < |r| ==> |r[i]| == |headers|
  {
    if |rows| == 0 then [] else [Values(headers, rows[0])] + AllValues(headers, rows[1..])
  }

  // ------------------------------------------------------------ proofs

  /** Reading an escaped value back stops exactly at its closing quote. */
  lemma {:induction false} CellRoundTrip(v: string, rest: string)
    requires |rest| == 0 || rest[0] != '"'
    ensures Cell(Esc(v) + "\"" + rest) == Some((v, rest))
  {
    if |v| == 0 {
      assert Esc(v) + "\"" + rest == "\"" + rest;
      assert ("\"" + rest)[1..] == rest;
    } else {
      CellRoundTrip(v[1..], rest);
      CellStep(v, rest);
    }
  }

  /** One more character of the value: a doubled quote reads back as one
      quote, any other character as itself. */
  lemma CellStep(v: string, rest: string)
    requires |v| > 0 && Cell(Esc(v[1..]) + "\"" + rest) == Some((v[1..], rest))
    ensures Cell(Esc(v) + "\"" + rest) == Some((v, rest))
  {
    var s := Esc(v) + "\"" + rest;
    var t := Esc(v[1..]) + "\"" + rest;
    if v[0] == '"' {
      assert s == "\"\"" + t;
      CellQuote(t);
      assert "\"" + v[1..] == v;
    } else {
      assert s == [v[0]] + t;
      CellPlain(v[0], t);
      assert [v[0]] + v[1..] == v;
    }
  }

  lemma CellQuote(t: string)
    ensures Cell("\"\"" + t) == if Cell(t).None? then None else Some(("\"" + Cell(t).value.0, Cell(t).value.1))
  {
    assert ("\"\"" + t)[2..] == t;
  }

  lemma CellPlain(c: char, t: string)
    requires c != '"'
    ensures Cell([c] + t) == if Cell(t).None? then None else Some(([c] + Cell(t).value.0, Cell(t).value.1))
  {
    assert ([c] + t)[1..] == t;
  }

  /** A quoted cell opens with a quote followed by its escaped value and
      the closing quote. */
  lemma QuoteParts(v: string, rest: string)
    ensures |Quote(v) + rest| > 0 && (Quote(v) + rest)[0] == '"'
    ensures (Quote(v) + rest)[1..] == Esc(v) + "\"" + rest
  {
    var s := Quote(v) + rest;
    assert s == "\"" + (Esc(v) + "\"" + rest);
  }

  /** A quoted cell that ends the line. */
  lemma CellsLast(v: string, rest: string)
    requires |rest| == 0 || rest[0] == '\n'
    ensures Cells(Quote(v) + rest) == Some(([v], rest))
  {
    QuoteParts(v, rest);
    CellRoundTrip(v, rest);
  }

  /** A quoted cell followed by a comma and more cells. */
  lemma CellsMore(v: string, tail: string)
    requires Cells(tail).Some?
    ensures Cells(Quote(v) + ("," + tail)) == Some(([v] + Cells(tail).value.0, Cells(tail).value.1))
  {
    QuoteParts(v, "," + tail);
    CellRoundTrip(v, "," + tail);
    assert ("," + tail)[1..] == tail;
  }

  /** Reading a line of quoted cells gives the values back. */
  lemma {:induction false} CellsRoundTrip(vs: seq<string>, rest: string)
    requires |vs| >= 1
    requires |rest| == 0 || rest[0] == '\n'
    ensures Cells(Join(QuoteAll(vs), ",") + rest) == Some((vs, rest))
  {
    if |vs| == 1 {
      QuotedOne(vs);
      CellsLast(vs[0], rest);
      assert vs == [vs[0]];
    } else {
      var tail := Join(QuoteAll(vs[1..]), ",") + rest;
      QuotedCons(vs, rest);
      CellsRoundTrip(vs[1..], rest);
      CellsMore(vs[0], tail);
      assert [vs[0]] + vs[1..] == vs;
    }
  }

  lemma QuotedOne(vs: seq<string>)
    requires |vs| == 1
    ensures Join(QuoteAll(vs), ",") == Quote(vs[0])
  {
    assert QuoteAll(vs) == [Quote(vs[0])];
  }

  lemma QuotedCons(vs: seq<string>, rest: string)
    requires |vs| >= 2
    ensures Join(QuoteAll(vs), ",") + rest == Quote(vs[0]) + ("," + (Join(QuoteAll(vs[1..]), ",") + rest))
  {
    var a, j := Quote(vs[0]), Join(QuoteAll(vs[1..]), ",");
    JoinCons(a, QuoteAll(vs[1..]), ",");
    assert QuoteAll(vs) == [a] + QuoteAll(vs[1..]);
    Regroup(a, ",", j, rest);
  }

  lemma Regroup(a: string, b: string, c: string, d: string)
    ensures a + b + c + d == a + (b + (c + d))
  {
  }

  /** Reading a body gives every line's values back. */
  lemma {:induction false} RecordsRoundTrip(lines: seq<seq<string>>)
    requires |lines| >= 1
    requires forall i :: 0 <= i < |lines| ==> |lines[i]| >= 1
    ensures Records(Join(BodyLines(lines), "\n")) == Some(lines)
  {
    if |lines| == 1 {
      RecordsOne(lines[0]);
      assert BodyLines(lines) == [Join(QuoteAll(lines[0]), ",")];
      assert lines == [lines[0]];
    } else {
      BodyCons(lines);
      RecordsRoundTrip(lines[1..]);
      RecordsStep(lines[0], Join(BodyLines(lines[1..]), "\n"), lines[1..]);
      assert [lines[0]] + lines[1..] == lines;
    }
  }

  lemma RecordsOne(line: seq<string>)
    requires |line| >= 1
    ensures Records(Join(QuoteAll(line), ",")) == Some([line])
  {
    CellsRoundTrip(line, "");
    assert Join(QuoteAll(line), ",") + "" == Join(QuoteAll(line), ",");
  }

  lemma BodyCons(lines: seq<seq<string>>)
    requires |lines| >= 2
    ensures Join(BodyLines(lines), "\n") == Join(QuoteAll(lines[0]), ",") + ("\n" + Join(BodyLines(lines[1..]), "\n"))
  {
    assert BodyLines(lines) == [Join(QuoteAll(lines[0]), ",")] + BodyLines(lines[1..]);
    JoinCons(Join(QuoteAll(lines[0]), ","), BodyLines(lines[1..]), "\n");
  }

  /** One more line in front of a body that reads back. */
  lemma RecordsStep(line: seq<string>, tail: string, rest: seq<seq<string>>)
    requires |line| >= 1 && Records(tail) == Some(rest)
    ensures Records(Join(QuoteAll(line), ",") + ("\n" + tail)) == Some([line] + rest)
  {
    CellsRoundTrip(line, "\n" + tail);
    assert ("\n" + tail)[1..] == tail;
  }

  /** The body lines written for lists of values. */
  function BodyLines(lines: seq<seq<string>>): (r: seq<string>)
    ensures |r| == |lines|
  {
    if |lines| == 0 then [] else [Join(QuoteAll(lines[0]), ",")] + BodyLines(lines[1..])
  }

  lemma {:induction false} LinesAsBody(headers: seq<string>, rows: seq<Record>)
    ensures Lines(headers, rows) == BodyLines(AllValues(headers, rows))
  {
    if |rows| > 0 {
      LinesAsBody(headers, rows[1..]);
    }
  }

  /** The header line is followed by one line per row, separated by "\n". */
  lemma ToCsvShape(rows: seq<Record>)
    requires |rows| >= 1 && |rows[0].keys| >= 1 && rows[0].keys[0] != ""
    ensures ToCsv(rows) == Join(rows[0].keys, ",") + "\n" + Join(Lines(rows[0].keys, rows), "\n")
  {
    var headers := rows[0].keys;
    var head := Join(headers, ",");
    var body := Join(Lines(headers, rows), "\n");
    assert |head| > 0 by {
      if |headers| > 1 {
        JoinCons(headers[0], headers[1..], ",");
        assert headers == [headers[0]] + headers[1..];
      }
    }
    var lines := Lines(headers, rows);
    assert |body| > 0 by {
      if |lines| == 1 {
        assert body == lines[0];
        assert |lines[0]| > 0 by { NonEmptyLine(headers, rows[0]); }
      } else {
        JoinCons(lines[0], lines[1..], "\n");
        assert lines == [lines[0]] + lines[1..];
      }
    }
    assert Filter([head, body], NonEmptyText) == [head, body];
    JoinCons(head, [body], "\n");
  }

  lemma NonEmptyLine(headers: seq<string>, r: Record)
    requires |headers| >= 1
    ensures |Line(headers, r)| > 0
  {
    var q := QuoteAll(Values(headers, r));
    assert q[0] == Quote(Values(headers, r)[0]);
    if |q| > 1 {
      JoinCons(q[0], q[1..], ",");
      assert q == [q[0]] + q[1..];
    }
  }

  /** The CSV reads back: the header line splits into the keys of the first
      row, and the body into each row's values under those keys, in order. */
  lemma ToCsvRoundTrip(rows: seq<Record>)
    requires |rows| >= 1 && |rows[0].keys| >= 1 && rows[0].keys[0] != ""
    requires forall i :: 0 <= i < |rows[0].keys| ==> ',' !in rows[0].keys[i]
    ensures var headers := rows[0].keys;
      exists body ::
        && ToCsv(rows) == Join(headers, ",") + "\n" + body
        && Split(Join(headers, ","), ',') == headers
        && Records(body) == Some(AllValues(headers, rows))
  {
    var headers := rows[0].keys;
    ToCsvShape(rows);
    SplitJoin(headers, ',');
    LinesAsBody(headers, rows);
    RecordsRoundTrip(AllValues(headers, rows));
    var body := Join(Lines(headers, rows), "\n");
    assert ToCsv(rows) == Join(headers, ",") + "\n" + body;
  }

  /** No rows, no text. */
  lemma ToCsvEmpty()
    ensures ToCsv([]) == ""
  {
    assert Filter(["", ""], NonEmptyText) == [];
  }
  // ------------------------------------------------ records from columns

  /** The fields of an object literal with the given keys and values. */
  function FromPairs(keys: seq<string>, vals: seq<string>): map<string, string>
    requires |keys| == |vals|
  {
    if |keys| == 0 then map[] else FromPairs(keys[1..], vals[1..])[keys[0] := vals[0]]
  }

  lemma {:induction false} ValuesFrame(headers: seq<string>, r1: Record, r2: Record)
    requires forall i :: 0 <= i < |headers| ==> Field(r1, headers[i]) == Field(r2, headers[i])
    ensures Values(headers, r1) == Values(headers, r2)
  {
    if |headers| > 0 {
      ValuesFrame(headers[1..], r1, r2);
    }
  }

  /** An object literal's values read back under its own (distinct) keys. */
  lemma {:induction false} ValuesFromPairs(keys: seq<string>, vals: seq<string>)
    requires |keys| == |vals| && Distinct(keys)
    ensures Values(keys, Record(keys, FromPairs(keys, vals))) == vals
  {
    if |keys| > 0 {
      var tail := Record(keys[1..], FromPairs(keys[1..], vals[1..]));
      var whole := Record(keys, FromPairs(keys, vals));
      ValuesFromPairs(keys[1..], vals[1..]);
      forall i | 0 <= i < |keys[1..]|
        ensures Field(whole, keys[1..][i]) == Field(tail, keys[1..][i])
      {
        assert keys[1..][i] == keys[i + 1] != keys[0];
      }
      ValuesFrame(keys[1..], whole, tail);
      assert vals == [vals[0]] + vals[1..];
    }
  }
}
