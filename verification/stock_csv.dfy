/** The stock sheet reader (`server/lib/stockCsv.js`): a wide CSV whose
    records hold up to seven side-by-side blocks of
    `[category, title, color, size, qty, extra]`; every block with a title and
    a numeric quantity is a stock row, and reading stops after more than
    5000 records in a row yield none. The records are given already split
    into trimmed cells. */
module StockCsv {
  import opened Wrappers
  import opened Seqs
  import opened JsText
  import Decimal

  const BlockStarts: seq<nat> := [0, 6, 12, 18, 24, 30, 36]

  /** Reading stops once the empty streak exceeds this. */
  const StopAfter: nat := 5000

  datatype StockRow = StockRow(title: string, color: string, size: string, qty: int)

  /** `record[i]`, with a missing cell read as "" (`undefined` goes through
      `safeStr` and `safeNum` exactly as "" does). */
  function Cell(record: seq<string>, i: nat): (r: string)
    ensures i < |record| ==> r == record[i]
    ensures i >= |record| ==> r == ""
  {
    if i < |record| then record[i] else ""
  }

  /** `safeNum(x)`: the number the trimmed cell spells, `None` for `null`. */
  function SafeNum(x: string): (r: Option<int>)
    ensures Trim(x) == "" ==> r == Some(0)
    ensures AllDigits(Trim(x)) && Trim(x) != "" ==> r == Some(Decimal.DigitsValue(Trim(x)))
  {
    Decimal.ToNumber(x)
  }

  /** `s.toLowerCase() === w`, compared character by character. */
  predicate LowerIs(s: string, w: string)
  {
    if |s| == 0 then |w| == 0
    else |w| > 0 && LowerChar(s[0]) == w[0] && LowerIs(s[1..], w[1..])
  }

  lemma {:induction false} LowerIsIff(s: string, w: string)
    ensures LowerIs(s, w) <==> Lower(s) == w
  {
    if |s| > 0 && |w| > 0 {
      LowerIsIff(s[1..], w[1..]);
      assert Lower(s) == [LowerChar(s[0])] + Lower(s[1..]);
      if Lower(s) == w {
        assert Lower(s)[1..] == w[1..];
      }
    }
  }

  /** The internal header titles the reader ignores, in any case. */
  predicate IsHeaderTitle(title: string)
  {
    LowerIs(title, "product") || LowerIs(title, "title")
  }

  /** What a stock row promises: a trimmed, non-empty title that is not a
      header, and trimmed colour and size. */
  predicate Valid(r: StockRow)
  {
    r.title != "" && IsTrimmed(r.title) && !IsHeaderTitle(r.title)
    && IsTrimmed(r.color) && IsTrimmed(r.size)
  }

  /** The block of `record` starting at column `s`. */
  function BlockRow(record: seq<string>, s: nat): (r: Option<StockRow>)
    ensures r.Some? ==> Valid(r.value)
  {
    var title := Trim(Cell(record, s + 1));
    var color := Trim(Cell(record, s + 2));
    var size := Trim(Cell(record, s + 3));
    var qty := SafeNum(Cell(record, s + 4));
    TrimSpec(Cell(record, s + 1));
    TrimSpec(Cell(record, s + 2));
    TrimSpec(Cell(record, s + 3));
    if title == "" || qty.None? then None
    else if IsHeaderTitle(title) then None
    else Some(StockRow(title, color, size, qty.value))
  }

  /** A block yields a row exactly when its title is non-empty and not a
      header and its quantity cell spells a number. */
  lemma BlockRowIff(record: seq<string>, s: nat)
    ensures BlockRow(record, s).Some? <==>
      (Trim(Cell(record, s + 1)) != "" && SafeNum(Cell(record, s + 4)).Some?
       && !IsHeaderTitle(Trim(Cell(record, s + 1))))
  {
  }

  /** A block whose quantity cell lies past the end of a short record still
      counts, with quantity 0. */
  lemma MissingQtyIsZero(record: seq<string>, s: nat)
    requires |record| <= s + 4
    requires Trim(Cell(record, s + 1)) != "" && !IsHeaderTitle(Trim(Cell(record, s + 1)))
    ensures BlockRow(record, s).Some? && BlockRow(record, s).value.qty == 0
  {
    assert Trim("") == "";
  }

  /** The block reader of one record. */
  function Block(record: seq<string>): nat -> Option<StockRow>
  {
    (s: nat) => BlockRow(record, s)
  }

  /** The rows of one record, block by block in column order (`onRow` calls
      for it). */
  function RecordRows(record: seq<string>): (r: seq<StockRow>)
    ensures |r| <= |BlockStarts|
  {
    Somes(Map(BlockStarts, Block(record)))
  }

  /** Every row a record yields is a valid stock row. */
  lemma RecordRowsValid(record: seq<string>)
    ensures forall i :: 0 <= i < |RecordRows(record)| ==> Valid(RecordRows(record)[i])
  {
    var blocks := Map(BlockStarts, Block(record));
    var rows := RecordRows(record);
    forall i | 0 <= i < |rows|
      ensures Valid(rows[i])
    {
      assert Some(rows[i]) in blocks;
      var j :| 0 <= j < |blocks| && blocks[j] == Some(rows[i]);
      assert BlockRow(record, BlockStarts[j]) == Some(rows[i]);
    }
  }

  /** What each record yields, record by record. */
  function Yields(records: seq<seq<string>>): (r: seq<seq<StockRow>>)
    ensures |r| == |records|
  {
    Map(records, RecordRows)
  }

  lemma YieldsAt(records: seq<seq<string>>, i: nat)
    requires i < |records|
    ensures Yields(records)[i] == RecordRows(records[i])
  {
  }

  /** The rows of the yields `ys`, in reading order. */
  function Joined(ys: seq<seq<StockRow>>): seq<StockRow>
  {
    if |ys| == 0 then [] else Joined(ys[..|ys| - 1]) + ys[|ys| - 1]
  }

  lemma JoinedSnoc(ys: seq<seq<StockRow>>, n: nat)
    requires n < |ys|
    ensures Joined(ys[..n + 1]) == Joined(ys[..n]) + ys[n]
  {
    assert ys[..n + 1][..n] == ys[..n];
  }

  /** Every row read is a valid stock row. */
  lemma {:induction false} JoinedValid(records: seq<seq<string>>, n: nat)
    requires n <= |records|
    ensures var rows := Joined(Yields(records)[..n]); forall i :: 0 <= i < |rows| ==> Valid(rows[i])
  {
    if n > 0 {
      var ys := Yields(records);
      JoinedValid(records, n - 1);
      JoinedSnoc(ys, n - 1);
      var last := RecordRows(records[n - 1]);
      YieldsAt(records, n - 1);
      RecordRowsValid(records[n - 1]);
    }
  }

  /** `emptyStreak` after the yields `ys`: the number of records since the
      last one that yielded a row. */
  function Streak(ys: seq<seq<StockRow>>): (r: nat)
    ensures r <= |ys|
  {
    if |ys| == 0 then 0
    else if ys[|ys| - 1] == [] then Streak(ys[..|ys| - 1]) + 1
    else 0
  }

  lemma StreakSnoc(ys: seq<seq<StockRow>>, n: nat)
    requires n < |ys|
    ensures Streak(ys[..n + 1]) == if ys[n] == [] then Streak(ys[..n]) + 1 else 0
  {
    assert ys[..n + 1][..n] == ys[..n];
  }

  /** The streak is at least `k` exactly when the last `k` records yielded
      no row. */
  lemma {:induction false} StreakRun(ys: seq<seq<StockRow>>, k: nat)
    requires k <= |ys|
    ensures Streak(ys) >= k <==> forall t :: |ys| - k <= t < |ys| ==> ys[t] == []
  {
    if k > 0 {
      var n := |ys|;
      var init := ys[..n - 1];
      StreakRun(init, k - 1);
      assert forall t :: n - k <= t < n - 1 ==> init[t] == ys[t];
    }
  }

  /** Where reading stops when it has read `m` records: after the first
      record from `m` on whose streak passes the bound, or at the end. */
  function StopFrom(ys: seq<seq<StockRow>>, m: nat): (r: nat)
    requires m <= |ys|
    ensures m <= r <= |ys|
    decreases |ys| - m
  {
    if m == |ys| then |ys|
    else if Streak(ys[..m + 1]) > StopAfter then m + 1
    else StopFrom(ys, m + 1)
  }

  /** The number of records read before reading stops. */
  function StopPoint(ys: seq<seq<StockRow>>): nat
  {
    StopFrom(ys, 0)
  }

  /** The record loop of `parseStockCsvStream` over what each record
      yields: the rows handed to `onRow`, the number of records read, and
      whether reading stopped on the empty streak. */
  method ReadYields(ys: seq<seq<StockRow>>) returns (rows: seq<StockRow>, read: nat, stoppedEarly: bool)
    ensures read == StopPoint(ys)
    ensures rows == Joined(ys[..read])
    ensures !stoppedEarly ==> read == |ys|
    ensures stoppedEarly ==> Streak(ys[..read]) > StopAfter
    ensures forall m :: 0 <= m <= read && (m < read || !stoppedEarly) ==> Streak(ys[..m]) <= StopAfter
  {
    var streak: nat := 0;
    rows := [];
    read := 0;
    while read < |ys|
      invariant read <= |ys|
      invariant rows == Joined(ys[..read])
      invariant streak == Streak(ys[..read])
      invariant forall m :: 0 <= m <= read ==> Streak(ys[..m]) <= StopAfter
      invariant StopFrom(ys, read) == StopPoint(ys)
    {
      var found := ys[read];
      JoinedSnoc(ys, read);
      StreakSnoc(ys, read);
      rows := rows + found;
      streak := if found == [] then streak + 1 else 0;
      read := read + 1;
      if streak > StopAfter {
        stoppedEarly := true;
        return;
      }
      assert forall m :: 0 <= m <= read ==> Streak(ys[..m]) <= StopAfter by {
        forall m | 0 <= m <= read
          ensures Streak(ys[..m]) <= StopAfter
        {
          if m == read {
            assert Streak(ys[..m]) == streak;
          }
        }
      }
    }
    assert ys[..read] == ys;
    stoppedEarly := false;
  }

  /** `parseStockCsvStream` over the parsed `records`. */
  method Parse(records: seq<seq<string>>) returns (rows: seq<StockRow>, read: nat, stoppedEarly: bool)
    ensures read == StopPoint(Yields(records))
    ensures rows == Joined(Yields(records)[..read])
    ensures !stoppedEarly ==> read == |records|
    ensures stoppedEarly ==> Streak(Yields(records)[..read]) > StopAfter
    ensures forall m :: 0 <= m <= read && (m < read || !stoppedEarly) ==> Streak(Yields(records)[..m]) <= StopAfter
  {
    rows, read, stoppedEarly := ReadYields(Yields(records));
  }

  /** Reading stops early exactly when 5001 consecutive records yield no
      row: a stop at `read` means the 5001 records before it were empty,
      and such a run ending at `read` makes the streak pass the bound. */
  lemma StopIffRun(records: seq<seq<string>>, read: nat)
    requires StopAfter < read <= |records|
    ensures Streak(Yields(records)[..read]) > StopAfter <==>
      forall t :: read - (StopAfter + 1) <= t < read ==> RecordRows(records[t]) == []
  {
    var ys := Yields(records);
    StreakRun(ys[..read], StopAfter + 1);
    forall t | 0 <= t < read
      ensures ys[..read][t] == RecordRows(records[t])
    {
      YieldsAt(records, t);
    }
  }
}
