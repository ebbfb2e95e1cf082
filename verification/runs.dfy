/** Driver runs and their stops (`api/runs/list.js` and `api/for-driver.js`):
    the runs of a day (and of a driver), and for each run its stops, where a
    stop recorded several times counts once, by its latest record. Rows are
    the sheet's objects; a field missing from the sheet is `None`. Dates are
    read by a `parse` parameter as `new Date(text).getTime()` would, `None`
    being an invalid date. */
module Runs {
  import opened Wrappers
  import opened Seqs
  import opened JsText
  import Sheets
  import Shipday

  type Row = Sheets.Obj

  /** `r.F` for a field `F` that may be missing. */
  function Field(r: Row, f: string): Option<string>
  {
    if f in r then Some(r[f]) else None
  }

  /** `` `${s.RUN_ID}|${s.STOP_ID}` ``: a missing field prints "undefined". */
  function StopKey(s: Row): string
  {
    Sheets.Str(s, "RUN_ID") + "|" + Sheets.Str(s, "STOP_ID")
  }

  /** `s.DONE_AT || s.UPDATED_AT || s.START_TS || 0`, as a text ("" for 0). */
  function StampText(s: Row): (r: string)
    ensures r != "" ==> r == Sheets.Get(s, "DONE_AT") || r == Sheets.Get(s, "UPDATED_AT") || r == Sheets.Get(s, "START_TS")
  {
    if Sheets.Get(s, "DONE_AT") != "" then Sheets.Get(s, "DONE_AT")
    else if Sheets.Get(s, "UPDATED_AT") != "" then Sheets.Get(s, "UPDATED_AT")
    else Sheets.Get(s, "START_TS")
  }

  /** `new Date(...).getTime()` of a stop; `None` is `NaN`. */
  function Stamp(s: Row, parse: string -> Option<int>): Option<int>
  {
    Sheets.TimeOf(parse, StampText(s))
  }

  /** `curTs >= prevTs`: false when either side is `NaN`. */
  predicate Replaces(cur: Row, prev: Row, parse: string -> Option<int>)
  {
    Stamp(cur, parse).Some? && Stamp(prev, parse).Some? && Stamp(cur, parse).value >= Stamp(prev, parse).value
  }

  /** The `reduce` over the stops into a `Map` from key to stop. */
  function Latest(stops: seq<Row>, parse: string -> Option<int>): (m: map<string, Row>)
    ensures forall k :: k in m <==> k in Map(stops, StopKey)
    decreases |stops|
  {
    if |stops| == 0 then map[]
    else
      var init := stops[..|stops| - 1];
      var s := stops[|stops| - 1];
      var m := Latest(init, parse);
      assert Map(stops, StopKey) == Map(init, StopKey) + [StopKey(s)] by { MapAppend(init, [s], StopKey); assert init + [s] == stops; }
      if StopKey(s) !in m || Replaces(s, m[StopKey(s)], parse) then m[StopKey(s) := s] else m
  }

  /** The first row of the key. */
  function FirstOf(stops: seq<Row>, k: string): Option<nat>
  {
    FindFirst(stops, (s: Row) => StopKey(s) == k)
  }

  /** Which record of a stop survives: when the stop's first record has an
      invalid date, that first record (nothing compares as newer than
      `NaN`); otherwise a record with a valid date that no record with a
      valid date exceeds, and that every later such record falls short of:
      the greatest date, ties going to the later row. */
  ghost predicate Survives(stops: seq<Row>, parse: string -> Option<int>, j: nat)
    requires j < |stops|
  {
    var k := StopKey(stops[j]);
    var f := FirstOf(stops, k);
    f.Some? && f.value < |stops| &&
    if Stamp(stops[f.value], parse).None? then j == f.value
    else
      && Stamp(stops[j], parse).Some?
      && forall i :: 0 <= i < |stops| && StopKey(stops[i]) == k && Stamp(stops[i], parse).Some? ==>
           && Stamp(stops[i], parse).value <= Stamp(stops[j], parse).value
           && (i > j ==> Stamp(stops[i], parse).value < Stamp(stops[j], parse).value)
  }

  /** At most one record of a stop can survive. */
  lemma SurvivorUnique(stops: seq<Row>, parse: string -> Option<int>, j1: nat, j2: nat)
    requires j1 < |stops| && j2 < |stops| && StopKey(stops[j1]) == StopKey(stops[j2])
    requires Survives(stops, parse, j1) && Survives(stops, parse, j2)
    ensures j1 == j2
  {
    var k := StopKey(stops[j1]);
    var f := FirstOf(stops, k).value;
    if Stamp(stops[f], parse).Some? {
      assert Stamp(stops[j1], parse).value == Stamp(stops[j2], parse).value;
    }
  }

  lemma FirstOfSnoc(init: seq<Row>, s: Row, k: string)
    requires k in Map(init, StopKey)
    ensures FirstOf(init + [s], k) == FirstOf(init, k)
    ensures FirstOf(init, k).Some? && FirstOf(init, k).value < |init|
  {
    var i :| 0 <= i < |init| && Map(init, StopKey)[i] == k;
    var f := FirstOf(init, k);
    assert f.Some?;
    FindFirstAt(init + [s], (r: Row) => StopKey(r) == k, f.value);
  }

  lemma FirstOfNew(init: seq<Row>, s: Row)
    requires StopKey(s) !in Map(init, StopKey)
    ensures FirstOf(init + [s], StopKey(s)) == Some(|init|)
  {
    var xs := init + [s];
    forall j | 0 <= j < |init|
      ensures StopKey(xs[j]) != StopKey(s)
    {
      assert xs[j] == init[j];
      assert Map(init, StopKey)[j] == StopKey(init[j]);
    }
    FindFirstAt(xs, (r: Row) => StopKey(r) == StopKey(s), |init|);
  }

  /** One more stop: its key takes it when new or not older. */
  lemma LatestSnoc(init: seq<Row>, s: Row, parse: string -> Option<int>)
    ensures var m0 := Latest(init, parse);
      Latest(init + [s], parse)
        == if StopKey(s) !in m0 || Replaces(s, m0[StopKey(s)], parse) then m0[StopKey(s) := s] else m0
  {
    assert (init + [s])[..|init|] == init;
  }

  /** The stop kept under each key is a record of that key that survives. */
  lemma {:induction false} LatestSurvivor(stops: seq<Row>, parse: string -> Option<int>, k: string) returns (j: nat)
    requires k in Latest(stops, parse)
    ensures j < |stops| && StopKey(stops[j]) == k && Latest(stops, parse)[k] == stops[j]
    ensures Survives(stops, parse, j)
    decreases |stops|, 1
  {
    assert k in Map(stops, StopKey);
    var init := stops[..|stops| - 1];
    var s := stops[|stops| - 1];
    SplitLast(stops);
    j := LatestSurvivorSnoc(init, s, parse, k);
  }

  lemma {:induction false} LatestSurvivorSnoc(init: seq<Row>, s: Row, parse: string -> Option<int>, k: string) returns (j: nat)
    requires k in Latest(init + [s], parse)
    ensures j <= |init| && StopKey((init + [s])[j]) == k && Latest(init + [s], parse)[k] == (init + [s])[j]
    ensures Survives(init + [s], parse, j)
    decreases |init| + 1, 0
  {
    var m0 := Latest(init, parse);
    LatestSnoc(init, s, parse);
    var xs := init + [s];
    if k != StopKey(s) {
      j := LatestSurvivor(init, parse, k);
      assert Map(init, StopKey)[j] == k;
      assert xs[j] == init[j];
      SurvivesOther(init, s, parse, j);
    } else if k !in m0 {
      SurvivesFresh(init, s, parse);
      j := |init|;
    } else {
      var i := LatestSurvivor(init, parse, k);
      assert Map(init, StopKey)[i] == k;
      if Replaces(s, m0[k], parse) {
        SurvivesReplace(init, s, parse, i);
        j := |init|;
      } else {
        assert xs[i] == init[i];
        SurvivesKeep(init, s, parse, i);
        j := i;
      }
    }
  }

  lemma SurvivesOther(init: seq<Row>, s: Row, parse: string -> Option<int>, j: nat)
    requires j < |init| && StopKey(init[j]) != StopKey(s)
    requires StopKey(init[j]) in Map(init, StopKey)
    requires Survives(init, parse, j)
    ensures Survives(init + [s], parse, j)
  {
    var xs := init + [s];
    var k := StopKey(init[j]);
    FirstOfSnoc(init, s, k);
    assert xs[j] == init[j];
    var f := FirstOf(init, k).value;
    assert xs[f] == init[f];
    if Stamp(init[f], parse).Some? {
      forall i | 0 <= i < |xs| && StopKey(xs[i]) == k && Stamp(xs[i], parse).Some?
        ensures Stamp(xs[i], parse).value <= Stamp(xs[j], parse).value
        ensures i > j ==> Stamp(xs[i], parse).value < Stamp(xs[j], parse).value
      {
        assert i < |init| && xs[i] == init[i];
      }
    }
  }

  lemma SurvivesFresh(init: seq<Row>, s: Row, parse: string -> Option<int>)
    requires StopKey(s) !in Map(init, StopKey)
    ensures Survives(init + [s], parse, |init|)
  {
    var xs := init + [s];
    FirstOfNew(init, s);
    forall i | 0 <= i < |init|
      ensures StopKey(xs[i]) != StopKey(s)
    {
      assert xs[i] == init[i] && Map(init, StopKey)[i] == StopKey(init[i]);
    }
  }

  lemma SurvivesReplace(init: seq<Row>, s: Row, parse: string -> Option<int>, j: nat)
    requires j < |init| && StopKey(init[j]) == StopKey(s)
    requires StopKey(s) in Map(init, StopKey)
    requires Survives(init, parse, j)
    requires Replaces(s, init[j], parse)
    ensures Survives(init + [s], parse, |init|)
  {
    var xs := init + [s];
    var k := StopKey(s);
    FirstOfSnoc(init, s, k);
    var f := FirstOf(init, k).value;
    assert xs[f] == init[f];
    forall i | 0 <= i < |xs| && StopKey(xs[i]) == k && Stamp(xs[i], parse).Some?
      ensures Stamp(xs[i], parse).value <= Stamp(s, parse).value
    {
      if i < |init| {
        assert xs[i] == init[i];
      }
    }
  }

  lemma SurvivesKeep(init: seq<Row>, s: Row, parse: string -> Option<int>, j: nat)
    requires j < |init| && StopKey(init[j]) == StopKey(s)
    requires StopKey(s) in Map(init, StopKey)
    requires Survives(init, parse, j)
    requires !Replaces(s, init[j], parse)
    ensures Survives(init + [s], parse, j)
  {
    var xs := init + [s];
    var k := StopKey(s);
    FirstOfSnoc(init, s, k);
    var f := FirstOf(init, k).value;
    assert xs[f] == init[f] && xs[j] == init[j];
    if Stamp(init[f], parse).Some? {
      forall i | 0 <= i < |xs| && StopKey(xs[i]) == k && Stamp(xs[i], parse).Some?
        ensures Stamp(xs[i], parse).value <= Stamp(xs[j], parse).value
        ensures i > j ==> Stamp(xs[i], parse).value < Stamp(xs[j], parse).value
      {
        if i < |init| {
          assert xs[i] == init[i];
        }
      }
    }
  }

  /** `[...latest.values()]`: one stop per key, in the order keys were
      first seen. */
  function Survivors(stops: seq<Row>, parse: string -> Option<int>): (r: seq<Row>)
    ensures |r| == |Dedup(Map(stops, StopKey))|
  {
    var m := Latest(stops, parse);
    var keys := Dedup(Map(stops, StopKey));
    assert forall i :: 0 <= i < |keys| ==> keys[i] in Map(stops, StopKey);
    seq(|keys|, i requires 0 <= i < |keys| => m[keys[i]])
  }

  /** Exactly one stop per key survives, the surviving record of that key. */
  lemma SurvivorsSpec(stops: seq<Row>, parse: string -> Option<int>)
    ensures var r := Survivors(stops, parse);
      && (forall s :: s in r ==> exists j :: 0 <= j < |stops| && stops[j] == s && Survives(stops, parse, j))
      && (forall j :: 0 <= j < |stops| && Survives(stops, parse, j) ==> stops[j] in r)
  {
    SurvivorsSound(stops, parse);
    SurvivorsComplete(stops, parse);
  }

  lemma SurvivorAt(stops: seq<Row>, parse: string -> Option<int>, i: nat)
    requires i < |Dedup(Map(stops, StopKey))|
    ensures var k := Dedup(Map(stops, StopKey))[i];
      k in Latest(stops, parse) && Survivors(stops, parse)[i] == Latest(stops, parse)[k]
  {
    assert Dedup(Map(stops, StopKey))[i] in Map(stops, StopKey);
  }

  lemma SurvivorsSound(stops: seq<Row>, parse: string -> Option<int>)
    ensures forall s :: s in Survivors(stops, parse) ==>
      exists j :: 0 <= j < |stops| && stops[j] == s && Survives(stops, parse, j)
  {
    var r := Survivors(stops, parse);
    var keys := Dedup(Map(stops, StopKey));
    forall s | s in r
      ensures exists j :: 0 <= j < |stops| && stops[j] == s && Survives(stops, parse, j)
    {
      var i :| 0 <= i < |r| && r[i] == s;
      SurvivorAt(stops, parse, i);
      var j := LatestSurvivor(stops, parse, keys[i]);
      assert stops[j] == s;
    }
  }

  lemma SurvivorsComplete(stops: seq<Row>, parse: string -> Option<int>)
    ensures forall j :: 0 <= j < |stops| && Survives(stops, parse, j) ==> stops[j] in Survivors(stops, parse)
  {
    var r := Survivors(stops, parse);
    var keys := Dedup(Map(stops, StopKey));
    forall j | 0 <= j < |stops| && Survives(stops, parse, j)
      ensures stops[j] in r
    {
      var k := StopKey(stops[j]);
      assert Map(stops, StopKey)[j] == k;
      assert k in keys;
      var i :| 0 <= i < |keys| && keys[i] == k;
      SurvivorAt(stops, parse, i);
      var j2 := LatestSurvivor(stops, parse, k);
      SurvivorUnique(stops, parse, j, j2);
      assert r[i] == stops[j];
    }
  }

  /** A run as the handlers answer it. */
  datatype Run = Run(runId: Option<string>, driverId: Option<string>, date: Option<string>, status: Option<string>, stops: seq<Row>)

  function RunId(r: Row): Option<string> { Field(r, "RUN_ID") }

  /** The stops of the selected runs (`runIds.has(s.RUN_ID)`). */
  function StopsOf(runs: seq<Row>, stops: seq<Row>): (r: seq<Row>)
    ensures forall s :: s in r <==> s in stops && exists q :: q in runs && RunId(q) == RunId(s)
  {
    var ids := Map(runs, RunId);
    assert forall s :: (RunId(s) in ids) <==> exists q :: q in runs && RunId(q) == RunId(s) by {
      forall s | RunId(s) in ids
        ensures exists q :: q in runs && RunId(q) == RunId(s)
      {
        var i :| 0 <= i < |ids| && ids[i] == RunId(s);
        assert runs[i] in runs;
      }
      forall s | exists q :: q in runs && RunId(q) == RunId(s)
        ensures RunId(s) in ids
      {
        var q :| q in runs && RunId(q) == RunId(s);
        var i :| 0 <= i < |runs| && runs[i] == q;
        assert ids[i] == RunId(q);
      }
    }
    Filter(stops, (s: Row) => RunId(s) in ids)
  }

  /** Each selected run with the surviving stops of its id. */
  function Assemble(runs: seq<Row>, survivors: seq<Row>): (r: seq<Run>)
    ensures |r| == |runs|
    ensures forall i :: 0 <= i < |runs| ==>
      && r[i].runId == RunId(runs[i]) && r[i].driverId == Field(runs[i], "DRIVER_ID")
      && r[i].date == Field(runs[i], "DATE") && r[i].status == Field(runs[i], "STATUS")
      && (forall s :: s in r[i].stops <==> s in survivors && RunId(s) == RunId(runs[i]))
  {
    seq(|runs|, i requires 0 <= i < |runs| =>
      var q := runs[i];
      Run(RunId(q), Field(q, "DRIVER_ID"), Field(q, "DATE"), Field(q, "STATUS"),
          Filter(survivors, (s: Row) => RunId(s) == RunId(q))))
  }

  /** `(query || today).slice(0, 10)` */
  function DayOf(dateQuery: string, today: string): string
  {
    Shipday.Day(if dateQuery != "" then dateQuery else today)
  }

  predicate OnDay(r: Row, day: string)
  {
    StartsWith(Sheets.Get(r, "DATE"), day)
  }

  // ---------------------------------------------------- api/runs/list.js

  /** `api/runs/list.js`: the runs whose DATE starts with the day, each with
      the surviving stops of its id. */
  function ListRuns(runs: seq<Row>, stops: seq<Row>, dateQuery: string, today: string, parse: string -> Option<int>): (r: seq<Run>)
    ensures var day := DayOf(dateQuery, today);
      |r| == |Filter(runs, (q: Row) => OnDay(q, day))|
  {
    var day := DayOf(dateQuery, today);
    var selected := Filter(runs, (q: Row) => OnDay(q, day));
    Assemble(selected, Survivors(StopsOf(selected, stops), parse))
  }

  /** Every listed run is a run of the day, and carries exactly the
      surviving records of the stops of its id. */
  lemma ListRunsSpec(runs: seq<Row>, stops: seq<Row>, dateQuery: string, today: string, parse: string -> Option<int>, i: nat)
    requires var day := DayOf(dateQuery, today); i < |Filter(runs, (q: Row) => OnDay(q, day))|
    ensures var day := DayOf(dateQuery, today);
      var selected := Filter(runs, (q: Row) => OnDay(q, day));
      var pool := StopsOf(selected, stops);
      var out := ListRuns(runs, stops, dateQuery, today, parse)[i];
      && selected[i] in runs && OnDay(selected[i], day)
      && out.runId == RunId(selected[i])
      && (forall s :: s in out.stops <==> RunId(s) == RunId(selected[i]) && exists j :: 0 <= j < |pool| && pool[j] == s && Survives(pool, parse, j))
  {
    var day := DayOf(dateQuery, today);
    var selected := Filter(runs, (q: Row) => OnDay(q, day));
    var pool := StopsOf(selected, stops);
    assert selected[i] in selected;
    SurvivorsSpec(pool, parse);
  }

  // --------------------------------------------------- api/for-driver.js

  /** `api/for-driver.js`: the driver's runs of the day with their stops;
      a blank driver id is refused. */
  function ForDriver(runs: seq<Row>, stops: seq<Row>, driverQuery: string, dateQuery: string, today: string, parse: string -> Option<int>): (r: Result<seq<Run>>)
    ensures r.Err? <==> Trim(driverQuery) == ""
    ensures r.Err? ==> r.error == "driverId required"
  {
    var driverId := Trim(driverQuery);
    var day := DayOf(dateQuery, today);
    if driverId == "" then Err("driverId required")
    else
      var selected := Filter(runs, (q: Row) => Trim(Sheets.Get(q, "DRIVER_ID")) == driverId && OnDay(q, day));
      Ok(Assemble(selected, Survivors(StopsOf(selected, stops), parse)))
  }

  /** The runs answered are exactly the driver's runs of the day, and each
      carries exactly the surviving records of the stops of its id. */
  lemma ForDriverSpec(runs: seq<Row>, stops: seq<Row>, driverQuery: string, dateQuery: string, today: string, parse: string -> Option<int>)
    requires Trim(driverQuery) != ""
    ensures var day := DayOf(dateQuery, today);
      var mine := (q: Row) => Trim(Sheets.Get(q, "DRIVER_ID")) == Trim(driverQuery) && OnDay(q, day);
      var selected := Filter(runs, mine);
      var pool := StopsOf(selected, stops);
      var out := ForDriver(runs, stops, driverQuery, dateQuery, today, parse).value;
      && |out| == |selected|
      && (forall q :: q in selected <==> q in runs && mine(q))
      && (forall i, s :: 0 <= i < |out| ==>
            (s in out[i].stops <==> RunId(s) == RunId(selected[i]) && exists j :: 0 <= j < |pool| && pool[j] == s && Survives(pool, parse, j)))
  {
    var day := DayOf(dateQuery, today);
    var mine := (q: Row) => Trim(Sheets.Get(q, "DRIVER_ID")) == Trim(driverQuery) && OnDay(q, day);
    var selected := Filter(runs, mine);
    var pool := StopsOf(selected, stops);
    SurvivorsSpec(pool, parse);
  }
}
