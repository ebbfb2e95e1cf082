/** The aggregation shared by the picking handlers: line items are grouped
    by a key in a JavaScript `Map`, so groups come out in the order their
    keys were first seen. Each group keeps the catalogue fields of its first
    line, the first non-empty image, the sum of the quantities and the
    orders it serves, one entry per order name in first-seen order. An order
    entry carries two flags that are OR-ed over the group's lines of that
    order and a date taken from the last of them; handlers that keep only a
    set of names leave the flags false. The result is then sorted by total,
    descending, with `Array.prototype.sort`, which is stable. */
module Grouping {
  import opened Wrappers
  import opened Seqs

  /** One order inside a group. */
  datatype Mark = Mark(name: string, express: bool, aged: bool, date: int)

  /** What one line item contributes: its group key, catalogue fields,
      quantity and order. */
  datatype Line = Line(key: string, sku: string, title: string, variantTitle: string, image: string, qty: int, mark: Mark)

  datatype Group = Group(key: string, sku: string, title: string, variantTitle: string, image: string, total: int, orders: seq<Mark>)

  function NameOf(m: Mark): string { m.name }
  function KeyOf(g: Group): string { g.key }
  function LineKey(l: Line): string { l.key }
  function LineQty(l: Line): int { l.qty }
  function LineName(l: Line): string { l.mark.name }

  function Named(n: string): Mark -> bool { (m: Mark) => m.name == n }
  function KeyIs(k: string): Group -> bool { (g: Group) => g.key == k }
  function HasKey(k: string): Line -> bool { (l: Line) => l.key == k }

  // -------------------------------------------------------------- orders

  /** The entry for an order name, if any. */
  function MarkFor(ms: seq<Mark>, n: string): Option<Mark>
  {
    match FindFirst(ms, Named(n))
    case None => None
    case Some(i) => Some(ms[i])
  }

  /** `ORDERS.add(name)`, or `ORDERS.set(name, {flags OR previous, DATE})`:
      a new name is appended; a known one keeps its place. */
  function AddMark(ms: seq<Mark>, m: Mark): (r: seq<Mark>)
    ensures Map(r, NameOf) == Map(ms, NameOf) + (if m.name in Map(ms, NameOf) then [] else [m.name])
  {
    match FindFirst(ms, Named(m.name))
    case None =>
      assert m.name !in Map(ms, NameOf);
      ms + [m]
    case Some(i) =>
      assert Map(ms, NameOf)[i] == m.name;
      ms[i := Mark(m.name, ms[i].express || m.express, ms[i].aged || m.aged, m.date)]
  }

  /** How adding an entry changes the entry for each name. */
  lemma AddMarkFor(ms: seq<Mark>, m: Mark, n: string)
    ensures MarkFor(AddMark(ms, m), n) ==
      if n != m.name then MarkFor(ms, n)
      else
        var prev := MarkFor(ms, n);
        Some(Mark(n, (prev.Some? && prev.value.express) || m.express,
                     (prev.Some? && prev.value.aged) || m.aged, m.date))
  {
    var r := AddMark(ms, m);
    match FindFirst(ms, Named(m.name))
    case None =>
      if n == m.name {
        FindFirstAt(r, Named(n), |ms|);
      } else {
        match FindFirst(ms, Named(n))
        case None =>
        case Some(j) => FindFirstAt(r, Named(n), j);
      }
    case Some(i) =>
      if n == m.name {
        FindFirstAt(r, Named(n), i);
      } else {
        match FindFirst(ms, Named(n))
        case None =>
        case Some(j) => FindFirstAt(r, Named(n), j);
      }
  }

  // -------------------------------------------------------------- groups

  /** The entry created when a key is first seen. */
  function New(l: Line): Group
  {
    Group(l.key, l.sku, l.title, l.variantTitle, l.image, 0, [])
  }

  /** One line added to its group: `TOTAL_QTY += qty`,
      `IMAGE = IMAGE || it.IMAGE`, and the order recorded. */
  function Step(g: Group, l: Line): (r: Group)
    ensures r.key == g.key && r.sku == g.sku && r.title == g.title && r.variantTitle == g.variantTitle
    ensures r.total == g.total + l.qty
    ensures r.orders == AddMark(g.orders, l.mark)
    ensures g.image != "" ==> r.image == g.image
    ensures g.image == "" ==> r.image == l.image
  {
    g.(total := g.total + l.qty,
       image := if g.image != "" then g.image else l.image,
       orders := AddMark(g.orders, l.mark))
  }

  /** The group of a key, if any. */
  function GroupFor(gs: seq<Group>, k: string): Option<Group>
  {
    match FindFirst(gs, KeyIs(k))
    case None => None
    case Some(i) => Some(gs[i])
  }

  /** One iteration of the handlers' `for (const it of items)` loop. */
  function AddLine(gs: seq<Group>, l: Line): (r: seq<Group>)
    ensures Map(r, KeyOf) == Map(gs, KeyOf) + (if l.key in Map(gs, KeyOf) then [] else [l.key])
  {
    match FindFirst(gs, KeyIs(l.key))
    case None =>
      assert l.key !in Map(gs, KeyOf);
      gs + [Step(New(l), l)]
    case Some(i) =>
      assert Map(gs, KeyOf)[i] == l.key;
      gs[i := Step(gs[i], l)]
  }

  /** `Array.from(byKey.values())` after the loop. */
  function GroupLines(ls: seq<Line>): seq<Group>
    decreases |ls|
  {
    if |ls| == 0 then [] else AddLine(GroupLines(ls[..|ls| - 1]), ls[|ls| - 1])
  }

  /** How adding a line changes the group of each key. */
  lemma AddLineFor(gs: seq<Group>, l: Line, k: string)
    ensures GroupFor(AddLine(gs, l), k) ==
      if k != l.key then GroupFor(gs, k)
      else Some(Step(GroupFor(gs, k).GetOr(New(l)), l))
  {
    var r := AddLine(gs, l);
    match FindFirst(gs, KeyIs(l.key))
    case None =>
      if k == l.key {
        FindFirstAt(r, KeyIs(k), |gs|);
      } else {
        match FindFirst(gs, KeyIs(k))
        case None =>
        case Some(j) => FindFirstAt(r, KeyIs(k), j);
      }
    case Some(i) =>
      if k == l.key {
        FindFirstAt(r, KeyIs(k), i);
      } else {
        match FindFirst(gs, KeyIs(k))
        case None =>
        case Some(j) => FindFirstAt(r, KeyIs(k), j);
      }
  }

  /** The lines of one key. */
  function LinesOf(ls: seq<Line>, k: string): seq<Line>
  {
    Filter(ls, HasKey(k))
  }

  lemma LinesOfSnoc(ls: seq<Line>, l: Line, k: string)
    ensures LinesOf(ls + [l], k) == LinesOf(ls, k) + (if l.key == k then [l] else [])
  {
    FilterAppend(ls, [l], HasKey(k));
  }

  /** The first non-empty image. */
  function FirstImage(ls: seq<Line>): string
  {
    if |ls| == 0 then "" else if ls[0].image != "" then ls[0].image else FirstImage(ls[1..])
  }

  lemma {:induction false} FirstImageSnoc(ls: seq<Line>, l: Line)
    ensures FirstImage(ls + [l]) == if FirstImage(ls) != "" then FirstImage(ls) else l.image
  {
    if |ls| > 0 {
      assert (ls + [l])[1..] == ls[1..] + [l];
      FirstImageSnoc(ls[1..], l);
    } else {
      assert ls + [l] == [l];
    }
  }

  /** Whether some line of order `n` among `ls` raises the flag. */
  predicate AnyExpress(ls: seq<Line>, n: string)
  {
    exists i :: 0 <= i < |ls| && ls[i].mark.name == n && ls[i].mark.express
  }

  predicate AnyOld(ls: seq<Line>, n: string)
  {
    exists i :: 0 <= i < |ls| && ls[i].mark.name == n && ls[i].mark.aged
  }

  /** The group of a key exists exactly when some line has the key, and
      carries the catalogue fields of the key's first line and the first
      non-empty image among its lines. */
  lemma {:induction false} GroupForHead(ls: seq<Line>, k: string)
    ensures GroupFor(GroupLines(ls), k).Some? <==> |LinesOf(ls, k)| > 0
    ensures GroupFor(GroupLines(ls), k).Some? ==>
      var g := GroupFor(GroupLines(ls), k).value; var first := LinesOf(ls, k)[0];
      && g.key == k
      && g.sku == first.sku && g.title == first.title && g.variantTitle == first.variantTitle
      && g.image == FirstImage(LinesOf(ls, k))
    decreases |ls|
  {
    if |ls| > 0 {
      var init := ls[..|ls| - 1];
      var l := ls[|ls| - 1];
      assert ls == init + [l];
      GroupLinesSnoc(init, l);
      GroupForHead(init, k);
      AddLineFor(GroupLines(init), l, k);
      LinesOfSnoc(init, l, k);
      var before := LinesOf(init, k);
      var p := GroupFor(GroupLines(init), k);
      if l.key == k {
        FirstImageSnoc(before, l);
        assert LinesOf(ls, k) == before + [l];
        var G := GroupFor(GroupLines(ls), k);
        assert G == Some(Step(p.GetOr(New(l)), l));
        if |before| > 0 {
          assert (before + [l])[0] == before[0];
          assert G.value.image == FirstImage(before + [l]);
        } else {
          assert before + [l] == [l];
          assert p == None;
          assert G.value.image == l.image;
        }
      } else {
        assert LinesOf(ls, k) == before;
        assert GroupFor(GroupLines(ls), k) == p;
      }
    }
  }

  /** A group's total is the sum of its lines' quantities. */
  lemma {:induction false} GroupForTotal(ls: seq<Line>, k: string)
    ensures GroupFor(GroupLines(ls), k).Some? ==>
      GroupFor(GroupLines(ls), k).value.total == Sum(Map(LinesOf(ls, k), LineQty))
    decreases |ls|
  {
    if |ls| > 0 {
      var init := ls[..|ls| - 1];
      var l := ls[|ls| - 1];
      assert ls == init + [l];
      GroupLinesSnoc(init, l);
      GroupForTotal(init, k);
      GroupForHead(init, k);
      AddLineFor(GroupLines(init), l, k);
      LinesOfSnoc(init, l, k);
      var before := LinesOf(init, k);
      if l.key == k {
        var p := GroupFor(GroupLines(init), k);
        var total := Sum(Map(before, LineQty));
        if p.None? {
          assert Map(before, LineQty) == [];
          assert p.GetOr(New(l)).total == total;
        }
        assert p.GetOr(New(l)).total == total;
        SumSnoc(before, l);
        assert LinesOf(ls, k) == before + [l];
        assert Sum(Map(LinesOf(ls, k), LineQty)) == total + l.qty;
        var G := GroupFor(GroupLines(ls), k);
        assert G == Some(Step(p.GetOr(New(l)), l));
        assert G.value.total == total + l.qty;
      } else {
        assert LinesOf(ls, k) == before;
        assert GroupFor(GroupLines(ls), k) == GroupFor(GroupLines(init), k);
      }
    }
  }

  lemma SumSnoc(ls: seq<Line>, l: Line)
    ensures Sum(Map(ls + [l], LineQty)) == Sum(Map(ls, LineQty)) + l.qty
  {
    MapAppend(ls, [l], LineQty);
    assert Map(ls + [l], LineQty) == Map(ls, LineQty) + [l.qty];
    SumAppend(Map(ls, LineQty), [l.qty]);
  }

  lemma GroupLinesSnoc(init: seq<Line>, l: Line)
    ensures GroupLines(init + [l]) == AddLine(GroupLines(init), l)
  {
    assert (init + [l])[..|init|] == init;
  }

  /** A group's order names are the distinct names of its lines, in
      first-seen order. */
  lemma {:induction false} GroupForNames(ls: seq<Line>, k: string)
    ensures GroupFor(GroupLines(ls), k).Some? ==>
      Map(GroupFor(GroupLines(ls), k).value.orders, NameOf) == Dedup(Map(LinesOf(ls, k), LineName))
    decreases |ls|
  {
    if |ls| > 0 {
      var init := ls[..|ls| - 1];
      var l := ls[|ls| - 1];
      assert ls == init + [l];
      GroupForNames(init, k);
      GroupForHead(init, k);
      GroupLinesSnoc(init, l);
      LinesOfSnoc(init, l, k);
      NamesStep(GroupLines(init), LinesOf(init, k), l, k);
    }
  }

  /** One line added: the names of the key's group follow the names of the
      key's lines. */
  lemma NamesStep(gs: seq<Group>, before: seq<Line>, l: Line, k: string)
    requires GroupFor(gs, k).Some? <==> |before| > 0
    requires GroupFor(gs, k).Some? ==> Map(GroupFor(gs, k).value.orders, NameOf) == Dedup(Map(before, LineName))
    ensures var after := before + (if l.key == k then [l] else []);
      GroupFor(AddLine(gs, l), k).Some? ==>
        Map(GroupFor(AddLine(gs, l), k).value.orders, NameOf) == Dedup(Map(after, LineName))
  {
    AddLineFor(gs, l, k);
    var p := GroupFor(gs, k);
    if l.key == k {
      var names := Map(before, LineName);
      MapAppend(before, [l], LineName);
      assert Map(before + [l], LineName) == names + [l.mark.name];
      DedupSnoc(names, l.mark.name);
      var prev := p.GetOr(New(l)).orders;
      if p.None? {
        assert names == [];
        assert Map(prev, NameOf) == [] == Dedup(names);
      }
      assert Map(prev, NameOf) == Dedup(names);
      assert GroupFor(AddLine(gs, l), k).value.orders == AddMark(prev, l.mark);
      assert l.mark.name in Map(prev, NameOf) <==> l.mark.name in names;
    } else {
      assert before + [] == before;
    }
  }

  /** An order's flags in a group agree with the group's lines `ls`. */
  predicate FlagsAgree(g: Option<Group>, ls: seq<Line>, n: string)
  {
    g.Some? ==>
      var m := MarkFor(g.value.orders, n);
      && (m.Some? ==> m.value.express == AnyExpress(ls, n) && m.value.aged == AnyOld(ls, n))
      && (m.None? ==> !AnyExpress(ls, n) && !AnyOld(ls, n))
  }

  /** The order flags are OR-accumulated: an order's entry in a group is
      flagged exactly when one of the group's lines of that order is. */
  lemma {:induction false} GroupFlags(ls: seq<Line>, k: string, n: string)
    ensures GroupFor(GroupLines(ls), k).Some? ==>
      var m := MarkFor(GroupFor(GroupLines(ls), k).value.orders, n);
      && (m.Some? ==> m.value.express == AnyExpress(LinesOf(ls, k), n) && m.value.aged == AnyOld(LinesOf(ls, k), n))
      && (m.None? ==> !AnyExpress(LinesOf(ls, k), n) && !AnyOld(LinesOf(ls, k), n))
    decreases |ls|
  {
    if |ls| > 0 {
      var init := ls[..|ls| - 1];
      var l := ls[|ls| - 1];
      assert ls == init + [l];
      GroupFlags(init, k, n);
      GroupForHead(init, k);
      GroupLinesSnoc(init, l);
      LinesOfSnoc(init, l, k);
      FlagsStep(GroupLines(init), LinesOf(init, k), l, k, n);
    }
  }

  /** One line added: the key's flags follow the key's lines. */
  lemma FlagsStep(gs: seq<Group>, before: seq<Line>, l: Line, k: string, n: string)
    requires GroupFor(gs, k).Some? <==> |before| > 0
    requires FlagsAgree(GroupFor(gs, k), before, n)
    ensures FlagsAgree(GroupFor(AddLine(gs, l), k), before + (if l.key == k then [l] else []), n)
  {
    AddLineFor(gs, l, k);
    if l.key == k {
      var after := before + [l];
      var g0 := GroupFor(gs, k).GetOr(New(l));
      AddMarkFor(g0.orders, l.mark, n);
      if GroupFor(gs, k).None? {
        assert MarkFor([], n) == None;
        assert before == [];
      }
      assert after[|before|] == l;
      AnySnoc(before, l, n);
    } else {
      assert before + [] == before;
    }
  }

  lemma AnySnoc(ls: seq<Line>, l: Line, n: string)
    ensures AnyExpress(ls + [l], n) <==> AnyExpress(ls, n) || (l.mark.name == n && l.mark.express)
    ensures AnyOld(ls + [l], n) <==> AnyOld(ls, n) || (l.mark.name == n && l.mark.aged)
  {
    var after := ls + [l];
    assert after[|ls|] == l;
    if AnyExpress(after, n) {
      var i :| 0 <= i < |after| && after[i].mark.name == n && after[i].mark.express;
      if i < |ls| { assert ls[i] == after[i]; }
    }
    if AnyExpress(ls, n) {
      var i :| 0 <= i < |ls| && ls[i].mark.name == n && ls[i].mark.express;
      assert after[i] == ls[i];
    }
    if AnyOld(after, n) {
      var i :| 0 <= i < |after| && after[i].mark.name == n && after[i].mark.aged;
      if i < |ls| { assert ls[i] == after[i]; }
    }
    if AnyOld(ls, n) {
      var i :| 0 <= i < |ls| && ls[i].mark.name == n && ls[i].mark.aged;
      assert after[i] == ls[i];
    }
  }

  /** Every key appears in exactly one group, in first-seen order. */
  lemma {:induction false} GroupKeys(ls: seq<Line>)
    ensures Map(GroupLines(ls), KeyOf) == Dedup(Map(ls, LineKey))
    decreases |ls|
  {
    if |ls| > 0 {
      var init := ls[..|ls| - 1];
      var l := ls[|ls| - 1];
      assert ls == init + [l];
      var gs := GroupLines(init);
      assert GroupLines(ls) == AddLine(gs, l);
      GroupKeys(init);
      MapAppend(init, [l], LineKey);
      assert Map(ls, LineKey) == Map(init, LineKey) + [l.key];
      DedupSnoc(Map(init, LineKey), l.key);
      assert l.key in Map(gs, KeyOf) <==> l.key in Map(init, LineKey);
    }
  }

  /** Each group in the output is the group of its own key. */
  lemma GroupOfMember(ls: seq<Line>, i: nat)
    requires i < |GroupLines(ls)|
    ensures GroupFor(GroupLines(ls), GroupLines(ls)[i].key) == Some(GroupLines(ls)[i])
  {
    var gs := GroupLines(ls);
    GroupKeys(ls);
    assert Distinct(Map(gs, KeyOf));
    forall j | 0 <= j < i
      ensures !KeyIs(gs[i].key)(gs[j])
    {
      assert Map(gs, KeyOf)[j] != Map(gs, KeyOf)[i];
    }
    FindFirstAt(gs, KeyIs(gs[i].key), i);
  }

  /** What each output group is, in terms of the lines alone. */
  lemma GroupMember(ls: seq<Line>, g: Group)
    requires g in GroupLines(ls)
    ensures |LinesOf(ls, g.key)| > 0
    ensures var first := LinesOf(ls, g.key)[0];
      g.sku == first.sku && g.title == first.title && g.variantTitle == first.variantTitle
    ensures g.image == FirstImage(LinesOf(ls, g.key))
    ensures g.total == Sum(Map(LinesOf(ls, g.key), LineQty))
    ensures Map(g.orders, NameOf) == Dedup(Map(LinesOf(ls, g.key), LineName))
  {
    var i :| 0 <= i < |GroupLines(ls)| && GroupLines(ls)[i] == g;
    GroupOfMember(ls, i);
    GroupForHead(ls, g.key);
    GroupForTotal(ls, g.key);
    GroupForNames(ls, g.key);
  }

  /** The flags of an output group's order entries, in terms of the lines. */
  lemma GroupMemberFlags(ls: seq<Line>, g: Group, n: string)
    requires g in GroupLines(ls)
    ensures var m := MarkFor(g.orders, n);
      && (m.Some? ==> m.value.express == AnyExpress(LinesOf(ls, g.key), n) && m.value.aged == AnyOld(LinesOf(ls, g.key), n))
      && (m.None? ==> !AnyExpress(LinesOf(ls, g.key), n) && !AnyOld(LinesOf(ls, g.key), n))
  {
    var i :| 0 <= i < |GroupLines(ls)| && GroupLines(ls)[i] == g;
    GroupOfMember(ls, i);
    GroupFlags(ls, g.key, n);
  }

  // ------------------------------------------------------------ ordering

  function Total(g: Group): int { g.total }

  /** Non-increasing in `w`. */
  predicate SortedDesc<T>(xs: seq<T>, w: T -> int)
  {
    forall i, j :: 0 <= i < j < |xs| ==> w(xs[i]) >= w(xs[j])
  }

  /** Every element of `ys` weighs at most `b` when every element of a
      permutation of it does. */
  lemma BoundedBy<T>(ys: seq<T>, zs: seq<T>, w: T -> int, b: int)
    requires multiset(ys) == multiset(zs)
    requires forall i :: 0 <= i < |zs| ==> w(zs[i]) <= b
    ensures forall i :: 0 <= i < |ys| ==> w(ys[i]) <= b
  {
    forall i | 0 <= i < |ys|
      ensures w(ys[i]) <= b
    {
      assert ys[i] in multiset(zs);
      var j :| 0 <= j < |zs| && zs[j] == ys[i];
    }
  }

  /** `x` placed before the first element weighing less, that is, after
      every element weighing at least as much. */
  function InsertDesc<T>(xs: seq<T>, x: T, w: T -> int): (r: seq<T>)
    requires SortedDesc(xs, w)
    ensures SortedDesc(r, w)
    ensures multiset(r) == multiset(xs) + multiset{x}
    ensures |r| == |xs| + 1
  {
    if |xs| == 0 then [x]
    else if w(xs[0]) >= w(x) then
      var t := InsertDesc(xs[1..], x, w);
      InsertDescHead(xs, x, w, t);
      [xs[0]] + t
    else
      InsertDescFront(xs, x, w);
      [x] + xs
  }

  /** The step of `InsertDesc` that keeps the head. */
  lemma InsertDescHead<T>(xs: seq<T>, x: T, w: T -> int, t: seq<T>)
    requires |xs| > 0 && SortedDesc(xs, w) && w(xs[0]) >= w(x)
    requires SortedDesc(t, w) && multiset(t) == multiset(xs[1..]) + multiset{x}
    ensures SortedDesc([xs[0]] + t, w)
    ensures multiset([xs[0]] + t) == multiset(xs) + multiset{x}
  {
    assert xs == [xs[0]] + xs[1..];
    BoundedBy(t, xs[1..] + [x], w, w(xs[0]));
  }

  /** The step of `InsertDesc` that puts `x` in front. */
  lemma InsertDescFront<T>(xs: seq<T>, x: T, w: T -> int)
    requires |xs| > 0 && SortedDesc(xs, w) && w(xs[0]) < w(x)
    ensures SortedDesc([x] + xs, w)
  {
  }

  /** `xs.sort((a, b) => w(b) - w(a))`: a stable sort, descending. */
  function SortDesc<T>(xs: seq<T>, w: T -> int): (r: seq<T>)
    ensures SortedDesc(r, w)
    ensures multiset(r) == multiset(xs)
    ensures |r| == |xs|
    decreases |xs|
  {
    if |xs| == 0 then []
    else
      var init := xs[..|xs| - 1];
      assert xs == init + [xs[|xs| - 1]];
      InsertDesc(SortDesc(init, w), xs[|xs| - 1], w)
  }

  /** Some occurrence of `a` comes before some occurrence of `b`. */
  ghost predicate Before<T>(xs: seq<T>, a: T, b: T)
  {
    exists i, j :: 0 <= i < j < |xs| && xs[i] == a && xs[j] == b
  }

  lemma InMultiset<T>(xs: seq<T>, x: T) returns (i: nat)
    requires x in multiset(xs)
    ensures i < |xs| && xs[i] == x
  {
    assert x in xs;
    i :| 0 <= i < |xs| && xs[i] == x;
  }

  /** Where the insertion puts `x`: after the elements that weigh at least
      as much, before the first lighter one. */
  lemma {:induction false} InsertDescSplit<T>(xs: seq<T>, x: T, w: T -> int) returns (p: nat)
    requires SortedDesc(xs, w)
    ensures p <= |xs|
    ensures InsertDesc(xs, x, w) == xs[..p] + [x] + xs[p..]
    ensures p < |xs| ==> w(xs[p]) < w(x)
    decreases |xs|
  {
    if |xs| == 0 {
      p := 0;
    } else if w(xs[0]) >= w(x) {
      var q := InsertDescSplit(xs[1..], x, w);
      p := q + 1;
      SplitCons(xs, q, x, InsertDesc(xs[1..], x, w));
    } else {
      p := 0;
    }
  }

  lemma SplitCons<T>(xs: seq<T>, q: nat, x: T, t: seq<T>)
    requires q < |xs| && t == xs[1..][..q] + [x] + xs[1..][q..]
    ensures [xs[0]] + t == xs[..q + 1] + [x] + xs[q + 1..]
  {
    assert xs[..q + 1] == [xs[0]] + xs[1..][..q];
    assert xs[q + 1..] == xs[1..][q..];
  }

  /** In a descending sequence, an element of weight at least `v` comes
      before a position whose element weighs less than `v`. */
  lemma HeavyBefore<T>(xs: seq<T>, w: T -> int, p: nat, v: int, i: nat)
    requires SortedDesc(xs, w) && p <= |xs| && i < |xs|
    requires p < |xs| ==> w(xs[p]) < v
    requires w(xs[i]) >= v
    ensures i < p
  {
  }

  /** Inserting keeps the relative order of what was there. */
  lemma InsertDescKeeps<T>(xs: seq<T>, x: T, w: T -> int, i: nat, j: nat)
    requires SortedDesc(xs, w) && i < j < |xs|
    ensures Before(InsertDesc(xs, x, w), xs[i], xs[j])
  {
    var p := InsertDescSplit(xs, x, w);
    SplitKeeps(xs, x, p, i, j);
  }

  lemma SplitKeeps<T>(xs: seq<T>, x: T, p: nat, i: nat, j: nat)
    requires p <= |xs| && i < j < |xs|
    ensures Before(xs[..p] + [x] + xs[p..], xs[i], xs[j])
  {
    var r := xs[..p] + [x] + xs[p..];
    var i2 := if i < p then i else i + 1;
    var j2 := if j < p then j else j + 1;
    assert r[i2] == xs[i] && r[j2] == xs[j];
  }

  lemma SplitAfter<T>(xs: seq<T>, x: T, p: nat, i: nat)
    requires i < p <= |xs|
    ensures Before(xs[..p] + [x] + xs[p..], xs[i], x)
  {
    var r := xs[..p] + [x] + xs[p..];
    assert r[i] == xs[i] && r[p] == x;
  }

  /** An inserted element lands after every element of at least its
      weight. */
  lemma InsertDescAfter<T>(xs: seq<T>, x: T, w: T -> int, i: nat)
    requires SortedDesc(xs, w) && i < |xs| && w(xs[i]) >= w(x)
    ensures Before(InsertDesc(xs, x, w), xs[i], x)
  {
    var p := InsertDescSplit(xs, x, w);
    HeavyBefore(xs, w, p, w(x), i);
    SplitAfter(xs, x, p, i);
  }

  /** The sort is stable: of two elements of equal weight, the earlier
      one in the input comes first in the output. */
  lemma {:induction false} SortDescStable<T>(xs: seq<T>, w: T -> int, a: nat, b: nat)
    requires a < b < |xs| && w(xs[a]) == w(xs[b])
    ensures Before(SortDesc(xs, w), xs[a], xs[b])
    decreases |xs|
  {
    var init := xs[..|xs| - 1];
    var x := xs[|xs| - 1];
    var s := SortDesc(init, w);
    assert SortDesc(xs, w) == InsertDesc(s, x, w);
    if b < |xs| - 1 {
      SortDescStable(init, w, a, b);
      var i, j :| 0 <= i < j < |s| && s[i] == init[a] && s[j] == init[b];
      InsertDescKeeps(s, x, w, i, j);
    } else {
      assert xs[a] in multiset(s) by { assert init[a] in multiset(init); }
      var i := InMultiset(s, xs[a]);
      InsertDescAfter(s, x, w, i);
    }
  }

  /** `.filter(x => x.TOTAL_QTY > 0)` */
  predicate Positive(g: Group) { g.total > 0 }
}
