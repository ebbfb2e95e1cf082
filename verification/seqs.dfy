/** Generic sequence helpers: order-preserving filter, membership-preserving
    de-duplication, integer sums and JavaScript's `Array.prototype.slice`. */
module Seqs {
  import opened Wrappers

  /** `xs.filter(p)`: the elements satisfying `p`, in their original order. */
  function Filter<T(!new)>(xs: seq<T>, p: T -> bool): (r: seq<T>)
    ensures |r| <= |xs|
    ensures forall x :: x in r <==> x in xs && p(x)
    ensures forall i :: 0 <= i < |r| ==> p(r[i])
  {
    if |xs| == 0 then []
    else if p(xs[0]) then [xs[0]] + Filter(xs[1..], p)
    else Filter(xs[1..], p)
  }

  /** An element the filter keeps keeps its number of occurrences. */
  lemma {:induction false} FilterCount<T(!new)>(xs: seq<T>, p: T -> bool, x: T)
    ensures multiset(Filter(xs, p))[x] == if p(x) then multiset(xs)[x] else 0
  {
    if |xs| > 0 {
      assert xs == [xs[0]] + xs[1..];
      FilterCount(xs[1..], p, x);
    }
  }

  lemma SplitLast<T>(xs: seq<T>)
    requires |xs| > 0
    ensures xs[..|xs| - 1] + [xs[|xs| - 1]] == xs
  {
  }

  lemma FilterAppend<T(!new)>(xs: seq<T>, ys: seq<T>, p: T -> bool)
    ensures Filter(xs + ys, p) == Filter(xs, p) + Filter(ys, p)
  {
    if |xs| == 0 {
      assert xs + ys == ys;
    } else {
      assert (xs + ys)[1..] == xs[1..] + ys;
      FilterAppend(xs[1..], ys, p);
    }
  }

  /** Filtering by a predicate every element satisfies changes nothing. */
  lemma FilterAll<T(!new)>(xs: seq<T>, p: T -> bool)
    requires forall i :: 0 <= i < |xs| ==> p(xs[i])
    ensures Filter(xs, p) == xs
  {
    if |xs| > 0 {
      FilterAll(xs[1..], p);
    }
  }

  /** Filtering by a predicate no element satisfies leaves nothing. */
  lemma FilterNone<T(!new)>(xs: seq<T>, p: T -> bool)
    requires forall i :: 0 <= i < |xs| ==> !p(xs[i])
    ensures Filter(xs, p) == []
  {
    if |xs| > 0 {
      FilterNone(xs[1..], p);
    }
  }

  /** Filtering twice by the same predicate is filtering once. */
  lemma FilterIdempotent<T(!new)>(xs: seq<T>, p: T -> bool)
    ensures Filter(Filter(xs, p), p) == Filter(xs, p)
  {
    FilterAll(Filter(xs, p), p);
  }

  /** `xs.map(f)` */
  function Map<A, B>(xs: seq<A>, f: A -> B): (r: seq<B>)
    ensures |r| == |xs|
    ensures forall i :: 0 <= i < |xs| ==> r[i] == f(xs[i])
  {
    seq(|xs|, i requires 0 <= i < |xs| => f(xs[i]))
  }

  /** The images of the kept elements are exactly the images of the
      elements satisfying `p`. */
  lemma MapFilterMembers<A(!new), B>(xs: seq<A>, p: A -> bool, f: A -> B)
    ensures forall y :: y in Map(Filter(xs, p), f) ==> exists x :: x in xs && p(x) && y == f(x)
    ensures forall x :: x in xs && p(x) ==> f(x) in Map(Filter(xs, p), f)
  {
    var kept := Filter(xs, p);
    var ys := Map(kept, f);
    forall y | y in ys
      ensures exists x :: x in xs && p(x) && y == f(x)
    {
      var i :| 0 <= i < |ys| && ys[i] == y;
      assert kept[i] in kept;
    }
    forall x | x in xs && p(x)
      ensures f(x) in ys
    {
      var i :| 0 <= i < |kept| && kept[i] == x;
      assert ys[i] == f(x);
    }
  }

  lemma MapAppend<A, B>(xs: seq<A>, ys: seq<A>, f: A -> B)
    ensures Map(xs + ys, f) == Map(xs, f) + Map(ys, f)
  {
  }

  /** `xs.findIndex(p)`, with -1 written `None`: the first index whose
      element satisfies `p`. */
  function FindFirst<T>(xs: seq<T>, p: T -> bool): (r: Option<nat>)
    ensures r.Some? ==> r.value < |xs| && p(xs[r.value])
    ensures r.Some? ==> forall j :: 0 <= j < r.value ==> !p(xs[j])
    ensures r.None? ==> forall j :: 0 <= j < |xs| ==> !p(xs[j])
  {
    if |xs| == 0 then None
    else if p(xs[0]) then Some(0)
    else match FindFirst(xs[1..], p)
      case None => None
      case Some(j) => Some(j + 1)
  }

  /** The first index satisfying `p` is the one `FindFirst` returns. */
  lemma FindFirstAt<T>(xs: seq<T>, p: T -> bool, i: nat)
    requires i < |xs| && p(xs[i])
    requires forall j :: 0 <= j < i ==> !p(xs[j])
    ensures FindFirst(xs, p) == Some(i)
  {
  }

  /** Past a first element not satisfying `p`, the search moves on to the
      rest, one index further. */
  lemma FindFirstSkip<T>(xs: seq<T>, p: T -> bool)
    requires |xs| > 0 && !p(xs[0])
    ensures FindFirst(xs, p) == match FindFirst(xs[1..], p) case None => None case Some(j) => Some(j + 1)
  {
  }

  /** Number of elements satisfying `p`. */
  function Count<T(!new)>(xs: seq<T>, p: T -> bool): nat
  {
    |Filter(xs, p)|
  }

  function Sum(xs: seq<int>): int
  {
    if |xs| == 0 then 0 else xs[0] + Sum(xs[1..])
  }

  lemma SumAppend(xs: seq<int>, ys: seq<int>)
    ensures Sum(xs + ys) == Sum(xs) + Sum(ys)
  {
    if |xs| == 0 {
      assert xs + ys == ys;
    } else {
      assert (xs + ys)[1..] == xs[1..] + ys;
      SumAppend(xs[1..], ys);
    }
  }

  /** No element occurs twice. */
  ghost predicate Distinct<T>(xs: seq<T>)
  {
    forall i, j :: 0 <= i < j < |xs| ==> xs[i] != xs[j]
  }

  /** `[...new Set(xs)]`: the distinct elements in first-appearance order. */
  function Dedup<T(==,!new)>(xs: seq<T>): (r: seq<T>)
    ensures Distinct(r)
    ensures forall x :: x in r <==> x in xs
    ensures |r| <= |xs|
  {
    DedupFrom([], xs)
  }

  function DedupFrom<T(==,!new)>(seen: seq<T>, xs: seq<T>): (r: seq<T>)
    requires Distinct(seen)
    ensures Distinct(r)
    ensures forall x :: x in r <==> x in seen || x in xs
    ensures seen <= r
    ensures |r| <= |seen| + |xs|
    decreases |xs|
  {
    if |xs| == 0 then seen
    else if xs[0] in seen then DedupFrom(seen, xs[1..])
    else DedupFrom(seen + [xs[0]], xs[1..])
  }

  /** Adding one element at the end of the input adds it at the end of
      the de-duplicated output exactly when it is new. */
  lemma {:induction false} DedupFromSnoc<T(!new)>(seen: seq<T>, xs: seq<T>, x: T)
    requires Distinct(seen)
    ensures DedupFrom(seen, xs + [x]) == DedupFrom(seen, xs) + (if x in DedupFrom(seen, xs) then [] else [x])
    decreases |xs|
  {
    if |xs| > 0 {
      assert (xs + [x])[0] == xs[0];
      assert (xs + [x])[1..] == xs[1..] + [x];
      if xs[0] in seen {
        DedupFromSnoc(seen, xs[1..], x);
      } else {
        DedupFromSnoc(seen + [xs[0]], xs[1..], x);
      }
    }
  }

  lemma DedupSnoc<T(!new)>(xs: seq<T>, x: T)
    ensures Dedup(xs + [x]) == Dedup(xs) + (if x in xs then [] else [x])
  {
    DedupFromSnoc([], xs, x);
  }

  /** `xs.flat()`, or a loop of `all.push(...part)`. */
  function Flatten<T(!new)>(xss: seq<seq<T>>): (r: seq<T>)
    ensures forall x :: x in r <==> exists i :: 0 <= i < |xss| && x in xss[i]
  {
    if |xss| == 0 then [] else xss[0] + Flatten(xss[1..])
  }

  /** `xs.slice(-n)` for n >= 0: the last `n` elements (all when fewer). */
  function LastN<T>(xs: seq<T>, n: nat): (r: seq<T>)
    ensures |r| == if |xs| < n then |xs| else n
    ensures r == xs[|xs| - |r|..]
  {
    if |xs| <= n then xs else xs[|xs| - n..]
  }

  /** JavaScript's index normalisation for `slice`: a negative index counts
      from the end, and the result is clamped to `[0, len]`. */
  function RelIndex(i: int, len: nat): (r: nat)
    ensures r <= len
    ensures 0 <= i <= len ==> r == i
    ensures i > len ==> r == len
  {
    if i < 0 then (if len + i < 0 then 0 else len + i)
    else if i > len then len
    else i
  }

  /** `xs.slice(start, end)` with integer (already converted) arguments. */
  function JsSlice<T>(xs: seq<T>, start: int, end: int): (r: seq<T>)
    ensures 0 <= start <= end <= |xs| ==> r == xs[start..end]
    ensures 0 <= end <= start ==> r == []
  {
    var s := RelIndex(start, |xs|);
    var e := RelIndex(end, |xs|);
    if e <= s then [] else xs[s..e]
  }
  /** Filtering then mapping, one element at a time from the front. */
  lemma FilterMapCons<A(!new), B>(xs: seq<A>, p: A -> bool, f: A -> B)
    requires |xs| > 0
    ensures Map(Filter(xs, p), f) == (if p(xs[0]) then [f(xs[0])] else []) + Map(Filter(xs[1..], p), f)
  {
    var rest := Filter(xs[1..], p);
    if p(xs[0]) {
      assert Filter(xs, p) == [xs[0]] + rest;
      MapAppend([xs[0]], rest, f);
    } else {
      assert Filter(xs, p) == rest;
    }
  }

  /** With `0 <= start <= end`, `slice` clamps both ends to the length. */
  lemma JsSliceClamped<T>(xs: seq<T>, start: int, end: int)
    requires 0 <= start <= end
    ensures JsSlice(xs, start, end)
      == xs[if start <= |xs| then start else |xs|..if end <= |xs| then end else |xs|]
  {
  }

  /** `xs.slice(0, n)` for n >= 0: the first `n` elements (all when fewer);
      also SQL's `LIMIT n`. */
  function Take<T>(xs: seq<T>, n: nat): (r: seq<T>)
    ensures |r| == if |xs| < n then |xs| else n
    ensures r == xs[..|r|]
  {
    if |xs| <= n then xs else xs[..n]
  }
  /** The images under `f` of the elements satisfying `p`, kept when the
      image satisfies `q`, in order: a filter, map and filter in one pass. */
  function SelectMap<A, B>(xs: seq<A>, p: A -> bool, f: A -> B, q: B -> bool): seq<B>
  {
    if |xs| == 0 then []
    else if p(xs[0]) && q(f(xs[0])) then [f(xs[0])] + SelectMap(xs[1..], p, f, q)
    else SelectMap(xs[1..], p, f, q)
  }

  lemma {:induction false} FilterMapFilter<A(!new), B(!new)>(xs: seq<A>, p: A -> bool, f: A -> B, q: B -> bool)
    ensures Filter(Map(Filter(xs, p), f), q) == SelectMap(xs, p, f, q)
  {
    if |xs| > 0 {
      FilterMapFilter(xs[1..], p, f, q);
      var kept := Filter(xs, p);
      var rest := Filter(xs[1..], p);
      if p(xs[0]) {
        assert kept == [xs[0]] + rest;
        assert Map(kept, f) == [f(xs[0])] + Map(rest, f);
        assert Map(kept, f)[1..] == Map(rest, f);
      } else {
        assert kept == rest;
      }
    }
  }

  /** `xs.find(p)` read through `f`, with `none` when no element satisfies
      `p`: the image of the first element satisfying `p`. */
  function FirstOr<T, V>(xs: seq<T>, p: T -> bool, f: T -> V, none: V): (r: V)
    ensures (forall i :: 0 <= i < |xs| ==> !p(xs[i])) ==> r == none
    ensures forall i :: (0 <= i < |xs| && p(xs[i]) && forall j :: 0 <= j < i ==> !p(xs[j])) ==> r == f(xs[i])
    ensures r == none || exists i :: 0 <= i < |xs| && r == f(xs[i])
  {
    match FindFirst(xs, p)
    case None => none
    case Some(i) => f(xs[i])
  }

  /** The values of the `Some` entries, in order. */
  function Somes<T(!new)>(xs: seq<Option<T>>): (r: seq<T>)
    ensures |r| <= |xs|
    ensures forall i :: 0 <= i < |xs| && xs[i].Some? ==> xs[i].value in r
    ensures forall x :: x in r ==> Some(x) in xs
  {
    if |xs| == 0 then []
    else
      var rest := Somes(xs[1..]);
      assert forall x :: Some(x) in xs[1..] ==> Some(x) in xs;
      match xs[0]
      case None => rest
      case Some(x) => [x] + rest
  }
}
