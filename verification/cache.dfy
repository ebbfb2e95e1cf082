/** The process-wide response cache (api/lib/cache.js): a map from key to a
    value, an absolute expiry time in milliseconds (0 = never) and a set of
    tags used for bulk invalidation. The clock is a parameter. */
module Cache {
  import opened Wrappers
  import opened Seqs
  import opened JsText
  import opened Decimal

  /** Time-to-live used when the caller gives none. */
  const DefaultTtlMs := 30000

  datatype Entry<V> = Entry(value: V, exp: int, tags: set<string>)

  type Store<V> = map<string, Entry<V>>

  /** What `getCache` returns, together with the store it leaves behind. */
  datatype Read<V> = Read(value: Option<V>, store: Store<V>)

  /** An entry is stale once its (non-zero) expiry lies strictly in the past. */
  predicate Expired<V>(e: Entry<V>, now: int)
  {
    e.exp != 0 && e.exp < now
  }

  /** `getCache(key)` at time `now`: a stale entry reads as missing and is
      dropped from the store; nothing else changes. */
  function Get<V>(store: Store<V>, key: string, now: int): (r: Read<V>)
    ensures r.value.Some? <==> key in store && !Expired(store[key], now)
    ensures r.value.Some? ==> r.value.value == store[key].value
    ensures key in r.store <==> r.value.Some?
    ensures forall k :: k in store && k != key ==> k in r.store && r.store[k] == store[k]
    ensures forall k :: k in r.store ==> k in store && r.store[k] == store[k]
  {
    if key !in store then Read(None, store)
    else if Expired(store[key], now) then Read(None, store - {key})
    else Read(Some(store[key].value), store)
  }

  /** `setCache(key, value, ttlMs, tags)` at time `now`; a missing `ttlMs`
      is 30 s and a zero one never expires. */
  function Set<V>(store: Store<V>, key: string, value: V, ttlMs: Option<int>, tags: seq<string>, now: int): (r: Store<V>)
    ensures key in r && r[key].value == value
    ensures forall t :: t in r[key].tags <==> t in tags
    ensures r[key].exp == (if ttlMs.GetOr(DefaultTtlMs) == 0 then 0 else now + ttlMs.GetOr(DefaultTtlMs))
    ensures forall k :: k != key ==> (k in r <==> k in store) && (k in r ==> r[k] == store[k])
  {
    var ttl := ttlMs.GetOr(DefaultTtlMs);
    store[key := Entry(value, if ttl != 0 then now + ttl else 0, set t | t in tags)]
  }

  /** `delCache(key)` */
  function Del<V>(store: Store<V>, key: string): (r: Store<V>)
    ensures key !in r
    ensures forall k :: k != key ==> (k in r <==> k in store) && (k in r ==> r[k] == store[k])
  {
    store - {key}
  }

  /** `invalidateByTag(tag)` */
  function InvalidateByTag<V>(store: Store<V>, tag: string): (r: Store<V>)
    ensures forall k :: k in r <==> k in store && tag !in store[k].tags
    ensures forall k :: k in r ==> r[k] == store[k]
  {
    map k | k in store && tag !in store[k].tags :: store[k]
  }

  /** A value set with a positive time-to-live reads back until its expiry
      instant inclusive, and is gone (and dropped) strictly after it. */
  lemma SetThenGet<V>(store: Store<V>, key: string, value: V, ttlMs: int, tags: seq<string>, t0: int, now: int)
    requires t0 >= 0 && ttlMs > 0
    ensures var s := Set(store, key, value, Some(ttlMs), tags, t0);
      (now <= t0 + ttlMs ==> Get(s, key, now) == Read(Some(value), s))
      && (now > t0 + ttlMs ==> Get(s, key, now) == Read(None, store - {key}))
  {
    var s := Set(store, key, value, Some(ttlMs), tags, t0);
    assert s[key].exp == t0 + ttlMs;
    if now > t0 + ttlMs {
      assert Expired(s[key], now);
      assert s - {key} == store - {key};
    }
  }

  /** A zero time-to-live stores an entry that never expires. */
  lemma SetForever<V>(store: Store<V>, key: string, value: V, tags: seq<string>, t0: int, now: int)
    ensures var s := Set(store, key, value, Some(0), tags, t0);
      Get(s, key, now) == Read(Some(value), s)
  {
  }

  /** Setting a key twice keeps only the second value and tag set. */
  lemma SetOverwrites<V>(store: Store<V>, key: string, v1: V, v2: V, ttl1: Option<int>, ttl2: Option<int>,
                         tags1: seq<string>, tags2: seq<string>, t1: int, t2: int)
    ensures Set(Set(store, key, v1, ttl1, tags1, t1), key, v2, ttl2, tags2, t2) == Set(store, key, v2, ttl2, tags2, t2)
  {
  }

  /** After invalidating a tag no surviving entry carries it, and
      invalidating again changes nothing. */
  lemma InvalidateIdempotent<V>(store: Store<V>, tag: string)
    ensures forall k :: k in InvalidateByTag(store, tag) ==> tag !in InvalidateByTag(store, tag)[k].tags
    ensures InvalidateByTag(InvalidateByTag(store, tag), tag) == InvalidateByTag(store, tag)
  {
  }

  // --------------------------------------------------------------- keys

  /** A key part as the handlers pass it: text, a number, a flag or a
      missing value. */
  datatype Part = PText(s: string) | PNum(n: int) | PBool(b: bool) | PMissing

  /** JavaScript truthiness of a part: "", 0, false and missing are falsy. */
  predicate Truthy(p: Part)
  {
    match p
    case PText(s) => s != ""
    case PNum(n) => n != 0
    case PBool(b) => b
    case PMissing => false
  }

  /** `String(p)` */
  function PartText(p: Part): string
  {
    match p
    case PText(s) => s
    case PNum(n) => IntToString(n)
    case PBool(b) => if b then "true" else "false"
    case PMissing => ""
  }

  /** `k(parts)`: the truthy parts, joined with "|" and lower-cased. */
  function K(parts: seq<Part>): (r: string)
    ensures forall i :: 0 <= i < |r| ==> !('A' <= r[i] <= 'Z')
  {
    Lower(Join(Map(Filter(parts, Truthy), PartText), "|"))
  }

  lemma {:induction false} LowerJoin(xs: seq<string>, sep: string)
    ensures Lower(Join(xs, sep)) == Join(Map(xs, Lower), Lower(sep))
  {
    if |xs| > 1 {
      LowerJoin(xs[1..], sep);
      LowerAppend(xs[0] + sep, Join(xs[1..], sep));
      LowerAppend(xs[0], sep);
      assert Map(xs, Lower)[1..] == Map(xs[1..], Lower);
    }
  }

  /** Falsy parts never influence a key. */
  lemma KIgnoresFalsy(parts: seq<Part>, extra: seq<Part>)
    requires forall i :: 0 <= i < |extra| ==> !Truthy(extra[i])
    ensures K(parts + extra) == K(parts)
    ensures K(extra + parts) == K(parts)
  {
    FilterAppend(parts, extra, Truthy);
    FilterAppend(extra, parts, Truthy);
    FilterNone(extra, Truthy);
    assert Filter(parts, Truthy) + [] == Filter(parts, Truthy);
    assert [] + Filter(parts, Truthy) == Filter(parts, Truthy);
  }

  lemma PartsNoBar(parts: seq<Part>)
    requires forall i :: 0 <= i < |parts| ==> '|' !in PartText(parts[i])
    ensures forall j :: 0 <= j < |Map(Map(Filter(parts, Truthy), PartText), Lower)| ==>
      '|' !in Map(Map(Filter(parts, Truthy), PartText), Lower)[j]
  {
    var kept := Filter(parts, Truthy);
    var texts := Map(kept, PartText);
    forall j | 0 <= j < |texts|
      ensures '|' !in Lower(texts[j])
    {
      assert kept[j] in parts;
      LowerKeepsOut(texts[j], '|');
    }
  }

  /** A key splits back on "|" into its truthy parts, lower-cased, provided
      no part contains "|" itself. */
  lemma KAsJoin(parts: seq<Part>)
    ensures K(parts) == Join(Map(Map(Filter(parts, Truthy), PartText), Lower), "|")
  {
    LowerJoin(Map(Filter(parts, Truthy), PartText), "|");
    assert Lower("|") == "|";
  }

  lemma KSplit(parts: seq<Part>)
    requires exists i :: 0 <= i < |parts| && Truthy(parts[i])
    requires forall i :: 0 <= i < |parts| ==> '|' !in PartText(parts[i])
    ensures Split(K(parts), '|') == Map(Map(Filter(parts, Truthy), PartText), Lower)
  {
    var lowered := Map(Map(Filter(parts, Truthy), PartText), Lower);
    var i :| 0 <= i < |parts| && Truthy(parts[i]);
    assert parts[i] in Filter(parts, Truthy);
    KAsJoin(parts);
    PartsNoBar(parts);
    SplitJoin(lowered, '|');
  }
}
