/** The stock import (`server/lib/routes/inventory.js`, `POST /import`): the
    uploaded stock sheet is read into rows, quantities are summed per
    `title|color|size` key, each key is matched against the catalogue's key
    lookup, and the matched quantities overwrite the stock table in chunks
    of 500 upserts. */
module StockImport {
  import opened Wrappers
  import opened Seqs
  import opened JsText
  import Catalog
  import StockCsv

  /** Upserts per statement. */
  const ChunkSize: nat := 500

  /** Unmatched keys reported back. */
  const SampleSize: nat := 50

  // -------------------------------------------------------- aggregation

  /** A row reduced to its matching key and quantity. */
  datatype Entry = Entry(key: string, qty: int)

  function KeyOf(e: Entry): string { e.key }

  function EntryOf(r: StockCsv.StockRow): Entry
  {
    Entry(Catalog.MakeKey(r.title, r.color, r.size), r.qty)
  }

  function Entries(rows: seq<StockCsv.StockRow>): (r: seq<Entry>)
    ensures |r| == |rows|
  {
    Map(rows, EntryOf)
  }

  /** The keys of `es` in first-appearance order: the iteration order of
      the `agg` map. */
  function KeysOf(es: seq<Entry>): (r: seq<string>)
    ensures Distinct(r)
    ensures forall k :: k in r <==> k in Map(es, KeyOf)
  {
    Dedup(Map(es, KeyOf))
  }

  /** The summed quantity of key `k`. */
  function Total(es: seq<Entry>, k: string): int
  {
    if |es| == 0 then 0
    else Total(es[..|es| - 1], k) + (if es[|es| - 1].key == k then es[|es| - 1].qty else 0)
  }

  /** The `agg` map: each key of `es` to its summed quantity. */
  function Totals(es: seq<Entry>): (r: map<string, int>)
    ensures forall k :: k in r <==> k in Map(es, KeyOf)
  {
    map k | k in Map(es, KeyOf) :: Total(es, k)
  }

  lemma KeysSnoc(es: seq<Entry>, e: Entry)
    ensures KeysOf(es + [e]) == KeysOf(es) + (if e.key in Map(es, KeyOf) then [] else [e.key])
  {
    assert Map(es + [e], KeyOf) == Map(es, KeyOf) + [e.key];
    DedupSnoc(Map(es, KeyOf), e.key);
  }

  lemma TotalSnoc(es: seq<Entry>, e: Entry, k: string)
    ensures Total(es + [e], k) == Total(es, k) + (if e.key == k then e.qty else 0)
  {
    assert (es + [e])[..|es|] == es;
  }

  /** Adding a row adds its quantity to its key's sum, starting from 0 for a
      new key. */
  lemma TotalsSnoc(es: seq<Entry>, e: Entry)
    ensures Totals(es + [e])
      == Totals(es)[e.key := (if e.key in Totals(es) then Totals(es)[e.key] else 0) + e.qty]
  {
    assert Map(es + [e], KeyOf) == Map(es, KeyOf) + [e.key];
    forall k | k in Map(es + [e], KeyOf)
      ensures Totals(es + [e])[k] == Total(es, k) + (if e.key == k then e.qty else 0)
    {
      TotalSnoc(es, e, k);
    }
    if e.key !in Map(es, KeyOf) {
      TotalAbsent(es, e.key);
    }
  }

  /** The loop that fills `agg`: a key seen for the first time is appended,
      and every row adds its quantity to its key's sum. */
  method Aggregate(es: seq<Entry>) returns (keys: seq<string>, sums: map<string, int>)
    ensures keys == KeysOf(es)
    ensures sums == Totals(es)
  {
    keys := [];
    sums := map[];
    var i := 0;
    while i < |es|
      invariant i <= |es|
      invariant keys == KeysOf(es[..i])
      invariant sums == Totals(es[..i])
    {
      var e := es[i];
      assert es[..i + 1] == es[..i] + [e];
      KeysSnoc(es[..i], e);
      TotalsSnoc(es[..i], e);
      var prev := if e.key in sums then sums[e.key] else 0;
      if e.key !in sums {
        keys := keys + [e.key];
      }
      sums := sums[e.key := prev + e.qty];
      i := i + 1;
    }
    assert es[..i] == es;
  }

  /** A key that does not occur sums to 0. */
  lemma {:induction false} TotalAbsent(es: seq<Entry>, k: string)
    requires k !in Map(es, KeyOf)
    ensures Total(es, k) == 0
  {
    if |es| > 0 {
      var init := es[..|es| - 1];
      assert Map(es, KeyOf) == Map(init, KeyOf) + [es[|es| - 1].key];
      TotalAbsent(init, k);
    }
  }

  /** The summed quantities of the keys `ks`. */
  function SumTotals(ks: seq<string>, es: seq<Entry>): int
  {
    if |ks| == 0 then 0 else Total(es, ks[0]) + SumTotals(ks[1..], es)
  }

  /** The quantities of all entries. */
  function SumQty(es: seq<Entry>): int
  {
    if |es| == 0 then 0 else SumQty(es[..|es| - 1]) + es[|es| - 1].qty
  }

  lemma {:induction false} SumTotalsSnocEntry(ks: seq<string>, es: seq<Entry>, e: Entry)
    requires Distinct(ks)
    ensures SumTotals(ks, es + [e]) == SumTotals(ks, es) + (if e.key in ks then e.qty else 0)
  {
    if |ks| > 0 {
      TotalSnoc(es, e, ks[0]);
      assert Distinct(ks[1..]);
      SumTotalsSnocEntry(ks[1..], es, e);
      assert e.key in ks <==> e.key == ks[0] || e.key in ks[1..];
      assert e.key == ks[0] ==> e.key !in ks[1..];
    }
  }

  lemma {:induction false} SumTotalsSnocKey(ks: seq<string>, k: string, es: seq<Entry>)
    ensures SumTotals(ks + [k], es) == SumTotals(ks, es) + Total(es, k)
  {
    if |ks| > 0 {
      assert (ks + [k])[1..] == ks[1..] + [k];
      SumTotalsSnocKey(ks[1..], k, es);
    }
  }

  /** Summing per key neither loses nor invents quantity: the sums over the
      distinct keys add up to the sum over all rows. */
  lemma {:induction false} AggregateConserves(es: seq<Entry>)
    ensures SumTotals(KeysOf(es), es) == SumQty(es)
  {
    if |es| > 0 {
      var init := es[..|es| - 1];
      var e := es[|es| - 1];
      assert es == init + [e];
      AggregateConserves(init);
      KeysSnoc(init, e);
      var ks := KeysOf(init);
      SumTotalsSnocEntry(ks, init, e);
      assert SumQty(es) == SumQty(init) + e.qty;
      if e.key in Map(init, KeyOf) {
        assert e.key in ks;
        assert KeysOf(es) == ks;
        assert SumTotals(ks, es) == SumTotals(ks, init) + e.qty;
      } else {
        assert e.key !in ks;
        assert KeysOf(es) == ks + [e.key];
        SumTotalsSnocKey(ks, e.key, es);
        TotalSnoc(init, e, e.key);
        TotalAbsent(init, e.key);
        assert SumTotals(ks, es) == SumTotals(ks, init);
      }
    }
  }

  // ----------------------------------------------------------- matching

  /** One upsert: `{ variant_id, qty }`. */
  datatype StockItem = StockItem(variantId: string, qty: int)

  /** One entry of `unmatched`: the key split back on `|`. */
  datatype Unmatched = Unmatched(productTitle: string, color: string, size: string, qty: int)

  /** `const [title, color, size] = key.split("|")`, with a missing part
      read as "". */
  function UnmatchedOf(key: string, qty: int): Unmatched
  {
    var parts := Split(key, '|');
    Unmatched(parts[0], if |parts| > 1 then parts[1] else "", if |parts| > 2 then parts[2] else "", qty)
  }

  /** An unmatched key reports the normal forms of the row's title, colour
      and size, provided none of them holds a `|`. */
  lemma UnmatchedNames(title: string, color: string, size: string, qty: int)
    requires '|' !in title && '|' !in color && '|' !in size
    ensures UnmatchedOf(Catalog.MakeKey(title, color, size), qty)
      == Unmatched(Catalog.Norm(title), Catalog.Norm(color), Catalog.Norm(size), qty)
  {
    Catalog.KeySplit(title, color, size);
  }

  datatype Plan = Plan(items: seq<StockItem>, unmatched: seq<Unmatched>)

  /** The matching loop over the `agg` entries: a key in the lookup becomes
      an upsert of its variant, any other key an unmatched entry. */
  function Partition(keys: seq<string>, sums: map<string, int>, lookup: map<string, Catalog.Item>): (r: Plan)
    ensures |r.items| + |r.unmatched| == |keys|
  {
    if |keys| == 0 then Plan([], [])
    else
      var rest := Partition(keys[1..], sums, lookup);
      var k := keys[0];
      var qty := if k in sums then sums[k] else 0;
      if k in lookup then Plan([StockItem(lookup[k].variantId, qty)] + rest.items, rest.unmatched)
      else Plan(rest.items, [UnmatchedOf(k, qty)] + rest.unmatched)
  }

  function Known(lookup: map<string, Catalog.Item>): string -> bool
  {
    (k: string) => k in lookup
  }

  function Unknown(lookup: map<string, Catalog.Item>): string -> bool
  {
    (k: string) => k !in lookup
  }

  /** The upsert of a key. */
  function ItemFor(sums: map<string, int>, lookup: map<string, Catalog.Item>): string -> StockItem
  {
    (k: string) => StockItem(if k in lookup then lookup[k].variantId else "", if k in sums then sums[k] else 0)
  }

  /** The unmatched entry of a key. */
  function UnmatchedFor(sums: map<string, int>): string -> Unmatched
  {
    (k: string) => UnmatchedOf(k, if k in sums then sums[k] else 0)
  }

  lemma PartitionCons(keys: seq<string>, sums: map<string, int>, lookup: map<string, Catalog.Item>)
    requires |keys| > 0
    ensures var rest := Partition(keys[1..], sums, lookup);
      Partition(keys, sums, lookup) ==
        if keys[0] in lookup then Plan([ItemFor(sums, lookup)(keys[0])] + rest.items, rest.unmatched)
        else Plan(rest.items, [UnmatchedFor(sums)(keys[0])] + rest.unmatched)
  {
  }

  /** The one-pass loop agrees with filtering the keys twice: the upserts
      are the known keys in order, the unmatched entries the unknown keys in
      order. */
  lemma {:induction false} PartitionFilters(keys: seq<string>, sums: map<string, int>, lookup: map<string, Catalog.Item>)
    ensures Partition(keys, sums, lookup).items == Map(Filter(keys, Known(lookup)), ItemFor(sums, lookup))
    ensures Partition(keys, sums, lookup).unmatched == Map(Filter(keys, Unknown(lookup)), UnmatchedFor(sums))
  {
    if |keys| > 0 {
      PartitionFilters(keys[1..], sums, lookup);
      PartitionCons(keys, sums, lookup);
      FilterMapCons(keys, Known(lookup), ItemFor(sums, lookup));
      FilterMapCons(keys, Unknown(lookup), UnmatchedFor(sums));
    }
  }

  /** The plan of the aggregated entries against the key lookup. */
  function PlanOf(es: seq<Entry>, lookup: map<string, Catalog.Item>): Plan
  {
    Partition(KeysOf(es), Totals(es), lookup)
  }

  // ------------------------------------------------------------ upserts

  /** The stock table after upserting `items` in order: each upsert sets its
      variant's quantity, whether the row existed or not. */
  function ApplyItems(stock: map<string, int>, items: seq<StockItem>): map<string, int>
  {
    if |items| == 0 then stock
    else ApplyItems(stock, items[..|items| - 1])[items[|items| - 1].variantId := items[|items| - 1].qty]
  }

  lemma {:induction false} ApplyItemsAppend(stock: map<string, int>, a: seq<StockItem>, b: seq<StockItem>)
    ensures ApplyItems(stock, a + b) == ApplyItems(ApplyItems(stock, a), b)
  {
    if |b| == 0 {
      assert a + b == a;
    } else {
      var binit := b[..|b| - 1];
      assert (a + b)[..|a + b| - 1] == a + binit;
      ApplyItemsAppend(stock, a, binit);
    }
  }

  /** A variant no upsert names is left as it was: present with its old
      quantity, or absent. */
  lemma {:induction false} ApplyItemsUntouched(stock: map<string, int>, items: seq<StockItem>, v: string)
    requires forall i :: 0 <= i < |items| ==> items[i].variantId != v
    ensures v in ApplyItems(stock, items) <==> v in stock
    ensures v in stock ==> ApplyItems(stock, items)[v] == stock[v]
  {
    if |items| > 0 {
      ApplyItemsUntouched(stock, items[..|items| - 1], v);
    }
  }

  /** A variant ends with the quantity of the last upsert that names it. */
  lemma {:induction false} ApplyItemsLastWins(stock: map<string, int>, items: seq<StockItem>, i: nat)
    requires i < |items|
    requires forall j :: i < j < |items| ==> items[j].variantId != items[i].variantId
    ensures items[i].variantId in ApplyItems(stock, items)
    ensures ApplyItems(stock, items)[items[i].variantId] == items[i].qty
  {
    if i < |items| - 1 {
      ApplyItemsLastWins(stock, items[..|items| - 1], i);
    }
  }

  /** The chunked upsert loop: chunk `c` covers `items[500c..500c+500]`; the
      statement of chunk `failAt` fails (a database error), which ends the
      loop with the earlier chunks already written. */
  method Upsert(stock: map<string, int>, items: seq<StockItem>, failAt: Option<nat>)
    returns (after: map<string, int>, matched: nat, failed: bool)
    ensures matched <= |items|
    ensures after == ApplyItems(stock, items[..matched])
    ensures failed <==> failAt.Some? && ChunkSize * failAt.value < |items|
    ensures failed ==> matched == ChunkSize * failAt.value
    ensures !failed ==> matched == |items|
  {
    after := stock;
    matched := 0;
    failed := false;
    var i := 0;
    var c := 0;
    while i < |items|
      invariant i == ChunkSize * c
      invariant matched == if i < |items| then i else |items|
      invariant after == ApplyItems(stock, items[..matched])
      invariant failAt.Some? ==> failAt.value >= c
    {
      var chunk := JsSlice(items, i, i + ChunkSize);
      if failAt == Some(c) {
        failed := true;
        return;
      }
      var end := if i + ChunkSize <= |items| then i + ChunkSize else |items|;
      assert chunk == items[i..end];
      assert items[..end] == items[..i] + chunk;
      ApplyItemsAppend(stock, items[..i], chunk);
      after := ApplyItems(after, chunk);
      matched := matched + |chunk|;
      i := i + ChunkSize;
      c := c + 1;
    }
  }

  // ------------------------------------------------------------- import

  datatype Report = Report(
    totalRowsParsed: nat, uniqueKeys: nat, matched: nat,
    unmatchedCount: nat, unmatchedSample: seq<Unmatched>)

  /** The answer (`ok` with the report or `bad` with the message) and the
      stock table as the request leaves it. */
  datatype Response = Response(result: Result<Report>, stock: map<string, int>)

  /** What a request that reaches the upserts answers, given the entries
      of its rows: with no failing statement, every upsert is written and
      the report counts the keys; a failing statement leaves the earlier
      chunks written and answers its message. */
  predicate Reported(r: Response, es: seq<Entry>, lookup: map<string, Catalog.Item>, stock: map<string, int>,
                     failAt: Option<nat>, dbError: string)
  {
    var plan := PlanOf(es, lookup);
    if failAt.Some? && ChunkSize * failAt.value < |plan.items| then
      r == Response(Err(dbError), ApplyItems(stock, plan.items[..ChunkSize * failAt.value]))
    else
      r == Response(Ok(Report(|es|, |KeysOf(es)|, |plan.items|, |plan.unmatched|, Take(plan.unmatched, SampleSize))),
                    ApplyItems(stock, plan.items))
  }

  /** Steps 3 and 4 of the handler over the entries of the parsed rows:
      aggregate, match, upsert, report; `dbError` is the message of the
      failing statement. */
  method ImportEntries(es: seq<Entry>, lookup: map<string, Catalog.Item>, stock: map<string, int>,
                       failAt: Option<nat>, dbError: string) returns (r: Response)
    ensures Reported(r, es, lookup, stock, failAt, dbError)
    ensures r.result.Ok? ==>
      (r.result.value.matched + r.result.value.unmatchedCount == r.result.value.uniqueKeys
       && r.result.value.uniqueKeys <= r.result.value.totalRowsParsed
       && |r.result.value.unmatchedSample| <= SampleSize)
  {
    var keys, sums := Aggregate(es);
    var plan := Partition(keys, sums, lookup);
    assert plan == PlanOf(es, lookup);
    var after, matched, failed := Upsert(stock, plan.items, failAt);
    if failed {
      r := Response(Err(dbError), after);
    } else {
      r := Response(Ok(Report(|es|, |keys|, matched, |plan.unmatched|, Take(plan.unmatched, SampleSize))), after);
      assert plan.items[..matched] == plan.items;
      assert |KeysOf(es)| <= |Map(es, KeyOf)|;
    }
  }

  /** The handler with the shop whose catalogue the sheet is matched
      against: a missing upload or shop is an error that writes nothing;
      `nodes` is the shop's variant listing. */
  method Import(file: Option<seq<seq<string>>>, shopDomain: string, nodes: seq<Catalog.Node>,
                stock: map<string, int>, failAt: Option<nat>, dbError: string) returns (r: Response)
    ensures file.None? ==> r == Response(Err("Missing file"), stock)
    ensures file.Some? && shopDomain == "" ==> r == Response(Err("Missing shopDomain"), stock)
    ensures file.Some? && shopDomain != "" && failAt.None? ==> r.result.Ok?
    ensures file.Some? && shopDomain != "" ==>
      var ys := StockCsv.Yields(file.value);
      Reported(r, Entries(StockCsv.Joined(ys[..StockCsv.StopPoint(ys)])),
               Catalog.VariantLookup(Catalog.LooksLikeSize, shopDomain, nodes).value.byKey, stock, failAt, dbError)
    ensures r.result.Ok? ==>
      (r.result.value.matched + r.result.value.unmatchedCount == r.result.value.uniqueKeys
       && r.result.value.uniqueKeys <= r.result.value.totalRowsParsed
       && |r.result.value.unmatchedSample| <= SampleSize)
  {
    if file.None? {
      return Response(Err("Missing file"), stock);
    }
    var lookup := Catalog.VariantLookup(Catalog.LooksLikeSize, shopDomain, nodes);
    if lookup.Err? {
      return Response(Err(lookup.error), stock);
    }
    var rows, read, stoppedEarly := StockCsv.Parse(file.value);
    r := ImportEntries(Entries(rows), lookup.value.byKey, stock, failAt, dbError);
  }

  /** The handler as the file has it: `fetchVariantLookup()` is called with
      no shop, so every request that carries a file fails with "Missing
      shopDomain", and the stock table is never written. */
  method ImportAsWritten(file: Option<seq<seq<string>>>, nodes: seq<Catalog.Node>,
                         stock: map<string, int>, failAt: Option<nat>, dbError: string) returns (r: Response)
    ensures r.result.Err? && r.stock == stock
    ensures r.result.error == if file.None? then "Missing file" else "Missing shopDomain"
  {
    r := Import(file, "", nodes, stock, failAt, dbError);
  }
}
