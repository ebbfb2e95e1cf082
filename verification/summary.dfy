/** The dashboard counters (`api/orders/summary.js`, repeated verbatim in
    `handleOrdersSummary` of `api/router.js`): each order gets one status from
    its tags, and the counters tally statuses, and express orders per status. */
module Summary {
  import opened Seqs
  import opened JsText
  import opened Rows

  datatype Status = Pending | Processing | Shipped | Complete | Cancel

  /** The status a tag text implies, by lower-cased substring, with the
      priority complete, cancel, shipped, processing; anything else is
      pending. */
  function StatusOfTags(tags: string): (r: Status)
    ensures r == Complete <==> Contains(Lower(tags), "complete")
    ensures r == Cancel <==> !Contains(Lower(tags), "complete") && Contains(Lower(tags), "cancel")
    ensures r == Shipped <==> !Contains(Lower(tags), "complete") && !Contains(Lower(tags), "cancel")
                              && Contains(Lower(tags), "shipped")
    ensures r == Processing <==> !Contains(Lower(tags), "complete") && !Contains(Lower(tags), "cancel")
                                 && !Contains(Lower(tags), "shipped") && Contains(Lower(tags), "processing")
  {
    var t := Lower(tags);
    if Contains(t, "complete") then Complete
    else if Contains(t, "cancel") then Cancel
    else if Contains(t, "shipped") then Shipped
    else if Contains(t, "processing") then Processing
    else Pending
  }

  /** `statusOf(r)`: the fulfilment-status fallback returns "pending" on
      both of its branches. */
  function StatusOf(o: Order): Status
  {
    var s := StatusOfTags(o.tags);
    if s != Pending then s
    else
      var f := Lower(o.fulfillmentStatus);
      if f == "" || f == "open" || f == "unfulfilled" then Pending else Pending
  }

  /** `isExpress(r)`: the shipping method holds the whole word "express" in
      any case. */
  predicate IsExpress(o: Order)
  {
    HasWord(o.shippingMethod, "express")
  }

  /** The response body's counters. */
  datatype Counts = Counts(
    total: nat,
    pending: nat, processing: nat, shipped: nat, complete: nat, cancel: nat,
    expressPending: nat, expressProcessing: nat, expressShipped: nat,
    expressComplete: nat, expressCancel: nat)

  function Bucket(c: Counts, s: Status): nat
  {
    match s
    case Pending => c.pending
    case Processing => c.processing
    case Shipped => c.shipped
    case Complete => c.complete
    case Cancel => c.cancel
  }

  function ExpressBucket(c: Counts, s: Status): nat
  {
    match s
    case Pending => c.expressPending
    case Processing => c.expressProcessing
    case Shipped => c.expressShipped
    case Complete => c.expressComplete
    case Cancel => c.expressCancel
  }

  /** One iteration of the counting loop. */
  function Bump(c: Counts, o: Order): (r: Counts)
    ensures r.total == c.total
    ensures forall s :: Bucket(r, s) == Bucket(c, s) + (if StatusOf(o) == s then 1 else 0)
    ensures forall s ::
      ExpressBucket(r, s) == ExpressBucket(c, s) + (if StatusOf(o) == s && IsExpress(o) then 1 else 0)
  {
    var s := StatusOf(o);
    var c1 := match s
      case Pending => c.(pending := c.pending + 1)
      case Processing => c.(processing := c.processing + 1)
      case Shipped => c.(shipped := c.shipped + 1)
      case Complete => c.(complete := c.complete + 1)
      case Cancel => c.(cancel := c.cancel + 1);
    if !IsExpress(o) then c1
    else match s
      case Pending => c1.(expressPending := c1.expressPending + 1)
      case Processing => c1.(expressProcessing := c1.expressProcessing + 1)
      case Shipped => c1.(expressShipped := c1.expressShipped + 1)
      case Complete => c1.(expressComplete := c1.expressComplete + 1)
      case Cancel => c1.(expressCancel := c1.expressCancel + 1)
  }

  function Tally(c: Counts, rows: seq<Order>): Counts
    decreases |rows|
  {
    if |rows| == 0 then c else Tally(Bump(c, rows[0]), rows[1..])
  }

  /** The handler's result for the rows the store returned. */
  function Summarise(rows: seq<Order>): Counts
  {
    Tally(Counts(|rows|, 0, 0, 0, 0, 0, 0, 0, 0, 0, 0), rows)
  }

  function InBucket(s: Status): Order -> bool
  {
    o => StatusOf(o) == s
  }

  function InExpressBucket(s: Status): Order -> bool
  {
    o => StatusOf(o) == s && IsExpress(o)
  }

  function Express(): Order -> bool
  {
    o => IsExpress(o)
  }

  lemma {:induction false} TallyBuckets(c: Counts, rows: seq<Order>, s: Status)
    ensures Tally(c, rows).total == c.total
    ensures Bucket(Tally(c, rows), s) == Bucket(c, s) + Count(rows, InBucket(s))
    ensures ExpressBucket(Tally(c, rows), s) == ExpressBucket(c, s) + Count(rows, InExpressBucket(s))
    decreases |rows|
  {
    if |rows| > 0 {
      TallyBuckets(Bump(c, rows[0]), rows[1..], s);
    }
  }

  /** Every counter is the number of rows in its class; express counters
      count the express rows of their status. */
  lemma SummariseCounts(rows: seq<Order>, s: Status)
    ensures Summarise(rows).total == |rows|
    ensures Bucket(Summarise(rows), s) == Count(rows, InBucket(s))
    ensures ExpressBucket(Summarise(rows), s) == Count(rows, InExpressBucket(s))
  {
    TallyBuckets(Counts(|rows|, 0, 0, 0, 0, 0, 0, 0, 0, 0, 0), rows, s);
  }

  lemma {:induction false} BucketsPartition(rows: seq<Order>)
    ensures Count(rows, InBucket(Pending)) + Count(rows, InBucket(Processing)) + Count(rows, InBucket(Shipped))
      + Count(rows, InBucket(Complete)) + Count(rows, InBucket(Cancel)) == |rows|
  {
    if |rows| > 0 {
      BucketsPartition(rows[1..]);
    }
  }

  /** The five status counters add up to the total, which is the number of
      rows. */
  lemma SummariseTotal(rows: seq<Order>)
    ensures var c := Summarise(rows);
      c.pending + c.processing + c.shipped + c.complete + c.cancel == c.total == |rows|
  {
    SummariseCounts(rows, Pending);
    SummariseCounts(rows, Processing);
    SummariseCounts(rows, Shipped);
    SummariseCounts(rows, Complete);
    SummariseCounts(rows, Cancel);
    BucketsPartition(rows);
  }

  lemma {:induction false} ExpressPartition(rows: seq<Order>)
    ensures Count(rows, InExpressBucket(Pending)) + Count(rows, InExpressBucket(Processing))
      + Count(rows, InExpressBucket(Shipped)) + Count(rows, InExpressBucket(Complete))
      + Count(rows, InExpressBucket(Cancel)) == Count(rows, Express())
  {
    if |rows| > 0 {
      ExpressPartition(rows[1..]);
      var o := rows[0];
      ExpressOne(StatusOf(o), IsExpress(o));
      assert InExpressBucket(Pending)(o) == (StatusOf(o) == Pending && IsExpress(o));
      assert InExpressBucket(Processing)(o) == (StatusOf(o) == Processing && IsExpress(o));
      assert InExpressBucket(Shipped)(o) == (StatusOf(o) == Shipped && IsExpress(o));
      assert InExpressBucket(Complete)(o) == (StatusOf(o) == Complete && IsExpress(o));
      assert InExpressBucket(Cancel)(o) == (StatusOf(o) == Cancel && IsExpress(o));
    }
  }

  /** An express row lies in exactly one status bucket. */
  lemma ExpressOne(st: Status, e: bool)
    ensures (if st == Pending && e then 1 else 0) + (if st == Processing && e then 1 else 0)
      + (if st == Shipped && e then 1 else 0) + (if st == Complete && e then 1 else 0)
      + (if st == Cancel && e then 1 else 0) == if e then 1 else 0
  {
  }

  lemma {:induction false} ExpressWithin(rows: seq<Order>, s: Status)
    ensures Count(rows, InExpressBucket(s)) <= Count(rows, InBucket(s))
  {
    if |rows| > 0 {
      ExpressWithin(rows[1..], s);
    }
  }

  /** Each express counter is at most its status counter, and the express
      counters add up to the number of rows whose shipping method has the
      word "express". */
  lemma SummariseExpress(rows: seq<Order>, s: Status)
    ensures ExpressBucket(Summarise(rows), s) <= Bucket(Summarise(rows), s)
    ensures var c := Summarise(rows);
      c.expressPending + c.expressProcessing + c.expressShipped + c.expressComplete + c.expressCancel
        == Count(rows, Express())
  {
    SummariseCounts(rows, s);
    ExpressWithin(rows, s);
    SummariseCounts(rows, Pending);
    SummariseCounts(rows, Processing);
    SummariseCounts(rows, Shipped);
    SummariseCounts(rows, Complete);
    SummariseCounts(rows, Cancel);
    ExpressPartition(rows);
  }

  /** The fulfilment status never changes the status. */
  lemma StatusIgnoresFulfillment(o: Order, f: string)
    ensures StatusOf(o.(fulfillmentStatus := f)) == StatusOf(o)
  {
  }

  /** Without any of the four words in its tags, an order is pending. */
  lemma NoKeywordIsPending(o: Order)
    requires !Contains(Lower(o.tags), "complete") && !Contains(Lower(o.tags), "cancel")
    requires !Contains(Lower(o.tags), "shipped") && !Contains(Lower(o.tags), "processing")
    ensures StatusOf(o) == Pending
  {
  }

  /** Matching is by substring: any tag text containing "complete", such as
      "incomplete" or "Not completed", classifies as complete, whatever else
      it says. */
  lemma SubstringComplete(before: string, after: string)
    ensures StatusOfTags(Lower(before) + "complete" + Lower(after)) == Complete
  {
    var t := Lower(before) + "complete" + Lower(after);
    LowerAppend(Lower(before) + "complete", Lower(after));
    LowerAppend(Lower(before), "complete");
    LowerIdempotent(before);
    LowerIdempotent(after);
    assert Lower("complete") == "complete";
    assert Lower(t) == t;
    ContainsInfix(Lower(before), "complete", Lower(after));
  }

  lemma IncompleteIsComplete()
    ensures StatusOfTags("incomplete") == Complete
  {
    SubstringComplete("in", "");
    assert Lower("in") + "complete" + Lower("") == "incomplete";
  }
}
