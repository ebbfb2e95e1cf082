/** The processing deduction (server/lib/inventoryApply.js): when an order
    goes into processing, its line-item quantities are summed per variant,
    one ORDER_PROCESSING move is recorded per (shop, order, variant), stock
    is decremented with a floor at zero, and the order's reservations are
    deleted. The database transaction is one atomic step over an in-memory
    ledger. */
module InventoryApply {
  import opened Wrappers
  import opened Seqs
  import opened JsText

  /** An `inventory_move` row with reason ORDER_PROCESSING; the table's
      unique index makes this triple a key. */
  datatype MoveKey = MoveKey(shop: string, order: string, variant: string)

  datatype ReserveKey = ReserveKey(shop: string, order: string, variant: string)

  /** Stock is keyed by variant alone; moves and reservations by shop and
      order as well. Moves map to their quantity delta. */
  datatype Ledger = Ledger(stock: map<string, int>, moves: map<MoveKey, int>, reserves: map<ReserveKey, int>)

  /** A `tbl_order_line_item` row; `None` is SQL NULL. */
  datatype ItemRow = ItemRow(shop: string, order: string, variant: Option<string>, quantity: Option<int>)

  /** One row of the `group by variant_id` query, its sum read through
      `Number(qty || 0)` (a NULL sum reads as 0). */
  datatype Request = Request(variant: Option<string>, qty: int)

  datatype Reply = MissingShopOrOrder | Applied(count: nat) | Failed(error: string)

  datatype Outcome = Outcome(reply: Reply, ledger: Ledger)

  function Max(a: int, b: int): int { if a >= b then a else b }

  /** A missing stock row counts as zero. */
  function StockOf(stock: map<string, int>, v: string): int
  {
    if v in stock then stock[v] else 0
  }

  // ------------------------------------------------------------ grouping

  /** The order's rows: exact shop and order match, as in the query. Every
      such row of the table is read, as often as it occurs there. */
  function OrderLines(table: seq<ItemRow>, shop: string, oid: string): (r: seq<ItemRow>)
    ensures forall i :: 0 <= i < |r| ==> r[i].shop == shop && r[i].order == oid
    ensures forall x :: multiset(r)[x] == if x.shop == shop && x.order == oid then multiset(table)[x] else 0
  {
    var p := (l: ItemRow) => l.shop == shop && l.order == oid;
    var r := Filter(table, p);
    assert forall x :: multiset(r)[x] == if x.shop == shop && x.order == oid then multiset(table)[x] else 0 by {
      forall x
        ensures multiset(r)[x] == if x.shop == shop && x.order == oid then multiset(table)[x] else 0
      {
        FilterCount(table, p, x);
      }
    }
    r
  }

  /** Sum of the (non-NULL) quantities of the rows carrying variant `v`. */
  function SumFor(lines: seq<ItemRow>, v: Option<string>): int
  {
    if |lines| == 0 then 0
    else SumFor(lines[..|lines| - 1], v)
         + (if lines[|lines| - 1].variant == v then lines[|lines| - 1].quantity.GetOr(0) else 0)
  }

  ghost predicate DistinctVariants(groups: seq<Request>)
  {
    forall i, j :: 0 <= i < j < |groups| ==> groups[i].variant != groups[j].variant
  }

  function GroupVariant(g: Request): Option<string> { g.variant }

  function LineVariant(l: ItemRow): Option<string> { l.variant }

  function AddLine(groups: seq<Request>, l: ItemRow): (r: seq<Request>)
  {
    match FindFirst(groups, (g: Request) => g.variant == l.variant)
    case None => groups + [Request(l.variant, l.quantity.GetOr(0))]
    case Some(i) => groups[i := groups[i].(qty := groups[i].qty + l.quantity.GetOr(0))]
  }

  /** `group by variant_id` with `sum(quantity)`, groups in order of first
      appearance (the query leaves the order open). */
  function Group(lines: seq<ItemRow>): (r: seq<Request>)
    decreases |lines|
  {
    if |lines| == 0 then [] else AddLine(Group(lines[..|lines| - 1]), lines[|lines| - 1])
  }

  /** What grouping guarantees about `groups` for the rows `lines`. */
  ghost predicate Grouped(groups: seq<Request>, lines: seq<ItemRow>)
  {
    && DistinctVariants(groups)
    && (forall i :: 0 <= i < |groups| ==> groups[i].qty == SumFor(lines, groups[i].variant))
    && (forall v :: v in Map(groups, GroupVariant) <==> v in Map(lines, LineVariant))
  }

  lemma AddLineGrouped(groups: seq<Request>, init: seq<ItemRow>, l: ItemRow)
    requires Grouped(groups, init)
    ensures Grouped(AddLine(groups, l), init + [l])
  {
    var lines := init + [l];
    assert lines[..|lines| - 1] == init;
    assert forall v :: SumFor(lines, v) == SumFor(init, v) + (if l.variant == v then l.quantity.GetOr(0) else 0);
    var r := AddLine(groups, l);
    assert Map(lines, LineVariant) == Map(init, LineVariant) + [l.variant];
    match FindFirst(groups, (g: Request) => g.variant == l.variant)
    case None =>
      assert l.variant !in Map(groups, GroupVariant);
      assert Map(r, GroupVariant) == Map(groups, GroupVariant) + [l.variant];
      assert SumFor(init, l.variant) == 0 by {
        assert l.variant !in Map(init, LineVariant);
        SumForAbsent(init, l.variant);
      }
    case Some(i) =>
      assert Map(r, GroupVariant) == Map(groups, GroupVariant);
      assert l.variant in Map(groups, GroupVariant);
  }

  lemma {:induction false} SumForAbsent(lines: seq<ItemRow>, v: Option<string>)
    requires v !in Map(lines, LineVariant)
    ensures SumFor(lines, v) == 0
  {
    if |lines| > 0 {
      var init := lines[..|lines| - 1];
      assert Map(init, LineVariant) == Map(lines, LineVariant)[..|init|];
      SumForAbsent(init, v);
      assert lines[|lines| - 1].variant == Map(lines, LineVariant)[|init|];
    }
  }

  lemma {:induction false} GroupGrouped(lines: seq<ItemRow>)
    ensures Grouped(Group(lines), lines)
    decreases |lines|
  {
    if |lines| > 0 {
      var init := lines[..|lines| - 1];
      GroupGrouped(init);
      AddLineGrouped(Group(init), init, lines[|lines| - 1]);
      assert init + [lines[|lines| - 1]] == lines;
    }
  }

  // ----------------------------------------------------------- one step

  /** The move key a request would record, when it is applicable at all. */
  function KeyOf(shop: string, oid: string, req: Request): MoveKey
  {
    MoveKey(shop, oid, Trim(req.variant.GetOr("")))
  }

  /** Blank variant ids and non-positive totals are skipped. */
  predicate Applicable(req: Request)
  {
    Trim(req.variant.GetOr("")) != "" && req.qty > 0
  }

  /** One loop iteration as intended: a request whose move already exists is
      skipped; otherwise the move is recorded and stock is decremented with a
      floor at zero. A variant in `faulty` stands for a statement that fails
      with any other error, which aborts the whole call. */
  function Step(l: Ledger, shop: string, oid: string, req: Request, faulty: set<string>): Option<(Ledger, nat)>
  {
    var key := KeyOf(shop, oid, req);
    if !Applicable(req) || key in l.moves then Some((l, 0))
    else if key.variant in faulty then None
    else
      var v := key.variant;
      Some((Ledger(l.stock[v := Max(StockOf(l.stock, v) - req.qty, 0)], l.moves[key := -req.qty], l.reserves), 1))
  }

  /** The loop over the grouped requests; `None` is a thrown error. */
  function Run(l: Ledger, shop: string, oid: string, reqs: seq<Request>, faulty: set<string>): Option<(Ledger, nat)>
    decreases |reqs|
  {
    if |reqs| == 0 then Some((l, 0))
    else
      match Step(l, shop, oid, reqs[0], faulty)
      case None => None
      case Some((l1, a)) =>
        match Run(l1, shop, oid, reqs[1..], faulty)
        case None => None
        case Some((l2, b)) => Some((l2, a + b))
  }

  /** The reservations left after deleting the order's. */
  function DropReserves(reserves: map<ReserveKey, int>, shop: string, oid: string): (r: map<ReserveKey, int>)
    ensures forall k :: k in r <==> k in reserves && !(k.shop == shop && k.order == oid)
    ensures forall k :: k in r ==> r[k] == reserves[k]
  {
    map k | k in reserves && !(k.shop == shop && k.order == oid) :: reserves[k]
  }

  /** How one call is meant to behave: the deductions, the reservation
      delete and the commit as one atomic step; any failure leaves the ledger
      as it was. */
  function Apply(l: Ledger, table: seq<ItemRow>, shop: string, orderId: string, faulty: set<string>): (r: Outcome)
    ensures var sd := Trim(Lower(shop)); var oid := Trim(orderId);
      (sd == "" || oid == "") <==> r.reply == MissingShopOrOrder
    ensures r.reply.MissingShopOrOrder? || r.reply.Failed? ==> r.ledger == l
    ensures var sd := Trim(Lower(shop)); var oid := Trim(orderId);
      sd != "" && oid != "" && |OrderLines(table, sd, oid)| == 0 ==> r == Outcome(Applied(0), l)
  {
    var sd := Trim(Lower(shop));
    var oid := Trim(orderId);
    if sd == "" || oid == "" then Outcome(MissingShopOrOrder, l)
    else
      var reqs := Group(OrderLines(table, sd, oid));
      if |reqs| == 0 then Outcome(Applied(0), l)
      else
        match Run(l, sd, oid, reqs, faulty)
        case None => Outcome(Failed("statement failed; rolled back"), l)
        case Some((l1, n)) => Outcome(Applied(n), l1.(reserves := DropReserves(l1.reserves, sd, oid)))
  }

  // -------------------------------------------------------- the loop laws

  /** The request records the move `k`. */
  predicate Hits(shop: string, oid: string, k: MoveKey, req: Request)
  {
    Applicable(req) && KeyOf(shop, oid, req) == k
  }

  /** The delta the loop over `reqs` records for the move key `k`: minus
      the total of the first applicable request with that key (a later one
      with the same trimmed id finds the move present and is skipped), or
      `None` when no applicable request has the key. */
  function FirstMove(shop: string, oid: string, reqs: seq<Request>, k: MoveKey): Option<int>
  {
    match FindFirst(reqs, (req: Request) => Hits(shop, oid, k, req))
    case None => None
    case Some(i) => Some(-reqs[i].qty)
  }

  /** The delta `FirstMove` finds belongs to the first applicable request
      with the key. */
  lemma FirstMoveIs(shop: string, oid: string, reqs: seq<Request>, k: MoveKey) returns (i: nat)
    requires FirstMove(shop, oid, reqs, k).Some?
    ensures i < |reqs| && Applicable(reqs[i]) && KeyOf(shop, oid, reqs[i]) == k
    ensures forall j :: 0 <= j < i ==> !Hits(shop, oid, k, reqs[j])
    ensures FirstMove(shop, oid, reqs, k) == Some(-reqs[i].qty)
  {
    i := FindFirst(reqs, (req: Request) => Hits(shop, oid, k, req)).value;
  }

  lemma FirstMoveHit(shop: string, oid: string, reqs: seq<Request>, k: MoveKey)
    requires |reqs| > 0 && Hits(shop, oid, k, reqs[0])
    ensures FirstMove(shop, oid, reqs, k) == Some(-reqs[0].qty)
  {
  }

  lemma FirstMoveSkip(shop: string, oid: string, reqs: seq<Request>, k: MoveKey)
    requires |reqs| > 0 && !Hits(shop, oid, k, reqs[0])
    ensures FirstMove(shop, oid, reqs, k) == FirstMove(shop, oid, reqs[1..], k)
  {
    var p := (req: Request) => Hits(shop, oid, k, req);
    FindFirstSkip(reqs, p);
    if FindFirst(reqs[1..], p).Some? {
      var j := FindFirst(reqs[1..], p).value;
      assert reqs[1..][j] == reqs[j + 1];
    }
  }

  /** What a run from `l` to `l2` that applied `n` requests did: it added
      exactly `n` moves, all for this shop and order and all negative, left
      earlier moves and the reservations alone, and touched the stock of
      exactly the newly moved variants, each decremented by its move with a
      floor at 0. `Deltas` says which amount each new move holds. */
  ghost predicate Extends(l: Ledger, l2: Ledger, shop: string, oid: string, n: nat)
  {
    && l2.reserves == l.reserves
    && l.moves.Keys <= l2.moves.Keys
    && (forall k :: k in l.moves ==> l2.moves[k] == l.moves[k])
    && |l2.moves.Keys| == |l.moves.Keys| + n
    && (forall k :: k in l2.moves && k !in l.moves ==>
          k.shop == shop && k.order == oid && l2.moves[k] < 0
          && k.variant in l2.stock
          && l2.stock[k.variant] == Max(StockOf(l.stock, k.variant) + l2.moves[k], 0))
    && (forall v :: MoveKey(shop, oid, v) !in l2.moves || MoveKey(shop, oid, v) in l.moves ==>
          (v in l2.stock <==> v in l.stock) && (v in l.stock ==> l2.stock[v] == l.stock[v]))
  }

  /** Every move new in `l2` holds the delta the requests `reqs` give its
      key: minus the total of the first applicable request with that key. */
  ghost predicate Deltas(l: Ledger, l2: Ledger, shop: string, oid: string, reqs: seq<Request>)
  {
    forall k :: k in l2.moves && k !in l.moves ==> FirstMove(shop, oid, reqs, k) == Some(l2.moves[k])
  }

  lemma ExtendsRefl(l: Ledger, shop: string, oid: string, reqs: seq<Request>)
    ensures Extends(l, l, shop, oid, 0) && Deltas(l, l, shop, oid, reqs)
  {
  }

  lemma StepExtends(l: Ledger, shop: string, oid: string, req: Request, faulty: set<string>)
    requires Step(l, shop, oid, req, faulty).Some?
    ensures var (l1, n) := Step(l, shop, oid, req, faulty).value;
      Extends(l, l1, shop, oid, n)
  {
    var key := KeyOf(shop, oid, req);
    if Applicable(req) && key !in l.moves {
      var v := key.variant;
      var l1 := Ledger(l.stock[v := Max(StockOf(l.stock, v) - req.qty, 0)], l.moves[key := -req.qty], l.reserves);
      assert Step(l, shop, oid, req, faulty).value == (l1, 1);
      MoveExtends(l, shop, oid, v, req.qty);
    } else {
      assert Step(l, shop, oid, req, faulty).value == (l, 0);
      ExtendsRefl(l, shop, oid, [req]);
    }
  }

  /** The move a step adds holds minus its request's total. */
  lemma StepDeltas(l: Ledger, shop: string, oid: string, req: Request, faulty: set<string>)
    requires Step(l, shop, oid, req, faulty).Some?
    ensures Deltas(l, Step(l, shop, oid, req, faulty).value.0, shop, oid, [req])
  {
    if Applicable(req) && KeyOf(shop, oid, req) !in l.moves {
      FirstMoveHit(shop, oid, [req], KeyOf(shop, oid, req));
    }
  }

  /** One new negative move for this order, with its stock decrement,
      extends the ledger by one. */
  lemma MoveExtends(l: Ledger, shop: string, oid: string, v: string, q: int)
    requires MoveKey(shop, oid, v) !in l.moves && q > 0
    ensures Extends(l, Ledger(l.stock[v := Max(StockOf(l.stock, v) - q, 0)], l.moves[MoveKey(shop, oid, v) := -q], l.reserves), shop, oid, 1)
  {
    var l1 := Ledger(l.stock[v := Max(StockOf(l.stock, v) - q, 0)], l.moves[MoveKey(shop, oid, v) := -q], l.reserves);
    assert l1.moves.Keys == l.moves.Keys + {MoveKey(shop, oid, v)};
  }

  lemma ExtendsTrans(l: Ledger, l1: Ledger, l2: Ledger, shop: string, oid: string, a: nat, b: nat)
    requires Extends(l, l1, shop, oid, a)
    requires Extends(l1, l2, shop, oid, b)
    ensures Extends(l, l2, shop, oid, a + b)
  {
    forall k | k in l2.moves && k !in l.moves
      ensures k.shop == shop && k.order == oid && l2.moves[k] < 0
          && k.variant in l2.stock
          && l2.stock[k.variant] == Max(StockOf(l.stock, k.variant) + l2.moves[k], 0)
    {
      if k in l1.moves {
        assert MoveKey(shop, oid, k.variant) == k;
      } else {
        assert MoveKey(shop, oid, k.variant) == k;
      }
    }
  }

  /** A step followed by a run over the remaining requests gives the
      deltas of all of them, given that the step left the key of its request
      (when applicable) among the moves and the run kept the step's moves. */
  lemma DeltasCons(l: Ledger, l1: Ledger, l2: Ledger, shop: string, oid: string, reqs: seq<Request>)
    requires |reqs| > 0
    requires Deltas(l, l1, shop, oid, [reqs[0]]) && Deltas(l1, l2, shop, oid, reqs[1..])
    requires l.moves.Keys <= l1.moves.Keys && l1.moves.Keys <= l2.moves.Keys
    requires forall k :: k in l1.moves ==> l2.moves[k] == l1.moves[k]
    requires Applicable(reqs[0]) ==> KeyOf(shop, oid, reqs[0]) in l1.moves
    ensures Deltas(l, l2, shop, oid, reqs)
  {
    forall k | k in l2.moves && k !in l.moves
      ensures FirstMove(shop, oid, reqs, k) == Some(l2.moves[k])
    {
      if k in l1.moves {
        FirstMoveOne(shop, oid, reqs, k, l1.moves[k]);
      } else {
        FirstMoveRest(shop, oid, reqs, k, l2.moves[k]);
      }
    }
  }

  /** The delta the first request alone records is the delta of all. */
  lemma FirstMoveOne(shop: string, oid: string, reqs: seq<Request>, k: MoveKey, x: int)
    requires |reqs| > 0 && FirstMove(shop, oid, [reqs[0]], k) == Some(x)
    ensures FirstMove(shop, oid, reqs, k) == Some(x)
  {
    var i := FirstMoveIs(shop, oid, [reqs[0]], k);
    FirstMoveHit(shop, oid, reqs, k);
  }

  /** Past a first request without the key, the delta is that of the
      rest. */
  lemma FirstMoveRest(shop: string, oid: string, reqs: seq<Request>, k: MoveKey, x: int)
    requires |reqs| > 0 && !Hits(shop, oid, k, reqs[0]) && FirstMove(shop, oid, reqs[1..], k) == Some(x)
    ensures FirstMove(shop, oid, reqs, k) == Some(x)
  {
    FirstMoveSkip(shop, oid, reqs, k);
  }

  lemma {:induction false} RunExtends(l: Ledger, shop: string, oid: string, reqs: seq<Request>, faulty: set<string>)
    requires Run(l, shop, oid, reqs, faulty).Some?
    ensures var (l2, n) := Run(l, shop, oid, reqs, faulty).value;
      Extends(l, l2, shop, oid, n) && Deltas(l, l2, shop, oid, reqs)
    decreases |reqs|
  {
    if |reqs| == 0 {
      ExtendsRefl(l, shop, oid, reqs);
    } else {
      StepExtends(l, shop, oid, reqs[0], faulty);
      StepDeltas(l, shop, oid, reqs[0], faulty);
      StepCovers(l, shop, oid, reqs[0], faulty);
      var (l1, a) := Step(l, shop, oid, reqs[0], faulty).value;
      RunExtends(l1, shop, oid, reqs[1..], faulty);
      var (l2, b) := Run(l1, shop, oid, reqs[1..], faulty).value;
      ExtendsTrans(l, l1, l2, shop, oid, a, b);
      DeltasCons(l, l1, l2, shop, oid, reqs);
    }
  }

  /** A step records the move of an applicable request and keeps every
      move already recorded. */
  lemma StepCovers(l: Ledger, shop: string, oid: string, req: Request, faulty: set<string>)
    requires Step(l, shop, oid, req, faulty).Some?
    ensures l.moves.Keys <= Step(l, shop, oid, req, faulty).value.0.moves.Keys
    ensures Applicable(req) ==> KeyOf(shop, oid, req) in Step(l, shop, oid, req, faulty).value.0.moves
  {
  }

  lemma {:induction false} RunKeepsMoves(l: Ledger, shop: string, oid: string, reqs: seq<Request>, faulty: set<string>)
    requires Run(l, shop, oid, reqs, faulty).Some?
    ensures l.moves.Keys <= Run(l, shop, oid, reqs, faulty).value.0.moves.Keys
    decreases |reqs|
  {
    if |reqs| > 0 {
      StepCovers(l, shop, oid, reqs[0], faulty);
      var l1 := Step(l, shop, oid, reqs[0], faulty).value.0;
      RunKeepsMoves(l1, shop, oid, reqs[1..], faulty);
    }
  }

  /** After a successful run every applicable request has its move. */
  lemma {:induction false} RunCovers(l: Ledger, shop: string, oid: string, reqs: seq<Request>, faulty: set<string>)
    requires Run(l, shop, oid, reqs, faulty).Some?
    ensures forall i :: 0 <= i < |reqs| && Applicable(reqs[i]) ==>
      KeyOf(shop, oid, reqs[i]) in Run(l, shop, oid, reqs, faulty).value.0.moves
    decreases |reqs|
  {
    if |reqs| > 0 {
      StepCovers(l, shop, oid, reqs[0], faulty);
      var l1 := Step(l, shop, oid, reqs[0], faulty).value.0;
      RunCovers(l1, shop, oid, reqs[1..], faulty);
      RunKeepsMoves(l1, shop, oid, reqs[1..], faulty);
      var l2 := Run(l1, shop, oid, reqs[1..], faulty).value.0;
      assert Run(l, shop, oid, reqs, faulty).value.0 == l2;
      forall i | 0 <= i < |reqs| && Applicable(reqs[i])
        ensures KeyOf(shop, oid, reqs[i]) in l2.moves
      {
        if i > 0 {
          assert reqs[i] == reqs[1..][i - 1];
        }
      }
    }
  }

  /** A run whose every applicable request already has its move changes
      nothing and applies nothing, whatever would have failed. */
  /** Every applicable request already has its move. */
  ghost predicate Covered(l: Ledger, shop: string, oid: string, reqs: seq<Request>)
  {
    forall i :: 0 <= i < |reqs| && Applicable(reqs[i]) ==> KeyOf(shop, oid, reqs[i]) in l.moves
  }

  lemma {:induction false} RunNoop(l: Ledger, shop: string, oid: string, reqs: seq<Request>, faulty: set<string>)
    requires forall i :: 0 <= i < |reqs| && Applicable(reqs[i]) ==> KeyOf(shop, oid, reqs[i]) in l.moves
    ensures Run(l, shop, oid, reqs, faulty) == Some((l, 0))
    decreases |reqs|
  {
    if |reqs| > 0 {
      assert forall i :: 0 <= i < |reqs[1..]| ==> reqs[1..][i] == reqs[i + 1];
      RunNoop(l, shop, oid, reqs[1..], faulty);
    }
  }

  // ------------------------------------------------------ the call's laws

  /** A successful call records exactly `count` new moves, all for this
      order, and changes stock as `Extends` describes; each new move holds
      the delta its key gets from the grouped requests. It deletes exactly
      this order's reservations, which credits no stock. */
  lemma ApplyEffect(l: Ledger, table: seq<ItemRow>, shop: string, orderId: string, faulty: set<string>)
    ensures var r := Apply(l, table, shop, orderId, faulty);
      var sd := Trim(Lower(shop)); var oid := Trim(orderId);
      r.reply.Applied? ==>
        Extends(l, r.ledger.(reserves := l.reserves), sd, oid, r.reply.count)
        && Deltas(l, r.ledger, sd, oid, Group(OrderLines(table, sd, oid)))
        && r.ledger.reserves == (if |OrderLines(table, sd, oid)| == 0 then l.reserves else DropReserves(l.reserves, sd, oid))
  {
    var sd := Trim(Lower(shop));
    var oid := Trim(orderId);
    var r := Apply(l, table, shop, orderId, faulty);
    var reqs := Group(OrderLines(table, sd, oid));
    if r.reply.Applied? && sd != "" && oid != "" {
      if |reqs| > 0 {
        var (lr, n) := Run(l, sd, oid, reqs, faulty).value;
        RunExtends(l, sd, oid, reqs, faulty);
        assert r.ledger.(reserves := l.reserves) == lr;
        assert |OrderLines(table, sd, oid)| > 0;
      } else {
        ExtendsRefl(l, sd, oid, reqs);
        assert |OrderLines(table, sd, oid)| == 0;
      }
    }
  }

  /** Each move a successful call adds holds minus the summed quantity of
      the order's line items for one variant whose trimmed id is the
      move's, and that variant's stock drops by the same sum, floored at 0. */
  lemma ApplyAmounts(l: Ledger, table: seq<ItemRow>, shop: string, orderId: string, faulty: set<string>)
    ensures var r := Apply(l, table, shop, orderId, faulty);
      var lines := OrderLines(table, Trim(Lower(shop)), Trim(orderId));
      r.reply.Applied? ==> forall k :: k in r.ledger.moves && k !in l.moves ==>
        exists v :: LineAmount(l, r.ledger, lines, k, v)
  {
    var r := Apply(l, table, shop, orderId, faulty);
    if r.reply.Applied? {
      var sd, oid := Trim(Lower(shop)), Trim(orderId);
      ApplyEffect(l, table, shop, orderId, faulty);
      ExtendsAmounts(l, r.ledger, sd, oid, OrderLines(table, sd, oid), r.reply.count);
    }
  }

  /** The move `k` of `l2` holds minus the summed quantity of the line
      items of variant `v`, whose trimmed id is the move's, and that
      variant's stock in `l2` is its stock in `l` less the same sum, floored
      at 0. */
  ghost predicate LineAmount(l: Ledger, l2: Ledger, lines: seq<ItemRow>, k: MoveKey, v: Option<string>)
  {
    && k in l2.moves && v in Map(lines, LineVariant) && k.variant == Trim(v.GetOr(""))
    && l2.moves[k] == -SumFor(lines, v)
    && k.variant in l2.stock
    && l2.stock[k.variant] == Max(StockOf(l.stock, k.variant) - SumFor(lines, v), 0)
  }

  /** Over grouped requests, the new moves and stock levels are the sums of
      the line items. */
  lemma ExtendsAmounts(l: Ledger, l2: Ledger, shop: string, oid: string, lines: seq<ItemRow>, n: nat)
    requires Extends(l, l2.(reserves := l.reserves), shop, oid, n) && Deltas(l, l2, shop, oid, Group(lines))
    ensures forall k :: k in l2.moves && k !in l.moves ==> exists v :: LineAmount(l, l2, lines, k, v)
  {
    GroupGrouped(lines);
    forall k | k in l2.moves && k !in l.moves
      ensures exists v :: LineAmount(l, l2, lines, k, v)
    {
      var v := AmountOf(shop, oid, Group(lines), lines, k, l2.moves[k]);
      assert LineAmount(l, l2, lines, k, v);
    }
  }

  /** The delta a grouped run gives a key is minus the summed quantity of
      the line items of one variant whose trimmed id is the key's. */
  lemma AmountOf(shop: string, oid: string, reqs: seq<Request>, lines: seq<ItemRow>, k: MoveKey, m: int) returns (v: Option<string>)
    requires Grouped(reqs, lines) && FirstMove(shop, oid, reqs, k) == Some(m)
    ensures v in Map(lines, LineVariant) && k.variant == Trim(v.GetOr("")) && m == -SumFor(lines, v)
  {
    var i := FirstMoveIs(shop, oid, reqs, k);
    v := reqs[i].variant;
    assert Map(reqs, GroupVariant)[i] == v;
  }

  /** Stock never goes negative through a deduction. */
  lemma ApplyStockFloor(l: Ledger, table: seq<ItemRow>, shop: string, orderId: string, faulty: set<string>)
    requires forall v :: v in l.stock ==> l.stock[v] >= 0
    ensures var r := Apply(l, table, shop, orderId, faulty);
      forall v :: v in r.ledger.stock ==> r.ledger.stock[v] >= 0
  {
    ApplyEffect(l, table, shop, orderId, faulty);
    var r := Apply(l, table, shop, orderId, faulty);
    if r.reply.Applied? {
      var sd, oid := Trim(Lower(shop)), Trim(orderId);
      ExtendsFloor(l, r.ledger.(reserves := l.reserves), sd, oid, r.reply.count);
    }
  }

  lemma ExtendsFloor(l: Ledger, l2: Ledger, shop: string, oid: string, n: nat)
    requires Extends(l, l2, shop, oid, n)
    requires forall v :: v in l.stock ==> l.stock[v] >= 0
    ensures forall v :: v in l2.stock ==> l2.stock[v] >= 0
  {
    forall v | v in l2.stock
      ensures l2.stock[v] >= 0
    {
      if MoveKey(shop, oid, v) in l2.moves && MoveKey(shop, oid, v) !in l.moves {
        assert MoveKey(shop, oid, v).variant == v;
      }
    }
  }

  /** The deduction is idempotent: a second call for the same order applies
      nothing and leaves the ledger as the first call left it. */
  lemma ApplyTwice(l: Ledger, table: seq<ItemRow>, shop: string, orderId: string, faulty: set<string>, faulty2: set<string>)
    requires Apply(l, table, shop, orderId, faulty).reply.Applied?
    ensures var l1 := Apply(l, table, shop, orderId, faulty).ledger;
      Apply(l1, table, shop, orderId, faulty2) == Outcome(Applied(0), l1)
  {
    var sd := Trim(Lower(shop));
    var oid := Trim(orderId);
    var reqs := Group(OrderLines(table, sd, oid));
    var l1 := Apply(l, table, shop, orderId, faulty).ledger;
    if |reqs| > 0 {
      var (lr, n) := Run(l, sd, oid, reqs, faulty).value;
      RunCovers(l, sd, oid, reqs, faulty);
      assert l1 == lr.(reserves := DropReserves(lr.reserves, sd, oid));
      DropTwice(lr.reserves, sd, oid);
      ApplyCovered(l1, table, shop, orderId, faulty2);
    }
  }

  /** A call whose requests all have their moves already, for an order with
      no reservations left, applies nothing. */
  lemma ApplyCovered(l: Ledger, table: seq<ItemRow>, shop: string, orderId: string, faulty: set<string>)
    requires Trim(Lower(shop)) != "" && Trim(orderId) != ""
    requires DropReserves(l.reserves, Trim(Lower(shop)), Trim(orderId)) == l.reserves
    requires Covered(l, Trim(Lower(shop)), Trim(orderId), Group(OrderLines(table, Trim(Lower(shop)), Trim(orderId))))
    ensures Apply(l, table, shop, orderId, faulty) == Outcome(Applied(0), l)
  {
    var sd, oid := Trim(Lower(shop)), Trim(orderId);
    var reqs := Group(OrderLines(table, sd, oid));
    if |reqs| > 0 {
      RunNoop(l, sd, oid, reqs, faulty);
      assert l.(reserves := DropReserves(l.reserves, sd, oid)) == l;
    }
  }

  lemma DropTwice(reserves: map<ReserveKey, int>, shop: string, oid: string)
    ensures DropReserves(DropReserves(reserves, shop, oid), shop, oid) == DropReserves(reserves, shop, oid)
  {
  }

  /** The requested quantity per variant is the sum over the order's line
      items, each variant id appearing once. */
  lemma RequestsSumLines(table: seq<ItemRow>, sd: string, oid: string)
    ensures var reqs := Group(OrderLines(table, sd, oid));
      DistinctVariants(reqs)
      && (forall i :: 0 <= i < |reqs| ==> reqs[i].qty == SumFor(OrderLines(table, sd, oid), reqs[i].variant))
      && (forall v :: v in Map(reqs, GroupVariant) <==> v in Map(OrderLines(table, sd, oid), LineVariant))
  {
    GroupGrouped(OrderLines(table, sd, oid));
  }

  // ------------------------------------------------- the code as written

  /** The loop as written: the duplicate-key error is caught and the loop
      continues, but PostgreSQL has already aborted the transaction (there
      is no savepoint), so the next statement fails and the whole call
      rolls back. A duplicate is therefore fatal. */
  function StepAsWritten(l: Ledger, shop: string, oid: string, req: Request, faulty: set<string>): Option<(Ledger, nat)>
  {
    var key := KeyOf(shop, oid, req);
    if !Applicable(req) then Some((l, 0))
    else if key in l.moves then None
    else Step(l, shop, oid, req, faulty)
  }

  function RunAsWritten(l: Ledger, shop: string, oid: string, reqs: seq<Request>, faulty: set<string>): Option<(Ledger, nat)>
    decreases |reqs|
  {
    if |reqs| == 0 then Some((l, 0))
    else
      match StepAsWritten(l, shop, oid, reqs[0], faulty)
      case None => None
      case Some((l1, a)) =>
        match RunAsWritten(l1, shop, oid, reqs[1..], faulty)
        case None => None
        case Some((l2, b)) => Some((l2, a + b))
  }

  function ApplyAsWritten(l: Ledger, table: seq<ItemRow>, shop: string, orderId: string, faulty: set<string>): (r: Outcome)
    ensures r.reply.MissingShopOrOrder? || r.reply.Failed? ==> r.ledger == l
  {
    var sd := Trim(Lower(shop));
    var oid := Trim(orderId);
    if sd == "" || oid == "" then Outcome(MissingShopOrOrder, l)
    else
      var reqs := Group(OrderLines(table, sd, oid));
      if |reqs| == 0 then Outcome(Applied(0), l)
      else
        match RunAsWritten(l, sd, oid, reqs, faulty)
        case None => Outcome(Failed("current transaction is aborted"), l)
        case Some((l1, n)) => Outcome(Applied(n), l1.(reserves := DropReserves(l1.reserves, sd, oid)))
  }

  lemma StepAsWrittenKeeps(l: Ledger, shop: string, oid: string, req: Request, faulty: set<string>)
    requires StepAsWritten(l, shop, oid, req, faulty).Some?
    ensures l.moves.Keys <= StepAsWritten(l, shop, oid, req, faulty).value.0.moves.Keys
  {
    if Applicable(req) {
      StepCovers(l, shop, oid, req, faulty);
    }
  }

  /** Once some applicable request's move exists, the written loop fails. */
  lemma {:induction false} RunAsWrittenFails(l: Ledger, shop: string, oid: string, reqs: seq<Request>, faulty: set<string>, i: nat)
    requires i < |reqs| && Applicable(reqs[i]) && KeyOf(shop, oid, reqs[i]) in l.moves
    ensures RunAsWritten(l, shop, oid, reqs, faulty).None?
    decreases |reqs|
  {
    var s := StepAsWritten(l, shop, oid, reqs[0], faulty);
    if i == 0 {
      assert s.None?;
    } else if s.Some? {
      var l1 := s.value.0;
      StepAsWrittenKeeps(l, shop, oid, reqs[0], faulty);
      assert reqs[1..][i - 1] == reqs[i];
      RunAsWrittenFails(l1, shop, oid, reqs[1..], faulty, i - 1);
    }
  }

  /** The written code is not idempotent: after a call that applied
      something, calling again for the same order fails and changes nothing,
      where the intended code answers `applied: 0`. */
  lemma AsWrittenNotIdempotent(l: Ledger, table: seq<ItemRow>, shop: string, orderId: string, faulty: set<string>)
    requires Apply(l, table, shop, orderId, faulty).reply.Applied?
    requires Apply(l, table, shop, orderId, faulty).reply.count > 0
    ensures var l1 := Apply(l, table, shop, orderId, faulty).ledger;
      ApplyAsWritten(l1, table, shop, orderId, faulty) == Outcome(Failed("current transaction is aborted"), l1)
      && Apply(l1, table, shop, orderId, faulty) == Outcome(Applied(0), l1)
  {
    var sd := Trim(Lower(shop));
    var oid := Trim(orderId);
    var reqs := Group(OrderLines(table, sd, oid));
    var (lr, n) := Run(l, sd, oid, reqs, faulty).value;
    var l1 := Apply(l, table, shop, orderId, faulty).ledger;
    RunCovers(l, sd, oid, reqs, faulty);
    var i := SomeApplicable(l, sd, oid, reqs, faulty);
    AsWrittenAborts(l1, table, shop, orderId, faulty, i);
    ApplyTwice(l, table, shop, orderId, faulty, faulty);
  }

  /** The written code fails once one applicable request already has its
      move. */
  lemma AsWrittenAborts(l: Ledger, table: seq<ItemRow>, shop: string, orderId: string, faulty: set<string>, i: nat)
    requires Trim(Lower(shop)) != "" && Trim(orderId) != ""
    requires var reqs := Group(OrderLines(table, Trim(Lower(shop)), Trim(orderId)));
      i < |reqs| && Applicable(reqs[i]) && KeyOf(Trim(Lower(shop)), Trim(orderId), reqs[i]) in l.moves
    ensures ApplyAsWritten(l, table, shop, orderId, faulty) == Outcome(Failed("current transaction is aborted"), l)
  {
    RunAsWrittenFails(l, Trim(Lower(shop)), Trim(orderId), Group(OrderLines(table, Trim(Lower(shop)), Trim(orderId))), faulty, i);
  }

  /** A run that applied something had an applicable request. */
  lemma SomeApplicable(l: Ledger, shop: string, oid: string, reqs: seq<Request>, faulty: set<string>) returns (i: nat)
    requires Run(l, shop, oid, reqs, faulty).Some? && Run(l, shop, oid, reqs, faulty).value.1 > 0
    ensures i < |reqs| && Applicable(reqs[i])
  {
    if exists k :: 0 <= k < |reqs| && Applicable(reqs[k]) {
      i :| 0 <= i < |reqs| && Applicable(reqs[i]);
    } else {
      RunNoopApplicable(l, shop, oid, reqs, faulty);
      assert false;
    }
  }

  /** A run with nothing applicable applies nothing. */
  lemma {:induction false} RunNoopApplicable(l: Ledger, shop: string, oid: string, reqs: seq<Request>, faulty: set<string>)
    requires forall i :: 0 <= i < |reqs| ==> !Applicable(reqs[i])
    ensures Run(l, shop, oid, reqs, faulty) == Some((l, 0))
  {
    RunNoop(l, shop, oid, reqs, faulty);
  }
}
