/** The order book: orders by index, ranked on two sides, against a plain map as its reference. */
module Books {
  import opened Orders
  import opened SortedLists
  import opened SortedOrderSets

  datatype Option<+T> = None | Some(value: T)

  /** An incoming event. Only an order that is to be added has to have a price that is a number. */
  type Event = o: Order | o.ShallAdd() ==> !o.price.NaN?
    witness Order(Individual, Finite(0.0), Finite(1.0), 0, 0, "", 0, 0, Buy, false)

  type OrdersByIndex = map<int, PricedOrder>

  // ---------------------------------------------------------------- the book and its steps

  datatype Book = Book(byIndex: OrdersByIndex, buys: OrderSet, sells: OrderSet) {

    /** The first half of an event: the order that rests under this index leaves the book. */
    function WithoutIndex(index: int): Book {
      if index !in byIndex then this
      else
        var removed := byIndex[index];
        if removed.side == Buy
        then Book(byIndex - {index}, buys.AfterErase(BuyLess, removed), sells)
        else Book(byIndex - {index}, buys, sells.AfterErase(SellLess, removed))
    }

    /** The second half: an order that is to be added enters on its side. */
    function With(o: PricedOrder): Book {
      if o.side == Buy
      then Book(byIndex[o.index := o], buys.AfterInsert(BuyLess, o), sells)
      else Book(byIndex[o.index := o], buys, sells.AfterInsert(SellLess, o))
    }

    function AfterEvent(e: Event): Book {
      var b := WithoutIndex(e.index);
      if e.ShallAdd() then b.With(e) else b
    }

    predicate ClearIsDefined(source: int) {
      buys.ClearIsDefined(source) && sells.ClearIsDefined(source)
    }

    function AfterClear(source: int): Book {
      Book(DropSource(byIndex, source), buys.AfterClear(source), sells.AfterClear(source))
    }

    predicate IsChanged() {
      buys.changed || sells.changed
    }
  }

  function DropSource(m: OrdersByIndex, source: int): OrdersByIndex {
    map i | i in m && m[i].source != source :: m[i]
  }

  lemma DroppedSource(m: OrdersByIndex, m': OrdersByIndex, source: int)
    requires forall i :: i in m' <==> i in m && m[i].source != source
    requires forall i :: i in m' ==> m'[i] == m[i]
    ensures m' == DropSource(m, source)
  {
    var d := DropSource(m, source);
    assert forall i :: i in m' <==> i in d;
    assert m'.Keys == d.Keys;
    assert forall i :: i in m' ==> m'[i] == d[i];
  }

  /** The indivisible book operations of which an update consists. */
  datatype Op = Clear(source: int) | Put(event: Event)

  function Apply(b: Book, op: Op): Option<Book> {
    match op
    case Clear(source) => if b.ClearIsDefined(source) then Some(b.AfterClear(source)) else None
    case Put(e) => Some(b.AfterEvent(e))
  }

  function ApplyAll(b: Book, ops: seq<Op>): Option<Book> {
    if ops == [] then Some(b)
    else
      match ApplyAll(b, ops[..|ops| - 1])
      case None => None
      case Some(b') => Apply(b', ops[|ops| - 1])
  }

  /** `update`: a snapshot clears its source first, then the events are taken one by one. */
  function UpdateOps(source: int, events: seq<Event>, isSnapshot: bool): seq<Op> {
    (if isSnapshot then [Clear(source)] else []) + seq(|events|, i requires 0 <= i < |events| => Put(events[i]))
  }

  lemma SingleOp(b: Book, op: Op)
    ensures ApplyAll(b, [op]) == Apply(b, op)
  {
  }

  /** An update before its first event. */
  lemma UpdateStarts(b: Book, source: int, isSnapshot: bool)
    ensures ApplyAll(b, UpdateOps(source, [], isSnapshot)) == if isSnapshot then Apply(b, Clear(source)) else Some(b)
  {
  }

  /** An update that takes one more event. */
  lemma UpdateGoesOn(b: Book, source: int, events: seq<Event>, isSnapshot: bool)
    requires events != []
    ensures ApplyAll(b, UpdateOps(source, events, isSnapshot)) ==
            match ApplyAll(b, UpdateOps(source, events[..|events| - 1], isSnapshot))
            case None => None
            case Some(b') => Some(b'.AfterEvent(events[|events| - 1]))
  {
    var ops := UpdateOps(source, events, isSnapshot);
    assert ops[..|ops| - 1] == UpdateOps(source, events[..|events| - 1], isSnapshot);
  }

  /** An update has an outcome if and only if it is no snapshot or its clear stays inside both sets. */
  lemma {:induction false} UpdateIsDefinedIff(b: Book, source: int, events: seq<Event>, isSnapshot: bool)
    ensures ApplyAll(b, UpdateOps(source, events, isSnapshot)).Some? <==> (isSnapshot ==> b.ClearIsDefined(source))
    decreases |events|
  {
    if events == [] {
      UpdateStarts(b, source, isSnapshot);
    } else {
      UpdateGoesOn(b, source, events, isSnapshot);
      UpdateIsDefinedIff(b, source, events[..|events| - 1], isSnapshot);
    }
  }

  // ---------------------------------------------------------------- the reference

  function RefApply(m: OrdersByIndex, op: Op): OrdersByIndex {
    match op
    case Clear(source) => DropSource(m, source)
    case Put(e) => if e.ShallAdd() then m[e.index := e] else m - {e.index}
  }

  function RefApplyAll(m: OrdersByIndex, ops: seq<Op>): OrdersByIndex {
    if ops == [] then m else RefApply(RefApplyAll(m, ops[..|ops| - 1]), ops[|ops| - 1])
  }

  ghost predicate Rests(m: OrdersByIndex, o: PricedOrder) {
    o.index in m && m[o.index] == o
  }

  /** A ranked list of exactly the resting orders of one side; all but buy orders are on the sell side. */
  ghost predicate Lists(less: Ranking, s: seq<PricedOrder>, m: OrdersByIndex, isBuy: bool) {
    && Sorted(less, s)
    && forall o: PricedOrder :: o in s <==> Rests(m, o) && (o.side == Buy) == isBuy
  }

  ghost predicate WellIndexed(m: OrdersByIndex) {
    forall i :: i in m ==> m[i].index == i
  }

  /** Both sides rank exactly the resting orders that belong to them. */
  ghost predicate Consistent(b: Book) {
    && WellIndexed(b.byIndex)
    && Lists(BuyLess, b.buys.orders, b.byIndex, true)
    && Lists(SellLess, b.sells.orders, b.byIndex, false)
  }

  lemma ListingsAgree(less: Ranking, s: seq<PricedOrder>, t: seq<PricedOrder>, m: OrdersByIndex, isBuy: bool)
    requires Ranks(less) && Lists(less, s, m, isBuy) && Lists(less, t, m, isBuy)
    ensures s == t
  {
    ListingIsUnique(less, s, t);
  }

  // ---------------------------------------------------------------- one side at a time

  /** A comparator fit for the book: a strict weak order whose ties share the index. */
  ghost predicate Ranks(less: Ranking) {
    && StrictWeakOrder(less)
    && forall a: PricedOrder, b: PricedOrder :: less(a, b) || less(b, a) || a.index == b.index
  }

  lemma BuyLessRanks()
    ensures Ranks(BuyLess)
  {
    forall a: PricedOrder, b: PricedOrder, c: PricedOrder
      ensures BuyLess(a, b) ==> !BuyLess(b, a)
      ensures BuyLess(a, c) ==> BuyLess(a, b) || BuyLess(b, c)
      ensures BuyLess(a, b) || BuyLess(b, a) || a.index == b.index
    {
      BuysAreOrdered(a, b, c);
      BuysAreOrdered(c, b, a);
      BuysAreOrdered(a, c, b);
    }
  }

  lemma SellLessRanks()
    ensures Ranks(SellLess)
  {
    forall a: PricedOrder, b: PricedOrder, c: PricedOrder
      ensures SellLess(a, b) ==> !SellLess(b, a)
      ensures SellLess(a, c) ==> SellLess(a, b) || SellLess(b, c)
      ensures SellLess(a, b) || SellLess(b, a) || a.index == b.index
    {
      SellsAreOrdered(a, b, c);
      SellsAreOrdered(c, b, a);
      SellsAreOrdered(a, c, b);
    }
  }

  /** Erasing the order that rests under an index takes away that order and no other. */
  lemma EraseLists(less: Ranking, s: seq<PricedOrder>, m: OrdersByIndex, index: int, isBuy: bool)
    requires Ranks(less) && WellIndexed(m) && Lists(less, s, m, isBuy)
    requires index in m && (m[index].side == Buy) == isBuy
    ensures Holds(less, s, m[index])
    ensures Lists(less, Erased(less, s, m[index]), m - {index}, isBuy)
  {
    ErasedContents(less, s, m[index]);
    var i :| 0 <= i < |s| && s[i] == m[index];
    HoldsTheEquivalent(less, s, m[index], i);
  }

  lemma TieSharesIndex(less: Ranking, s: seq<PricedOrder>, o: PricedOrder)
    requires Ranks(less) && Sorted(less, s) && Holds(less, s, o)
    ensures exists tie :: tie in s && tie.index == o.index
  {
    LowerBoundSplits(less, s, o);
    assert s[LowerBound(less, s, o)] in s;
  }

  /** An order whose index is fresh is never dropped. */
  lemma InsertLists(less: Ranking, s: seq<PricedOrder>, m: OrdersByIndex, o: PricedOrder, isBuy: bool)
    requires Ranks(less) && WellIndexed(m) && Lists(less, s, m, isBuy)
    requires o.index !in m && (o.side == Buy) == isBuy
    ensures !Holds(less, s, o)
    ensures Lists(less, Inserted(less, s, o), m[o.index := o], isBuy)
  {
    if Holds(less, s, o) {
      TieSharesIndex(less, s, o);
    }
    InsertedContents(less, s, o);
    forall x: PricedOrder ensures Rests(m[o.index := o], x) <==> Rests(m, x) || x == o {
    }
  }

  /** The other side does not notice. */
  lemma OtherSideKeepsListing(less: Ranking, s: seq<PricedOrder>, m: OrdersByIndex, index: int, isBuy: bool)
    requires Lists(less, s, m, isBuy)
    requires index in m ==> (m[index].side == Buy) != isBuy
    ensures Lists(less, s, m - {index}, isBuy)
    ensures forall o: PricedOrder ::
              o.index == index && (o.side == Buy) != isBuy ==> Lists(less, s, m[index := o], isBuy)
  {
  }

  /** Removing every order of the source leaves a listing of what is left of the map. */
  lemma WithoutLists(less: Ranking, s: seq<PricedOrder>, m: OrdersByIndex, source: int, isBuy: bool)
    requires Ranks(less) && Lists(less, s, m, isBuy)
    ensures Lists(less, Without(s, IsFrom(source)), DropSource(m, source), isBuy)
  {
    WithoutContents(s, IsFrom(source));
    WithoutIsSorted(less, s, IsFrom(source));
  }

  /** Clearing leaves a listing of what is left of the map exactly when its loop is exact. */
  lemma ClearLists(less: Ranking, v: OrderSet, m: OrdersByIndex, source: int, isBuy: bool)
    requires Ranks(less) && Lists(less, v.orders, m, isBuy)
    ensures v.ClearIsDefined(source) && Lists(less, v.AfterClear(source).orders, DropSource(m, source), isBuy)
            <==> ClearIsSafe(v.orders, IsFrom(source))
  {
    var matches := IsFrom(source);
    var kept, wanted := ClearSkipping(v.orders, matches).kept, Without(v.orders, matches);
    WithoutLists(less, v.orders, m, source, isBuy);
    ClearSkippingIsExact(v.orders, matches);
    ClearSkippingIsDefinedIff(v.orders, matches);
    if Lists(less, kept, DropSource(m, source), isBuy) {
      ListingsAgree(less, kept, wanted, DropSource(m, source), isBuy);
    }
  }

  // ---------------------------------------------------------------- steps keep the book consistent

  lemma RemovalKeepsConsistency(b: Book, index: int)
    requires Consistent(b)
    ensures Consistent(b.WithoutIndex(index))
    ensures b.WithoutIndex(index).byIndex == b.byIndex - {index}
  {
    if index in b.byIndex {
      var removed := b.byIndex[index];
      if removed.side == Buy {
        BuyLessRanks();
        EraseLists(BuyLess, b.buys.orders, b.byIndex, index, true);
        assert b.buys.AfterErase(BuyLess, removed).orders == Erased(BuyLess, b.buys.orders, removed);
        OtherSideKeepsListing(SellLess, b.sells.orders, b.byIndex, index, false);
      } else {
        SellLessRanks();
        EraseLists(SellLess, b.sells.orders, b.byIndex, index, false);
        assert b.sells.AfterErase(SellLess, removed).orders == Erased(SellLess, b.sells.orders, removed);
        OtherSideKeepsListing(BuyLess, b.buys.orders, b.byIndex, index, true);
      }
    }
  }

  lemma AdditionKeepsConsistency(b: Book, o: PricedOrder)
    requires Consistent(b) && o.index !in b.byIndex
    ensures Consistent(b.With(o))
    ensures b.With(o).byIndex == b.byIndex[o.index := o]
  {
    if o.side == Buy {
      BuyLessRanks();
      InsertLists(BuyLess, b.buys.orders, b.byIndex, o, true);
      assert b.buys.AfterInsert(BuyLess, o).orders == Inserted(BuyLess, b.buys.orders, o);
      OtherSideKeepsListing(SellLess, b.sells.orders, b.byIndex, o.index, false);
    } else {
      SellLessRanks();
      InsertLists(SellLess, b.sells.orders, b.byIndex, o, false);
      assert b.sells.AfterInsert(SellLess, o).orders == Inserted(SellLess, b.sells.orders, o);
      OtherSideKeepsListing(BuyLess, b.buys.orders, b.byIndex, o.index, true);
    }
  }

  /** The condition under which a clear does what it is for: on either side, every order of the source is
      followed by an order of another source. */
  predicate ClearWorks(b: Book, source: int) {
    ClearIsSafe(b.buys.orders, IsFrom(source)) && ClearIsSafe(b.sells.orders, IsFrom(source))
  }

  predicate OpWorks(b: Book, op: Op) {
    op.Clear? ==> ClearWorks(b, op.source)
  }

  lemma ClearIsConsistentIff(b: Book, source: int)
    requires Consistent(b)
    ensures b.ClearIsDefined(source) && Consistent(b.AfterClear(source)) <==> ClearWorks(b, source)
  {
    BuyLessRanks();
    SellLessRanks();
    ClearLists(BuyLess, b.buys, b.byIndex, source, true);
    ClearLists(SellLess, b.sells, b.byIndex, source, false);
  }

  lemma EventKeepsConsistency(b: Book, e: Event)
    requires Consistent(b)
    ensures Consistent(b.AfterEvent(e))
    ensures b.AfterEvent(e).byIndex == RefApply(b.byIndex, Put(e))
  {
    var b' := b.WithoutIndex(e.index);
    RemovalKeepsConsistency(b, e.index);
    if e.ShallAdd() {
      AdditionKeepsConsistency(b', e);
      RemoveThenAdd(b.byIndex, e.index, e);
    }
  }

  lemma RemoveThenAdd(m: OrdersByIndex, index: int, o: PricedOrder)
    ensures (m - {index})[index := o] == m[index := o]
  {
  }

  /** Which side a resting order is on. */
  lemma RestsOnItsSide(b: Book, o: PricedOrder)
    requires Consistent(b) && o.index in b.byIndex && b.byIndex[o.index] == o
    ensures o in b.buys.orders <==> o.side.Buy?
    ensures o in b.sells.orders <==> !o.side.Buy?
  {
    assert Rests(b.byIndex, o);
  }

  /** What an event does under its index, in its own attributes: after one that asks for removal, or whose size is 0
      or no number, nothing rests there; after any other it rests there alone, among the buys if its side is buy, and
      else among the sells. */
  lemma EventDecidesItsIndex(b: Book, e: Event)
    requires Consistent(b)
    ensures var b' := b.AfterEvent(e);
            if e.removeEvent || e.size == Finite(0.0) || e.size == NaN then
              && e.index !in b'.byIndex
              && forall o: PricedOrder :: o in b'.buys.orders || o in b'.sells.orders ==> o.index != e.index
            else
              && e.index in b'.byIndex && b'.byIndex[e.index] == e
              && (e in b'.buys.orders <==> e.side.Buy?) && (e in b'.sells.orders <==> !e.side.Buy?)
              && forall o: PricedOrder :: (o in b'.buys.orders || o in b'.sells.orders) && o.index == e.index ==> o == e
  {
    EventKeepsConsistency(b, e);
    var b' := b.AfterEvent(e);
    forall o: PricedOrder | o in b'.buys.orders || o in b'.sells.orders
      ensures o.index in b'.byIndex && b'.byIndex[o.index] == o
    {
      assert Rests(b'.byIndex, o);
    }
    if !(e.removeEvent || e.size == Finite(0.0) || e.size == NaN) {
      RestsOnItsSide(b', e);
    }
  }

  /** And it changes nothing under any other index. */
  lemma EventSparesOtherIndices(b: Book, e: Event, o: PricedOrder)
    requires Consistent(b) && o.index != e.index
    ensures var b' := b.AfterEvent(e);
            && (o.index in b'.byIndex <==> o.index in b.byIndex)
            && (o.index in b.byIndex ==> b'.byIndex[o.index] == b.byIndex[o.index])
            && (o in b'.buys.orders <==> o in b.buys.orders) && (o in b'.sells.orders <==> o in b.sells.orders)
  {
    EventKeepsConsistency(b, e);
    assert Rests(b.AfterEvent(e).byIndex, o) <==> Rests(b.byIndex, o);
  }

  /** A clear that works takes away exactly the orders of its source, from the map and from both sides. */
  lemma ClearTakesTheSource(b: Book, source: int, o: PricedOrder)
    requires Consistent(b) && ClearWorks(b, source)
    ensures b.ClearIsDefined(source)
    ensures var b' := b.AfterClear(source);
            && (o.index in b'.byIndex && b'.byIndex[o.index] == o <==>
                  o.index in b.byIndex && b.byIndex[o.index] == o && o.source != source)
            && (o in b'.buys.orders <==> o in b.buys.orders && o.source != source)
            && (o in b'.sells.orders <==> o in b.sells.orders && o.source != source)
  {
    ClearIsConsistentIff(b, source);
    assert Rests(b.AfterClear(source).byIndex, o) <==> Rests(b.byIndex, o) && o.source != source;
  }

  // ---------------------------------------------------------------- a batch by index

  lemma FoldGoesOn(m: OrdersByIndex, source: int, events: seq<Event>, isSnapshot: bool)
    requires events != []
    ensures RefApplyAll(m, UpdateOps(source, events, isSnapshot)) ==
            RefApply(RefApplyAll(m, UpdateOps(source, events[..|events| - 1], isSnapshot)), Put(events[|events| - 1]))
  {
    var ops := UpdateOps(source, events, isSnapshot);
    assert ops[..|ops| - 1] == UpdateOps(source, events[..|events| - 1], isSnapshot);
  }

  /** Of the events of a batch that share an index the last one decides. */
  lemma {:induction false} LastEventDecides(m: OrdersByIndex, source: int, events: seq<Event>, isSnapshot: bool, k: nat)
    requires k < |events| && forall j :: k < j < |events| ==> events[j].index != events[k].index
    ensures var m', e := RefApplyAll(m, UpdateOps(source, events, isSnapshot)), events[k];
            if e.removeEvent || e.size == Finite(0.0) || e.size == NaN then e.index !in m'
            else e.index in m' && m'[e.index] == e
    decreases |events|
  {
    FoldGoesOn(m, source, events, isSnapshot);
    if k < |events| - 1 {
      LastEventDecides(m, source, events[..|events| - 1], isSnapshot, k);
    }
  }

  /** An index that no event of the batch has keeps its order, unless a snapshot of its source clears it. */
  lemma {:induction false} OtherIndicesStay(
      m: OrdersByIndex, source: int, events: seq<Event>, isSnapshot: bool, index: int)
    requires forall j :: 0 <= j < |events| ==> events[j].index != index
    ensures var m' := RefApplyAll(m, UpdateOps(source, events, isSnapshot));
            && (index in m' <==> index in m && (isSnapshot ==> m[index].source != source))
            && (index in m' ==> m'[index] == m[index])
    decreases |events|
  {
    if events == [] {
      var ops := UpdateOps(source, [], isSnapshot);
      assert ops == if isSnapshot then [Clear(source)] else [];
      assert isSnapshot ==> ops[..0] == [];
    } else {
      FoldGoesOn(m, source, events, isSnapshot);
      OtherIndicesStay(m, source, events[..|events| - 1], isSnapshot, index);
    }
  }

  /** One operation keeps the book consistent, and does to it what it does to the reference map, if and only
      if it is not a clear that skips an order or steps past the end. */
  lemma StepIsConsistentIff(b: Book, op: Op)
    requires Consistent(b)
    ensures Apply(b, op).Some? && Consistent(Apply(b, op).value) <==> OpWorks(b, op)
    ensures Apply(b, op).Some? ==> Apply(b, op).value.byIndex == RefApply(b.byIndex, op)
  {
    match op
    case Clear(source) => ClearIsConsistentIff(b, source);
    case Put(e) => EventKeepsConsistency(b, e);
  }

  // ---------------------------------------------------------------- whole runs

  /** Every state that a run of operations passes through exists and is consistent. */
  ghost predicate ConsistentThroughout(b: Book, ops: seq<Op>) {
    forall k :: 0 <= k <= |ops| ==> ApplyAll(b, ops[..k]).Some? && Consistent(ApplyAll(b, ops[..k]).value)
  }

  /** Every clear in the run finds a book on which it works. */
  ghost predicate ClearsWorkThroughout(b: Book, ops: seq<Op>) {
    forall k :: 0 <= k < |ops| && ApplyAll(b, ops[..k]).Some? ==> OpWorks(ApplyAll(b, ops[..k]).value, ops[k])
  }

  lemma ApplyNext(b: Book, ops: seq<Op>, k: nat)
    requires k < |ops| && ApplyAll(b, ops[..k]).Some?
    ensures ApplyAll(b, ops[..k + 1]) == Apply(ApplyAll(b, ops[..k]).value, ops[k])
  {
    assert ops[..k + 1][..k] == ops[..k];
  }

  /** A run from a consistent book is consistent all the way if and only if each of its clears works. */
  lemma RunIsConsistentIff(b: Book, ops: seq<Op>)
    requires Consistent(b)
    ensures ConsistentThroughout(b, ops) <==> ClearsWorkThroughout(b, ops)
  {
    if ConsistentThroughout(b, ops) {
      forall k | 0 <= k < |ops| ensures OpWorks(ApplyAll(b, ops[..k]).value, ops[k]) {
        ApplyNext(b, ops, k);
        StepIsConsistentIff(ApplyAll(b, ops[..k]).value, ops[k]);
      }
    }
    if ClearsWorkThroughout(b, ops) {
      forall k | 0 <= k <= |ops| ensures ApplyAll(b, ops[..k]).Some? && Consistent(ApplyAll(b, ops[..k]).value) {
        PrefixIsConsistent(b, ops, k);
      }
    }
  }

  lemma {:induction false} PrefixIsConsistent(b: Book, ops: seq<Op>, k: nat)
    requires Consistent(b) && ClearsWorkThroughout(b, ops) && k <= |ops|
    ensures ApplyAll(b, ops[..k]).Some? && Consistent(ApplyAll(b, ops[..k]).value)
  {
    if k > 0 {
      PrefixIsConsistent(b, ops, k - 1);
      ApplyNext(b, ops, k - 1);
      StepIsConsistentIff(ApplyAll(b, ops[..k - 1]).value, ops[k - 1]);
    }
  }

  /** The book refines the reference: after any run whose clears work, its two sides are the one ranked listing
      each of the buys and of the rest of the map that the plain fold over the operations yields. */
  lemma RunRefinesFold(b: Book, ops: seq<Op>)
    requires Consistent(b) && ClearsWorkThroughout(b, ops)
    ensures ApplyAll(b, ops).Some?
    ensures var b' := ApplyAll(b, ops).value;
            && b'.byIndex == RefApplyAll(b.byIndex, ops)
            && Lists(BuyLess, b'.buys.orders, RefApplyAll(b.byIndex, ops), true)
            && Lists(SellLess, b'.sells.orders, RefApplyAll(b.byIndex, ops), false)
  {
    PrefixIsConsistent(b, ops, |ops|);
    assert ops[..|ops|] == ops;
    PrefixMatchesFold(b, ops, |ops|);
  }

  lemma {:induction false} PrefixMatchesFold(b: Book, ops: seq<Op>, k: nat)
    requires Consistent(b) && ClearsWorkThroughout(b, ops) && k <= |ops|
    ensures ApplyAll(b, ops[..k]).Some?
    ensures ApplyAll(b, ops[..k]).value.byIndex == RefApplyAll(b.byIndex, ops[..k])
  {
    PrefixIsConsistent(b, ops, k);
    if k > 0 {
      PrefixMatchesFold(b, ops, k - 1);
      PrefixIsConsistent(b, ops, k - 1);
      ApplyNext(b, ops, k - 1);
      StepIsConsistentIff(ApplyAll(b, ops[..k - 1]).value, ops[k - 1]);
      assert ops[..k][..k - 1] == ops[..k - 1];
    }
  }

  /** In a consistent book the two sides are disjoint, together they hold exactly the values of the index, and
      no order is listed twice. */
  lemma SidesPartitionTheBook(b: Book)
    requires Consistent(b)
    ensures forall o :: o in b.buys.orders ==> o !in b.sells.orders
    ensures forall o: PricedOrder :: o in b.buys.orders || o in b.sells.orders <==>
                                     exists i :: i in b.byIndex && b.byIndex[i] == o
    ensures |b.buys.orders| + |b.sells.orders| == |b.byIndex|
  {
    forall o: PricedOrder ensures (exists i :: i in b.byIndex && b.byIndex[i] == o) <==> Rests(b.byIndex, o) {
    }
    CountOfBothSides(b.byIndex, b.buys.orders, b.sells.orders);
  }

  lemma CountOfBothSides(m: OrdersByIndex, buys: seq<PricedOrder>, sells: seq<PricedOrder>)
    requires WellIndexed(m) && Lists(BuyLess, buys, m, true) && Lists(SellLess, sells, m, false)
    ensures |buys| + |sells| == |m|
  {
    BuyLessRanks();
    SellLessRanks();
    IndicesAreCounted(BuyLess, buys, m, true);
    IndicesAreCounted(SellLess, sells, m, false);
    assert m.Keys == SideIndices(m, true) + SideIndices(m, false);
  }

  ghost function SideIndices(m: OrdersByIndex, isBuy: bool): set<int> {
    set i | i in m && (m[i].side == Buy) == isBuy
  }

  lemma {:induction false} IndicesAreCounted(less: Ranking, s: seq<PricedOrder>, m: OrdersByIndex, isBuy: bool)
    requires Ranks(less) && WellIndexed(m) && Lists(less, s, m, isBuy)
    ensures |s| == |SideIndices(m, isBuy)|
    decreases |s|
  {
    forall i | i in SideIndices(m, isBuy) ensures m[i] in s {
    }
    if s != [] {
      assert s[0] in s;
      var rest := m - {s[0].index};
      forall o: PricedOrder ensures o in s[1..] <==> Rests(rest, o) && (o.side == Buy) == isBuy {
        TailMembers(less, s, o);
      }
      IndicesAreCounted(less, s[1..], rest, isBuy);
      assert SideIndices(m, isBuy) == SideIndices(rest, isBuy) + {s[0].index};
    }
  }
}
