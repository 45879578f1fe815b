/** One side of the book: a comparator-ordered set of orders with a cached, depth-limited snapshot. */
module SortedOrderSets {
  import opened Orders
  import opened SortedLists

  type Ranking = (PricedOrder, PricedOrder) -> bool

  type Size = n: nat | n <= SIZE_MAX

  /** Orders of one source. */
  function IsFrom(source: int): PricedOrder -> bool {
    (o: PricedOrder) => o.source == source
  }

  predicate HasOrderFrom(orders: seq<PricedOrder>, source: int) {
    exists o :: o in orders && IsFrom(source)(o)
  }

  // ---------------------------------------------------------------- the set as a value

  datatype OrderSet = OrderSet(orders: seq<PricedOrder>, snapshot: seq<PricedOrder>, limit: Size, changed: bool) {

    /** The cached snapshot is what a reader should see, unless the set is marked for a refresh. */
    predicate CacheAgrees() {
      !changed ==> snapshot == Top(orders, limit)
    }

    /** `isOrderWithinDepthLimit`. */
    predicate IsWithin(less: Ranking, o: PricedOrder) {
      snapshot == [] || !less(snapshot[|snapshot| - 1], o)
    }

    /** A change at this order can be seen: the set is unlimited or underfull, or the snapshot does not end before the
        order. */
    predicate Shows(less: Ranking, o: PricedOrder) {
      Unbounded(limit) || |orders| <= limit || IsWithin(less, o)
    }

    /** `markAsChangedIfNeeded`. */
    function Marked(less: Ranking, o: PricedOrder): OrderSet {
      if !changed && Shows(less, o) then this.(changed := true) else this
    }

    function AfterInsert(less: Ranking, o: PricedOrder): OrderSet {
      if Holds(less, orders, o) then this else this.(orders := Inserted(less, orders, o)).Marked(less, o)
    }

    function AfterErase(less: Ranking, o: PricedOrder): OrderSet {
      if Holds(less, orders, o) then this.(orders := Erased(less, orders, o)).Marked(less, o) else this
    }

    /** An insert, or an erase, that takes place and can be seen in the set it leaves. */
    predicate InsertMarks(less: Ranking, o: PricedOrder) {
      !Holds(less, orders, o) && this.(orders := Inserted(less, orders, o)).Shows(less, o)
    }

    predicate EraseMarks(less: Ranking, o: PricedOrder) {
      Holds(less, orders, o) && this.(orders := Erased(less, orders, o)).Shows(less, o)
    }

    /** The block of orders of the source at the end of the set, if there is one, is of even length. */
    predicate ClearIsDefined(source: int) {
      Trailing(orders, IsFrom(source)) % 2 == 0
    }

    /** A clear by this source leaves something for the next reader to see, or nothing is to be seen. */
    predicate IsSpared(source: int) {
      HasOrderFrom(orders, source) || snapshot == Top(orders, limit)
    }

    /** `clearBySource`, when its loop does not run past the end. */
    function AfterClear(source: int): OrderSet {
      var kept := ClearSkipping(orders, IsFrom(source)).kept;
      this.(orders := kept, changed := |kept| != |orders|)
    }

    function AfterLimit(newLimit: Size): OrderSet {
      if limit == newLimit then this else this.(limit := newLimit, changed := true)
    }

    /** `toVector`; the reader gets the snapshot of the result. */
    function AfterRead(): OrderSet {
      if changed then this.(snapshot := Top(orders, limit), changed := false) else this
    }
  }

  // ---------------------------------------------------------------- the cache

  /** The mark is set for an order that is not behind the snapshot, for every order in a set that is unlimited or not
      larger than its limit, and for no other; nothing else changes. */
  lemma MarkIsSetIff(less: Ranking, v: OrderSet, o: PricedOrder)
    ensures var v' := v.Marked(less, o);
            && v'.orders == v.orders && v'.snapshot == v.snapshot && v'.limit == v.limit
            && (v'.changed <==>
                  || v.changed || v.limit == 0 || v.limit == 0xFFFF_FFFF_FFFF_FFFF || |v.orders| <= v.limit
                  || v.snapshot == [] || !less(v.snapshot[|v.snapshot| - 1], o))
  {
  }

  /** An insert or erase leaves the cache in agreement if and only if it agreed before or the change sets the mark:
      an unmarked change never takes a cache out of agreement, and never brings one back. */
  lemma InsertAgreesIff(less: Ranking, v: OrderSet, o: PricedOrder)
    requires StrictWeakOrder(less) && Sorted(less, v.orders)
    ensures var v' := v.AfterInsert(less, o);
            && Sorted(less, v'.orders)
            && (v'.CacheAgrees() <==> v.CacheAgrees() || v.InsertMarks(less, o))
            && (v'.changed <==> v.changed || v.InsertMarks(less, o))
  {
    InsertedContents(less, v.orders, o);
    if !Holds(less, v.orders, o) && !v.InsertMarks(less, o) {
      InsertBelowTop(less, v.orders, o, v.limit, v.snapshot);
    }
  }

  lemma EraseAgreesIff(less: Ranking, v: OrderSet, o: PricedOrder)
    requires StrictWeakOrder(less) && Sorted(less, v.orders)
    ensures var v' := v.AfterErase(less, o);
            && Sorted(less, v'.orders)
            && (v'.CacheAgrees() <==> v.CacheAgrees() || v.EraseMarks(less, o))
            && (v'.changed <==> v.changed || v.EraseMarks(less, o))
  {
    ErasedContents(less, v.orders, o);
    if Holds(less, v.orders, o) && !v.EraseMarks(less, o) {
      EraseBelowTop(less, v.orders, o, v.limit, v.snapshot);
    }
  }

  /** Clearing by source overwrites the changed mark: a mark that was pending survives if and only if the
      set has an order of that source. */
  lemma ClearKeepsMarkIff(v: OrderSet, source: int)
    requires v.ClearIsDefined(source)
    ensures (v.changed ==> v.AfterClear(source).changed) <==> !v.changed || HasOrderFrom(v.orders, source)
  {
    ClearSkippingContents(v.orders, IsFrom(source));
  }

  /** So the cache agrees after a clear if and only if the set has an order of that source, or the snapshot is what a
      reader should see, whether a refresh was pending or not. */
  lemma ClearAgreesIff(v: OrderSet, source: int)
    requires v.ClearIsDefined(source)
    ensures v.AfterClear(source).CacheAgrees() <==> v.IsSpared(source)
    ensures v.AfterClear(source).changed <==> HasOrderFrom(v.orders, source)
  {
    ClearSkippingContents(v.orders, IsFrom(source));
    if !HasOrderFrom(v.orders, source) {
      NothingToClear(v.orders, IsFrom(source));
    }
  }

  lemma {:induction false} NothingToClear(s: seq<PricedOrder>, matches: PricedOrder -> bool)
    requires forall o :: o in s ==> !matches(o)
    ensures ClearSkipping(s, matches).kept == s
  {
    if s != [] {
      NothingToClear(s[1..], matches);
      assert s == [s[0]] + s[1..];
    }
  }

  // ---------------------------------------------------------------- the set as an object

  ghost function Prepended(seen: seq<PricedOrder>, c: Cleared<PricedOrder>): Cleared<PricedOrder> {
    Cleared(seen + c.kept, c.defined)
  }

  /** One turn of the clearing loop, over what was seen and what is still ahead of the iterator: an order
      that stays is passed, an order that goes takes its successor past the iterator. */
  lemma PassStep(seen: seq<PricedOrder>, rest: seq<PricedOrder>, matches: PricedOrder -> bool)
    requires rest != [] && !matches(rest[0])
    ensures seen + rest == seen + [rest[0]] + rest[1..]
    ensures Prepended(seen, ClearSkipping(rest, matches)) ==
            Prepended(seen + [rest[0]], ClearSkipping(rest[1..], matches))
  {
    var kept := ClearSkipping(rest[1..], matches).kept;
    assert seen + ([rest[0]] + kept) == seen + [rest[0]] + kept;
  }

  lemma EraseStep(seen: seq<PricedOrder>, rest: seq<PricedOrder>, matches: PricedOrder -> bool)
    requires rest != [] && matches(rest[0])
    ensures |rest| == 1 ==> !ClearSkipping(rest, matches).defined
    ensures |rest| > 1 ==> Prepended(seen, ClearSkipping(rest, matches)) ==
                           Prepended(seen + [rest[1]], ClearSkipping(rest[2..], matches))
  {
    if |rest| > 1 {
      var kept := ClearSkipping(rest[2..], matches).kept;
      assert seen + ([rest[1]] + kept) == seen + [rest[1]] + kept;
    }
  }

  lemma EraseInPlace(seen: seq<PricedOrder>, rest: seq<PricedOrder>)
    requires rest != []
    ensures (seen + rest)[..|seen|] + (seen + rest)[|seen| + 1..] == seen + rest[1..]
    ensures |rest| > 1 ==> seen + rest[1..] == seen + [rest[1]] + rest[2..]
  {
  }

  class SortedOrderSet {
    const less: Ranking
    var snapshot: seq<PricedOrder>
    var orders: seq<PricedOrder>
    var depthLimit: Size
    var isChanged: bool

    function State(): OrderSet
      reads this
    {
      OrderSet(orders, snapshot, depthLimit, isChanged)
    }

    constructor (less: Ranking)
      ensures this.less == less && State() == OrderSet([], [], 0, false)
    {
      this.less := less;
      snapshot, orders, depthLimit, isChanged := [], [], 0, false;
    }

    method IsDepthLimitUnbounded() returns (r: bool)
      ensures r == Unbounded(depthLimit)
      ensures r <==> depthLimit == 0 || depthLimit == 0xFFFF_FFFF_FFFF_FFFF
    {
      r := depthLimit == 0 || depthLimit == SIZE_MAX;
    }

    /** Copies the first orders, one by one, up to the limit. */
    method UpdateSnapshot()
      modifies this
      ensures State() == old(State()).(snapshot := Top(old(orders), old(depthLimit)), changed := false)
      ensures snapshot <= orders == old(orders)
      ensures depthLimit == 0 || depthLimit == 0xFFFF_FFFF_FFFF_FFFF ==>
                |snapshot| == if |orders| <= 0xFFFF_FFFF_FFFF_FFFF then |orders| else 0xFFFF_FFFF_FFFF_FFFF
      ensures 0 < depthLimit < 0xFFFF_FFFF_FFFF_FFFF ==>
                |snapshot| == if |orders| <= depthLimit then |orders| else depthLimit
    {
      isChanged := false;
      snapshot := [];
      var unbounded := IsDepthLimitUnbounded();
      var limit := if unbounded then SIZE_MAX else depthLimit;
      var i := 0;
      while i < limit && i < |orders|
        invariant 0 <= i <= limit && i <= |orders|
        invariant State() == old(State()).(snapshot := orders[..i], changed := false)
      {
        snapshot := snapshot + [orders[i]];
        i := i + 1;
      }
    }

    method MarkAsChangedIfNeeded(o: PricedOrder)
      modifies this
      ensures State() == old(State()).Marked(less, o)
    {
      if isChanged {
        return;
      }
      var unbounded := IsDepthLimitUnbounded();
      if unbounded || |orders| <= depthLimit || State().IsWithin(less, o) {
        isChanged := true;
      }
    }

    method SetDepthLimit(limit: Size)
      modifies this
      ensures State() == old(State()).AfterLimit(limit)
      ensures depthLimit == limit && orders == old(orders) && snapshot == old(snapshot)
      ensures isChanged == (old(isChanged) || limit != old(depthLimit))
    {
      if depthLimit == limit {
        return;
      }
      depthLimit := limit;
      isChanged := true;
    }

    method Insert(o: PricedOrder) returns (added: bool)
      modifies this
      ensures State() == old(State()).AfterInsert(less, o)
      ensures added == !Holds(less, old(orders), o)
    {
      added := !Holds(less, orders, o);
      if added {
        orders := Inserted(less, orders, o);
        MarkAsChangedIfNeeded(o);
      }
    }

    method Erase(o: PricedOrder) returns (removed: bool)
      modifies this
      ensures State() == old(State()).AfterErase(less, o)
      ensures removed == Holds(less, old(orders), o)
    {
      removed := Holds(less, orders, o);
      if removed {
        orders := Erased(less, orders, o);
        MarkAsChangedIfNeeded(o);
      }
    }

    /** The loop advances its iterator also after an erase has already moved it to the next order; once the
        iterator stands at the end that is undefined, and the call is reported as not defined. */
    method ClearBySource(source: int) returns (defined: bool)
      modifies this
      ensures defined == old(State()).ClearIsDefined(source)
      ensures defined ==> State() == old(State()).AfterClear(source)
    {
      var size := |orders|;
      var it := 0;
      ghost var matches := IsFrom(source);
      ghost var target := ClearSkipping(orders, matches);
      ClearSkippingIsDefinedIff(orders, matches);
      ghost var seen, rest := [], orders;
      while it != |orders|
        invariant orders == seen + rest && it == |seen|
        invariant snapshot == old(snapshot) && depthLimit == old(depthLimit)
        invariant target == Prepended(seen, ClearSkipping(rest, matches))
        decreases |rest|
      {
        if orders[it].source == source {
          EraseStep(seen, rest, matches);
          EraseInPlace(seen, rest);
          orders := orders[..it] + orders[it + 1..];
          if it == |orders| {
            return false;
          }
          seen, rest := seen + [rest[1]], rest[2..];
        } else {
          PassStep(seen, rest, matches);
          seen, rest := seen + [rest[0]], rest[1..];
        }
        it := it + 1;
      }
      isChanged := |orders| != size;
      defined := true;
    }

    method ToVector() returns (r: seq<PricedOrder>)
      modifies this
      ensures State() == old(State()).AfterRead()
      ensures r == snapshot && !isChanged && orders == old(orders) && depthLimit == old(depthLimit)
      ensures old(State().CacheAgrees()) <==> r == Top(orders, depthLimit)
      ensures old(State().CacheAgrees()) ==>
                && r <= orders
                && (depthLimit == 0 || depthLimit == 0xFFFF_FFFF_FFFF_FFFF ==>
                      |r| == if |orders| <= 0xFFFF_FFFF_FFFF_FFFF then |orders| else 0xFFFF_FFFF_FFFF_FFFF)
                && (0 < depthLimit < 0xFFFF_FFFF_FFFF_FFFF ==>
                      |r| == if |orders| <= depthLimit then |orders| else depthLimit)
    {
      TopIsPrefix(orders, depthLimit);
      if isChanged {
        UpdateSnapshot();
      }
      r := snapshot;
    }
  }
}
