/** Orders of a market depth model and the comparators that rank them. */
module Orders {

  // ---------------------------------------------------------------- doubles

  /** An IEEE double as the comparators see it: zero has one representation and rounding plays no part. */
  datatype Double = NaN | NegativeInfinity | Finite(value: real) | PositiveInfinity

  /** The built-in `<` on doubles, false whenever a NaN takes part. */
  predicate Below(a: Double, b: Double) {
    !b.NaN? &&
    match a
    case NaN => false
    case NegativeInfinity => !b.NegativeInfinity?
    case Finite(x) => b.PositiveInfinity? || (b.Finite? && x < b.value)
    case PositiveInfinity => false
  }

  /** `math::compare(double, double)`: NaN is below every number and equal to itself. */
  function CompareDoubles(a: Double, b: Double): int {
    if a.NaN? || b.NaN? then
      if a.NaN? then if b.NaN? then 0 else -1 else 1
    else if Below(a, b) then -1
    else if Below(b, a) then 1
    else 0
  }

  /** `math::compare` on integers. */
  function CompareInts(a: int, b: int): int {
    if a < b then -1 else if b < a then 1 else 0
  }

  // ---------------------------------------------------------------- text

  /** `operator<` on strings. */
  predicate TextBelow(a: string, b: string) {
    b != "" && (a == "" || a[0] < b[0] || (a[0] == b[0] && TextBelow(a[1..], b[1..])))
  }

  /** The two tests on the market makers, as one three-way result. */
  function CompareText(a: string, b: string): int {
    if TextBelow(a, b) then -1 else if TextBelow(b, a) then 1 else 0
  }

  /** Text comparison is a total order on the strings themselves. */
  lemma {:induction false} TextOrderIsTotal(a: string, b: string)
    ensures !(TextBelow(a, b) && TextBelow(b, a))
    ensures TextBelow(a, b) || TextBelow(b, a) || a == b
    ensures !TextBelow(a, a)
  {
    if a != "" {
      TextOrderIsTotal(a[1..], if b == "" then "" else b[1..]);
      if b != "" && a[0] == b[0] && a[1..] == b[1..] {
        assert a == [a[0]] + a[1..];
        assert b == [b[0]] + b[1..];
      }
    }
  }

  lemma {:induction false} TextOrderIsTransitive(a: string, b: string, c: string)
    requires !TextBelow(b, a) && !TextBelow(c, b)
    ensures !TextBelow(c, a)
    ensures TextBelow(a, b) || TextBelow(b, c) ==> TextBelow(a, c)
  {
    if a != "" && b != "" && c != "" && a[0] == b[0] == c[0] {
      TextOrderIsTransitive(a[1..], b[1..], c[1..]);
    }
  }

  /** Text comparison is lexicographic: the first difference decides, and a proper prefix comes first. */
  lemma {:induction false} TextIsLexicographic(a: string, b: string)
    ensures TextBelow(a, b) <==>
            exists k :: 0 <= k <= |a| && k < |b| && a[..k] == b[..k] && (k == |a| || a[k] < b[k])
  {
    if a != "" && b != "" {
      TextIsLexicographic(a[1..], b[1..]);
      if k :| 0 <= k <= |a[1..]| && k < |b[1..]| && a[1..][..k] == b[1..][..k] &&
              (k == |a[1..]| || a[1..][k] < b[1..][k]) && a[0] == b[0]
      {
        assert a[..k + 1] == [a[0]] + a[1..][..k] && b[..k + 1] == [b[0]] + b[1..][..k];
      }
      if k :| 0 <= k <= |a| && k < |b| && a[..k] == b[..k] && (k == |a| || a[k] < b[k]) {
        if k > 0 {
          assert a[0] == a[..k][0] == b[..k][0] == b[0];
          assert a[1..][..k - 1] == a[..k][1..] == b[..k][1..] == b[1..][..k - 1];
        }
      }
    } else if b != "" {
      assert a[..0] == b[..0];
    }
  }

  // ---------------------------------------------------------------- orders

  datatype Scope = Composite | Regional | Aggregate | Individual {
    function Code(): int {
      match this
      case Composite => 0
      case Regional => 1
      case Aggregate => 2
      case Individual => 3
    }
  }

  datatype Side = UndefinedSide | Buy | Sell

  /** The attributes of an order that the model reads. */
  datatype Order = Order(
    scope: Scope,
    price: Double,
    size: Double,
    timeSequence: int,
    exchangeCode: int,
    marketMaker: string,
    index: int,
    source: int,
    side: Side,
    removeEvent: bool
  ) {
    predicate HasSize() {
      size != Finite(0.0) && !size.NaN?
    }

    /** Only such orders enter the book; every other event removes the order of its index. */
    predicate ShallAdd() {
      HasSize() && !removeEvent
    }
  }

  /** An order whose price is a number: the orders on which the price tests are an order relation. */
  type PricedOrder = o: Order | !o.price.NaN?
    witness Order(Individual, Finite(0.0), Finite(1.0), 0, 0, "", 0, 0, Buy, false)

  /** `OrderComparator`. */
  function CompareOrders(a: Order, b: Order): int {
    if a.scope == Individual && b.scope == Individual then
      var c := CompareInts(a.timeSequence, b.timeSequence);
      if c != 0 then c else CompareInts(a.index, b.index)
    else if a.scope == Individual then 1
    else if b.scope == Individual then -1
    else CompareAggregates(a, b)
  }

  /** The part of `OrderComparator` for two orders of which neither is individual. */
  function CompareAggregates(a: Order, b: Order): int {
    var c := CompareDoubles(b.size, a.size);
    if c != 0 then c else
    var c := CompareInts(a.timeSequence, b.timeSequence);
    if c != 0 then c else
    var c := CompareInts(a.scope.Code(), b.scope.Code());
    if c != 0 then c else
    var c := CompareInts(a.exchangeCode, b.exchangeCode);
    if c != 0 then c else
    var c := CompareText(a.marketMaker, b.marketMaker);
    if c != 0 then c else CompareInts(a.index, b.index)
  }

  /** `BuyComparator`: the highest price first. */
  function CompareBuys(a: Order, b: Order): int {
    if Below(a.price, b.price) then 1
    else if Below(b.price, a.price) then -1
    else CompareOrders(a, b)
  }

  /** `SellComparator`: the lowest price first. */
  function CompareSells(a: Order, b: Order): int {
    if Below(a.price, b.price) then -1
    else if Below(b.price, a.price) then 1
    else CompareOrders(a, b)
  }

  predicate BuyLess(a: PricedOrder, b: PricedOrder) {
    CompareBuys(a, b) < 0
  }

  predicate SellLess(a: PricedOrder, b: PricedOrder) {
    CompareSells(a, b) < 0
  }

  // ---------------------------------------------------------------- priority

  /** The priority of orders in terms of their attributes: the first attribute in which they differ decides. */
  predicate AggregatePrecedes(a: Order, b: Order) {
    || IsLarger(a.size, b.size)
    || (a.size == b.size &&
        (a.timeSequence < b.timeSequence || (a.timeSequence == b.timeSequence && AttributesPrecede(a, b))))
  }

  predicate AttributesPrecede(a: Order, b: Order) {
    || a.scope.Code() < b.scope.Code()
    || (a.scope == b.scope &&
        (a.exchangeCode < b.exchangeCode ||
         (a.exchangeCode == b.exchangeCode &&
          (TextBelow(a.marketMaker, b.marketMaker) || (a.marketMaker == b.marketMaker && a.index < b.index)))))
  }

  /** A size that is no number is smaller than every number. */
  predicate IsLarger(a: Double, b: Double) {
    (b.NaN? && !a.NaN?) || Below(b, a)
  }

  /** Individual orders are ranked by time, behind all others. */
  predicate Precedes(a: Order, b: Order) {
    if a.scope == Individual then
      b.scope == Individual &&
      (a.timeSequence < b.timeSequence || (a.timeSequence == b.timeSequence && a.index < b.index))
    else b.scope == Individual || AggregatePrecedes(a, b)
  }

  /** The buy set begins with the highest price and the sell set with the lowest; orders of one price stand in
      the order of their priority. */
  lemma SetsAreInPriority(a: PricedOrder, b: PricedOrder)
    ensures BuyLess(a, b) <==> Below(b.price, a.price) || (a.price == b.price && Precedes(a, b))
    ensures SellLess(a, b) <==> Below(a.price, b.price) || (a.price == b.price && Precedes(a, b))
  {
    TextOrderIsTotal(a.marketMaker, b.marketMaker);
  }

  /** Between two prices the higher one is first among the buys and last among the sells. */
  lemma BetterPriceFirst(a: PricedOrder, b: PricedOrder)
    requires || (a.price.Finite? && b.price.Finite? && a.price.value > b.price.value)
             || (a.price.PositiveInfinity? && !b.price.PositiveInfinity?)
             || (b.price.NegativeInfinity? && !a.price.NegativeInfinity?)
    ensures BuyLess(a, b) && !BuyLess(b, a)
    ensures SellLess(b, a) && !SellLess(a, b)
  {
  }

  /** a stands before b in either set. */
  predicate First(a: PricedOrder, b: PricedOrder) {
    BuyLess(a, b) && !BuyLess(b, a) && SellLess(a, b) && !SellLess(b, a)
  }

  /** At one price, between orders of which none is individual, the larger size is first, and no number is last. */
  lemma LargerSizeFirst(a: PricedOrder, b: PricedOrder)
    requires a.price == b.price && !a.scope.Individual? && !b.scope.Individual?
    requires || (a.size.Finite? && b.size.Finite? && a.size.value > b.size.value)
             || (a.size.PositiveInfinity? && !b.size.PositiveInfinity?)
             || (b.size.NegativeInfinity? && !a.size.NegativeInfinity? && !a.size.NaN?)
             || (b.size.NaN? && !a.size.NaN?)
    ensures First(a, b)
  {
  }

  /** At one price and size they go by time sequence, then composite before regional before aggregate, then by exchange
      code, market maker and index. */
  lemma EarlierAttributesFirst(a: PricedOrder, b: PricedOrder)
    requires a.price == b.price && a.size == b.size && !a.scope.Individual? && !b.scope.Individual?
    ensures a.timeSequence < b.timeSequence ==> First(a, b)
    ensures a.timeSequence == b.timeSequence ==>
              && (a.scope.Composite? && !b.scope.Composite? ==> First(a, b))
              && (a.scope.Regional? && b.scope.Aggregate? ==> First(a, b))
              && (a.scope == b.scope ==>
                    && (a.exchangeCode < b.exchangeCode ==> First(a, b))
                    && (a.exchangeCode == b.exchangeCode ==>
                          && (TextBelow(a.marketMaker, b.marketMaker) ==> First(a, b))
                          && (a.marketMaker == b.marketMaker && a.index < b.index ==> First(a, b))))
  {
    TextOrderIsTotal(a.marketMaker, b.marketMaker);
  }

  /** At one price individual orders come after all others, and among themselves by time sequence and index. */
  lemma IndividualOrdersLast(a: PricedOrder, b: PricedOrder)
    requires a.price == b.price && b.scope.Individual?
    ensures !a.scope.Individual? ==> First(a, b)
    ensures a.scope.Individual? && a.timeSequence < b.timeSequence ==> First(a, b)
    ensures a.scope.Individual? && a.timeSequence == b.timeSequence && a.index < b.index ==> First(a, b)
  {
  }

  // ---------------------------------------------------------------- soundness of the comparators

  lemma AggregatesAreOrdered(a: Order, b: Order, c: Order)
    ensures CompareAggregates(a, b) == -CompareAggregates(b, a)
    ensures CompareAggregates(a, b) <= 0 && CompareAggregates(b, c) <= 0 ==> CompareAggregates(a, c) <= 0
  {
    TextOrderIsTotal(a.marketMaker, b.marketMaker);
    TextOrderIsTotal(b.marketMaker, c.marketMaker);
    TextOrderIsTotal(a.marketMaker, c.marketMaker);
    if !TextBelow(b.marketMaker, a.marketMaker) && !TextBelow(c.marketMaker, b.marketMaker) {
      TextOrderIsTransitive(a.marketMaker, b.marketMaker, c.marketMaker);
    }
  }

  /** The tie-breaking comparator on any mix of individual and aggregate orders, sizes that are NaN included:
      swapping the arguments negates it, it is transitive, and it is 0 only for orders of the same index. */
  lemma OrdersAreOrdered(a: Order, b: Order, c: Order)
    ensures CompareOrders(a, b) == -CompareOrders(b, a)
    ensures CompareOrders(a, b) <= 0 && CompareOrders(b, c) <= 0 ==> CompareOrders(a, c) <= 0
    ensures CompareOrders(a, b) == 0 ==> a.index == b.index
  {
    AggregatesAreOrdered(a, b, c);
  }

  lemma BuysAreOrdered(a: PricedOrder, b: PricedOrder, c: PricedOrder)
    ensures CompareBuys(a, b) == -CompareBuys(b, a)
    ensures CompareBuys(a, b) <= 0 && CompareBuys(b, c) <= 0 ==> CompareBuys(a, c) <= 0
    ensures CompareBuys(a, b) == 0 ==> a.index == b.index
  {
    OrdersAreOrdered(a, b, c);
  }

  lemma SellsAreOrdered(a: PricedOrder, b: PricedOrder, c: PricedOrder)
    ensures CompareSells(a, b) == -CompareSells(b, a)
    ensures CompareSells(a, b) <= 0 && CompareSells(b, c) <= 0 ==> CompareSells(a, c) <= 0
    ensures CompareSells(a, b) == 0 ==> a.index == b.index
  {
    OrdersAreOrdered(a, b, c);
  }

  /** An order fits between its neighbours under the buy comparator: what is above it is above what is below it. */
  ghost predicate FitsAmongBuys(n: Order) {
    forall a: PricedOrder, b: PricedOrder :: CompareBuys(a, n) < 0 && CompareBuys(n, b) < 0 ==> CompareBuys(a, b) < 0
  }

  ghost predicate FitsAmongSells(n: Order) {
    forall a: PricedOrder, b: PricedOrder :: CompareSells(a, n) < 0 && CompareSells(n, b) < 0 ==> CompareSells(a, b) < 0
  }

  /** The comparators order an order among the others exactly when its price is a number. */
  lemma OnlyNumbersAreRanked(n: Order)
    ensures FitsAmongBuys(n) <==> !n.price.NaN?
    ensures FitsAmongSells(n) <==> !n.price.NaN?
  {
    if n.price.NaN? {
      // Two orders that the tie-breaks put on either side of n, at prices that put them the other way round.
      var before := n.(price := Finite(1.0), index := n.index - 1);
      var after := n.(price := Finite(2.0), index := n.index + 1);
      TextOrderIsTotal(n.marketMaker, n.marketMaker);
      assert CompareBuys(before, n) < 0 && CompareBuys(n, after) < 0 && CompareBuys(before, after) > 0;
      var before', after' := before.(price := Finite(2.0)), after.(price := Finite(1.0));
      assert CompareSells(before', n) < 0 && CompareSells(n, after') < 0 && CompareSells(before', after') > 0;
    } else {
      forall a: PricedOrder, b: PricedOrder | CompareBuys(a, n) < 0 && CompareBuys(n, b) < 0
        ensures CompareBuys(a, b) < 0
      {
        BuysAreOrdered(b, a, n);
        BuysAreOrdered(n, b, a);
      }
      forall a: PricedOrder, b: PricedOrder | CompareSells(a, n) < 0 && CompareSells(n, b) < 0
        ensures CompareSells(a, b) < 0
      {
        SellsAreOrdered(b, a, n);
        SellsAreOrdered(n, b, a);
      }
    }
  }
}
