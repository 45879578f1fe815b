/** Running statistics of named metrics. Integers are unbounded and reals are exact. */
module Metrics {
  import opened Integers

  datatype IntStats = IntStats(count: nat, value: int, minValue: int, maxValue: int, avgValue: int)

  datatype RealStats = RealStats(count: nat, value: real, minValue: real, maxValue: real, avgValue: real)

  datatype Value = Text(text: string) | Reals(reals: RealStats) | Ints(ints: IntStats)

  // ---------------------------------------------------------------- one update

  /** `recalculateStatsImpl` on integers: the quotient is cast back to an integer, so it is truncated. */
  function RecalculatedInts(s: IntStats, v: int): IntStats {
    IntStats(s.count + 1, v, if v < s.minValue then v else s.minValue, if s.maxValue < v then v else s.maxValue,
             TruncDiv(s.avgValue * s.count + v, s.count + 1))
  }

  function RecalculatedReals(s: RealStats, v: real): RealStats {
    RealStats(s.count + 1, v, if v < s.minValue then v else s.minValue, if s.maxValue < v then v else s.maxValue,
              (s.avgValue * s.count as real + v) / (s.count as real + 1.0))
  }

  // ---------------------------------------------------------------- a history of updates

  function IntsAfter(history: seq<int>): IntStats
    requires history != []
  {
    var n := |history| - 1;
    if n == 0 then IntStats(1, history[0], history[0], history[0], history[0])
    else RecalculatedInts(IntsAfter(history[..n]), history[n])
  }

  function RealsAfter(history: seq<real>): RealStats
    requires history != []
  {
    var n := |history| - 1;
    if n == 0 then RealStats(1, history[0], history[0], history[0], history[0])
    else RecalculatedReals(RealsAfter(history[..n]), history[n])
  }

  function Sum(history: seq<real>): real {
    if history == [] then 0.0 else Sum(history[..|history| - 1]) + history[|history| - 1]
  }

  /** Over any history of integers the count is its length, the value its last entry, minimum and maximum are its
      true extremes, and the average, although truncated at every update, stays between them. */
  lemma {:induction false} IntStatistics(history: seq<int>)
    requires history != []
    ensures var s := IntsAfter(history);
            && s.count == |history| && s.value == history[|history| - 1]
            && s.minValue in history && s.maxValue in history
            && (forall v :: v in history ==> s.minValue <= v <= s.maxValue)
            && s.minValue <= s.avgValue <= s.maxValue
    decreases |history|
  {
    var n := |history| - 1;
    if n > 0 {
      IntStatistics(history[..n]);
      var (s, t) := (IntsAfter(history[..n]), IntsAfter(history));
      assert history == history[..n] + [history[n]];
      TruncatedMeanIsBetween(s.avgValue, s.count, history[n], t.minValue, t.maxValue);
    }
  }

  lemma TruncatedMeanIsBetween(avg: int, count: nat, v: int, low: int, high: int)
    requires low <= avg <= high && low <= v <= high
    ensures low <= TruncDiv(avg * count + v, count + 1) <= high
  {
    var (x, n) := (avg * count + v, count + 1);
    assert low * n <= x <= high * n by {
      ProductOfNaturals(avg - low, count);
      ProductOfNaturals(high - avg, count);
      assert (avg - low) * count == avg * count - low * count;
      assert (high - avg) * count == high * count - avg * count;
      assert low * n == low * count + low && high * n == high * count + high;
    }
    TruncRemainder(x, n);
    var q := TruncDiv(x, n);
    AtLeastByMultiples(q, low, n);
    AtLeastByMultiples(high, q, n);
  }

  lemma AtLeastByMultiples(a: int, b: int, n: int)
    requires n > 0 && a * n > b * n - n
    ensures a >= b
  {
    assert (b - 1 - a) * n == b * n - n - a * n;
    if a < b {
      ProductOfNaturals(b - 1 - a, n);
    }
  }

  /** Each integral update moves the average to the quotient of the old average times the count plus the value, and the
      new count, cut off toward zero. */
  lemma NextAverageIsTruncated(s: IntStats, v: int)
    ensures var x, n, q := s.avgValue * s.count + v, s.count + 1, RecalculatedInts(s, v).avgValue;
            if x >= 0 then 0 <= x - q * n < n else -n < x - q * n <= 0
  {
    TruncRemainder(s.avgValue * s.count + v, s.count + 1);
  }

  /** Over any history of reals the count, the value and the extremes are right as well. */
  lemma {:induction false} RealStatistics(history: seq<real>)
    requires history != []
    ensures var s := RealsAfter(history);
            && s.count == |history| && s.value == history[|history| - 1]
            && s.minValue in history && s.maxValue in history
            && (forall v :: v in history ==> s.minValue <= v <= s.maxValue)
    decreases |history|
  {
    var n := |history| - 1;
    if n > 0 {
      RealStatistics(history[..n]);
      assert history == history[..n] + [history[n]];
    }
  }

  predicate IsMeanOf(s: RealStats, total: real) {
    s.avgValue * s.count as real == total
  }

  lemma QuotientTimesDivisor(x: real, d: real)
    requires d > 0.0
    ensures x / d * d == x
  {
  }

  lemma NextMean(s: RealStats, v: real, total: real)
    requires IsMeanOf(s, total)
    ensures IsMeanOf(RecalculatedReals(s, v), total + v)
  {
    QuotientTimesDivisor(total + v, s.count as real + 1.0);
  }

  lemma {:induction false} AverageIsMeanOfSum(history: seq<real>)
    requires history != []
    ensures IsMeanOf(RealsAfter(history), Sum(history))
    decreases |history|
  {
    var n := |history| - 1;
    if n == 0 {
      assert history[..0] == [];
    } else {
      AverageIsMeanOfSum(history[..n]);
      NextMean(RealsAfter(history[..n]), history[n], Sum(history[..n]));
    }
  }

  /** And the average is exactly the mean. */
  lemma RealAverageIsMean(history: seq<real>)
    requires history != []
    ensures RealsAfter(history).count == |history|
    ensures RealsAfter(history).avgValue * |history| as real == Sum(history)
  {
    RealStatistics(history);
    AverageIsMeanOfSum(history);
  }

  function IntSum(history: seq<int>): int {
    if history == [] then 0 else IntSum(history[..|history| - 1]) + history[|history| - 1]
  }

  predicate AverageIsMean(history: seq<int>)
    requires history != []
  {
    IntsAfter(history).avgValue * |history| == IntSum(history)
  }

  lemma TruncationIsExactIff(x: int, n: int)
    requires n > 0
    ensures TruncDiv(x, n) * n == x <==> x % n == 0
  {
    var q := x / n;
    assert x == q * n + x % n;
    if TruncDiv(x, n) * n == x {
      EuclideanIsUnique(x, n, TruncDiv(x, n), 0);
    } else if x % n == 0 {
      EuclideanIsUnique(-x, n, -q, 0);
    }
  }

  /** As long as the average was the mean before, the next one is the truncated quotient of the sum. */
  lemma NextAverage(history: seq<int>)
    requires history != []
    requires |history| > 1 ==> AverageIsMean(history[..|history| - 1])
    ensures IntsAfter(history).avgValue == TruncDiv(IntSum(history), |history|)
  {
    var n := |history| - 1;
    if n == 0 {
      assert history[..0] == [];
    } else {
      var before := history[..n];
      IntStatistics(before);
      assert IntsAfter(before).avgValue * n + history[n] == IntSum(history);
    }
  }

  lemma {:induction false} PrefixAveragesAreMeans(history: seq<int>, k: nat)
    requires 0 < k <= |history|
    requires forall i :: 0 < i <= |history| ==> IntSum(history[..i]) % i == 0
    ensures AverageIsMean(history[..k])
  {
    if k > 1 {
      PrefixAveragesAreMeans(history, k - 1);
      assert history[..k][..k - 1] == history[..k - 1];
    }
    NextAverage(history[..k]);
    TruncationIsExactIff(IntSum(history[..k]), k);
  }

  /** The truncated average is the mean after every update of a history if and only if every sum on the way is
      divisible by the number of its summands. */
  lemma IntAverageIsMeanIff(history: seq<int>)
    ensures (forall k :: 0 < k <= |history| ==> AverageIsMean(history[..k])) <==>
            (forall k :: 0 < k <= |history| ==> IntSum(history[..k]) % k == 0)
  {
    if forall k :: 0 < k <= |history| ==> AverageIsMean(history[..k]) {
      forall k | 0 < k <= |history| ensures IntSum(history[..k]) % k == 0 {
        assert AverageIsMean(history[..k]);
        EuclideanIsUnique(IntSum(history[..k]), k, IntsAfter(history[..k]).avgValue, 0);
      }
    }
    if forall k :: 0 < k <= |history| ==> IntSum(history[..k]) % k == 0 {
      forall k | 0 < k <= |history| ensures AverageIsMean(history[..k]) {
        PrefixAveragesAreMeans(history, k);
      }
    }
  }

  /** A family that fails: after a first 0, any number of ones leaves it at 0. */
  lemma {:induction false} OnesDoNotCount(n: nat)
    ensures IntsAfter([0] + seq(n, _ => 1)).avgValue == 0
  {
    if n > 0 {
      var history := [0] + seq(n, _ => 1);
      OnesDoNotCount(n - 1);
      assert history[..n] == [0] + seq(n - 1, _ => 1);
      IntStatistics(history[..n]);
      assert history[n] == 1;
      EuclideanIsUnique(1, n + 1, 0, 1);
    }
  }

  // ---------------------------------------------------------------- the manager

  class MetricsManager {
    var data: map<string, Value>

    constructor ()
      ensures data == map[]
    {
      data := map[];
    }

    method SetText(name: string, value: string)
      modifies this
      ensures data == old(data)[name := Text(value)]
    {
      data := data[name := Text(value)];
    }

    /** An integral update counts only under a name that is new or integral. */
    method SetInt(name: string, value: int)
      modifies this
      ensures data == AfterInt(old(data), name, value)
    {
      if name !in data {
        data := data[name := Ints(IntStats(1, value, value, value, value))];
        return;
      }
      if data[name].Ints? {
        data := data[name := Ints(RecalculatedInts(data[name].ints, value))];
      }
    }

    method SetReal(name: string, value: real)
      modifies this
      ensures data == AfterReal(old(data), name, value)
    {
      if name !in data {
        data := data[name := Reals(RealStats(1, value, value, value, value))];
        return;
      }
      if data[name].Reals? {
        data := data[name := Reals(RecalculatedReals(data[name].reals, value))];
      }
    }

    /** The current integral value of a name; parsing a text is left to the caller's parse. */
    method GetInt(name: string, parse: string -> int) returns (value: int)
      ensures value == IntOf(data, name, parse)
      ensures name !in data ==> value == 0
      ensures name in data && data[name].Ints? ==> value == data[name].ints.value
      ensures name in data && data[name].Text? ==> value == parse(data[name].text)
      ensures name in data && data[name].Reals? ==> IsTruncation(value, data[name].reals.value)
    {
      if name !in data {
        return 0;
      }
      match data[name]
      case Ints(s) => value := s.value;
      case Reals(s) =>
        value := Truncated(s.value);
        TruncationIsTowardZero(s.value);
      case Text(t) => value := parse(t);
    }

    method Inc(name: string, parse: string -> int)
      modifies this
      ensures data == AfterInt(old(data), name, IntOf(old(data), name, parse) + 1)
    {
      AddInt(name, 1, parse);
    }

    method AddInt(name: string, delta: int, parse: string -> int)
      modifies this
      ensures data == AfterInt(old(data), name, IntOf(old(data), name, parse) + delta)
    {
      var value := GetInt(name, parse);
      SetInt(name, value + delta);
    }

    method GetReal(name: string, parse: string -> real) returns (value: real)
      ensures value == RealOf(data, name, parse)
      ensures name !in data ==> value == 0.0
      ensures name in data && data[name].Reals? ==> value == data[name].reals.value
      ensures name in data && data[name].Ints? ==> value.Floor == data[name].ints.value && value == value.Floor as real
      ensures name in data && data[name].Text? ==> value == parse(data[name].text)
    {
      if name !in data {
        return 0.0;
      }
      match data[name]
      case Reals(s) => value := s.value;
      case Ints(s) => value := s.value as real;
      case Text(t) => value := parse(t);
    }

    method AddReal(name: string, delta: real, parse: string -> real)
      modifies this
      ensures data == AfterReal(old(data), name, RealOf(old(data), name, parse) + delta)
    {
      var value := GetReal(name, parse);
      SetReal(name, value + delta);
    }
  }

  function AfterInt(data: map<string, Value>, name: string, value: int): map<string, Value> {
    if name !in data then data[name := Ints(IntsAfter([value]))]
    else if data[name].Ints? then data[name := Ints(RecalculatedInts(data[name].ints, value))]
    else data
  }

  function AfterReal(data: map<string, Value>, name: string, value: real): map<string, Value> {
    if name !in data then data[name := Reals(RealsAfter([value]))]
    else if data[name].Reals? then data[name := Reals(RecalculatedReals(data[name].reals, value))]
    else data
  }

  /** The cast of a double to an integer. */
  function Truncated(x: real): int {
    if x >= 0.0 then x.Floor else -(-x).Floor
  }

  /** Toward zero, by less than one. */
  predicate IsTruncation(value: int, x: real) {
    if x >= 0.0 then 0 <= value && value as real <= x < value as real + 1.0
    else value <= 0 && value as real - 1.0 < x <= value as real
  }

  lemma TruncationIsTowardZero(x: real)
    ensures IsTruncation(Truncated(x), x)
  {
  }

  /** `getAsI64Impl`, its value. */
  function IntOf(data: map<string, Value>, name: string, parse: string -> int): int {
    if name !in data then 0
    else
      match data[name]
      case Ints(s) => s.value
      case Reals(s) => Truncated(s.value)
      case Text(t) => parse(t)
  }

  /** `getAsDoubleImpl`, its value. */
  function RealOf(data: map<string, Value>, name: string, parse: string -> real): real {
    if name !in data then 0.0
    else
      match data[name]
      case Ints(s) => s.value as real
      case Reals(s) => s.value
      case Text(t) => parse(t)
  }

  // ---------------------------------------------------------------- runs

  /** What is done to one name: set to a value, or changed by a delta (an increment is a delta of 1). */
  datatype Update<N> = Set(value: N) | Add(delta: N)

  /** An update is made with an integer or with a real. */
  datatype Call = OfInt(i: Update<int>) | OfReal(r: Update<real>)

  /** How a text is read as a number. */
  datatype Parsers = Parsers(toInt: string -> int, toReal: string -> real)

  function AfterCall(data: map<string, Value>, name: string, c: Call, parse: Parsers): map<string, Value> {
    match c
    case OfInt(Set(value)) => AfterInt(data, name, value)
    case OfInt(Add(delta)) => AfterInt(data, name, IntOf(data, name, parse.toInt) + delta)
    case OfReal(Set(value)) => AfterReal(data, name, value)
    case OfReal(Add(delta)) => AfterReal(data, name, RealOf(data, name, parse.toReal) + delta)
  }

  function AfterCalls(data: map<string, Value>, name: string, calls: seq<Call>, parse: Parsers): map<string, Value> {
    if calls == [] then data
    else AfterCall(AfterCalls(data, name, calls[..|calls| - 1], parse), name, calls[|calls| - 1], parse)
  }

  // ---------------------------------------------------------------- the values of a name

  /** A set value, or the sum of the deltas since. */
  function ValueAfter<N>(zero: N, plus: (N, N) -> N, updates: seq<Update<N>>): N {
    if updates == [] then zero
    else
      match updates[|updates| - 1]
      case Set(value) => value
      case Add(delta) => plus(ValueAfter(zero, plus, updates[..|updates| - 1]), delta)
  }

  /** The values that a name takes on. */
  function Values<N>(zero: N, plus: (N, N) -> N, updates: seq<Update<N>>): seq<N> {
    if updates == [] then []
    else Values(zero, plus, updates[..|updates| - 1]) + [ValueAfter(zero, plus, updates)]
  }

  lemma {:induction false} ValuesInOrder<N>(zero: N, plus: (N, N) -> N, updates: seq<Update<N>>)
    ensures |Values(zero, plus, updates)| == |updates|
    ensures updates != [] ==>
              var n, values := |updates| - 1, Values(zero, plus, updates);
              values[n] == ValueAfter(zero, plus, updates) && values[..n] == Values(zero, plus, updates[..n])
    decreases |updates|
  {
    if updates != [] {
      ValuesInOrder(zero, plus, updates[..|updates| - 1]);
    }
  }

  function PlusInts(a: int, b: int): int {
    a + b
  }

  function PlusReals(a: real, b: real): real {
    a + b
  }

  function IntHistory(updates: seq<Update<int>>): seq<int> {
    Values(0, PlusInts, updates)
  }

  function RealHistory(updates: seq<Update<real>>): seq<real> {
    Values(0.0, PlusReals, updates)
  }

  // ---------------------------------------------------------------- the statistics of a name

  function IntUpdates(calls: seq<Call>): seq<Update<int>> {
    if calls == [] then []
    else
      var (before, last) := (IntUpdates(calls[..|calls| - 1]), calls[|calls| - 1]);
      if last.OfInt? then before + [last.i] else before
  }

  function RealUpdates(calls: seq<Call>): seq<Update<real>> {
    if calls == [] then []
    else
      var (before, last) := (RealUpdates(calls[..|calls| - 1]), calls[|calls| - 1]);
      if last.OfReal? then before + [last.r] else before
  }

  /** The value that an update gives to a name that has one. */
  function NextValue<N>(plus: (N, N) -> N, value: N, u: Update<N>): N {
    match u
    case Set(v) => v
    case Add(delta) => plus(value, delta)
  }

  lemma ValuesGrow<N>(zero: N, plus: (N, N) -> N, updates: seq<Update<N>>, u: Update<N>)
    ensures var values := Values(zero, plus, updates);
            && |values| == |updates|
            && Values(zero, plus, updates + [u]) ==
               values + [NextValue(plus, if values == [] then zero else values[|values| - 1], u)]
  {
    var longer := updates + [u];
    assert longer[..|updates|] == updates;
    ValuesInOrder(zero, plus, updates);
    ValuesInOrder(zero, plus, longer);
    var last := if updates == [] then zero else Values(zero, plus, updates)[|updates| - 1];
    assert last == ValueAfter(zero, plus, updates);
    assert ValueAfter(zero, plus, longer) == NextValue(plus, last, u);
  }

  lemma OneIntCall(data: map<string, Value>, name: string, s: IntStats, c: Call, parse: Parsers)
    ensures AfterCall(data[name := Ints(s)], name, c, parse) ==
            if c.OfInt? then data[name := Ints(RecalculatedInts(s, NextValue(PlusInts, s.value, c.i)))]
            else data[name := Ints(s)]
  {
    var after := AfterCall(data[name := Ints(s)], name, c, parse);
    assert after == data[name := after[name]];
  }

  lemma OneRealCall(data: map<string, Value>, name: string, s: RealStats, c: Call, parse: Parsers)
    ensures AfterCall(data[name := Reals(s)], name, c, parse) ==
            if c.OfReal? then data[name := Reals(RecalculatedReals(s, NextValue(PlusReals, s.value, c.r)))]
            else data[name := Reals(s)]
  {
    var after := AfterCall(data[name := Reals(s)], name, c, parse);
    assert after == data[name := after[name]];
  }

  lemma OneMoreInt(history: seq<int>, v: int)
    requires history != []
    ensures IntsAfter(history + [v]) == RecalculatedInts(IntsAfter(history), v)
  {
    assert (history + [v])[..|history|] == history;
  }

  lemma OneMoreReal(history: seq<real>, v: real)
    requires history != []
    ensures RealsAfter(history + [v]) == RecalculatedReals(RealsAfter(history), v)
  {
    assert (history + [v])[..|history|] == history;
  }

  lemma NextIntCall(data: map<string, Value>, name: string, updates: seq<Update<int>>, c: Call, parse: Parsers)
    requires IntHistory(updates) != []
    ensures var updates' := if c.OfInt? then updates + [c.i] else updates;
            && IntHistory(updates') != []
            && AfterCall(data[name := Ints(IntsAfter(IntHistory(updates)))], name, c, parse) ==
               data[name := Ints(IntsAfter(IntHistory(updates')))]
  {
    var history := IntHistory(updates);
    IntStatistics(history);
    OneIntCall(data, name, IntsAfter(history), c, parse);
    if c.OfInt? {
      ValuesGrow(0, PlusInts, updates, c.i);
      OneMoreInt(history, NextValue(PlusInts, history[|history| - 1], c.i));
    }
  }

  lemma NextRealCall(data: map<string, Value>, name: string, updates: seq<Update<real>>, c: Call, parse: Parsers)
    requires RealHistory(updates) != []
    ensures var updates' := if c.OfReal? then updates + [c.r] else updates;
            && RealHistory(updates') != []
            && AfterCall(data[name := Reals(RealsAfter(RealHistory(updates)))], name, c, parse) ==
               data[name := Reals(RealsAfter(RealHistory(updates')))]
  {
    var history := RealHistory(updates);
    RealStatistics(history);
    OneRealCall(data, name, RealsAfter(history), c, parse);
    if c.OfReal? {
      ValuesGrow(0.0, PlusReals, updates, c.r);
      OneMoreReal(history, NextValue(PlusReals, history[|history| - 1], c.r));
    }
  }

  /** Any mix of updates of a fresh name that begins with an integer leaves the statistics of the values that the
      integral ones give it, as if the real ones had never been made. */
  lemma {:induction false} RunFromInt(data: map<string, Value>, name: string, calls: seq<Call>, parse: Parsers)
    requires name !in data && calls != [] && calls[0].OfInt?
    ensures IntHistory(IntUpdates(calls)) != []
    ensures AfterCalls(data, name, calls, parse) == data[name := Ints(IntsAfter(IntHistory(IntUpdates(calls))))]
    decreases |calls|
  {
    var n := |calls| - 1;
    if n == 0 {
      assert calls[..0] == [];
      ValuesGrow(0, PlusInts, [], calls[0].i);
      assert [] + [calls[0].i] == [calls[0].i];
    } else {
      RunFromInt(data, name, calls[..n], parse);
      NextIntCall(data, name, IntUpdates(calls[..n]), calls[n], parse);
    }
  }

  /** The same for a mix that begins with a real. */
  lemma {:induction false} RunFromReal(data: map<string, Value>, name: string, calls: seq<Call>, parse: Parsers)
    requires name !in data && calls != [] && calls[0].OfReal?
    ensures RealHistory(RealUpdates(calls)) != []
    ensures AfterCalls(data, name, calls, parse) == data[name := Reals(RealsAfter(RealHistory(RealUpdates(calls))))]
    decreases |calls|
  {
    var n := |calls| - 1;
    if n == 0 {
      assert calls[..0] == [];
      ValuesGrow(0.0, PlusReals, [], calls[0].r);
      assert [] + [calls[0].r] == [calls[0].r];
    } else {
      RunFromReal(data, name, calls[..n], parse);
      NextRealCall(data, name, RealUpdates(calls[..n]), calls[n], parse);
    }
  }

  predicate SameKind(v: Value, v': Value) {
    (v.Ints? <==> v'.Ints?) && (v.Reals? <==> v'.Reals?)
  }

  function Count(v: Value): nat {
    match v
    case Ints(s) => s.count
    case Reals(s) => s.count
    case Text(_) => 0
  }

  /** The updates that count for a value: integral for an integer, real for a real, none for a text. */
  function Counted(v: Value, calls: seq<Call>): nat {
    match v
    case Ints(_) => |IntUpdates(calls)|
    case Reals(_) => |RealUpdates(calls)|
    case Text(_) => 0
  }

  lemma CallKeepsKind(data: map<string, Value>, name: string, c: Call, parse: Parsers)
    requires name in data
    ensures var data' := AfterCall(data, name, c, parse);
            && name in data' && SameKind(data[name], data'[name])
            && (if (c.OfInt? && data[name].Ints?) || (c.OfReal? && data[name].Reals?)
                then Count(data'[name]) == Count(data[name]) + 1 else data' == data)
  {
  }

  /** Over any mix of updates a name never changes its kind, counts exactly the updates of its kind, and loses all
      updates if and only if there are none of them. */
  lemma {:induction false} KindIsKept(data: map<string, Value>, name: string, calls: seq<Call>, parse: Parsers)
    requires name in data
    ensures var data' := AfterCalls(data, name, calls, parse);
            && name in data' && SameKind(data[name], data'[name])
            && Count(data'[name]) == Count(data[name]) + Counted(data[name], calls)
            && (data' == data <==> Counted(data[name], calls) == 0)
    decreases |calls|
  {
    if calls != [] {
      var n := |calls| - 1;
      KindIsKept(data, name, calls[..n], parse);
      CallKeepsKind(AfterCalls(data, name, calls[..n], parse), name, calls[n], parse);
    }
  }
}
