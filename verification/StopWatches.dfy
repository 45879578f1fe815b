/** The stop watch: elapsed time in two resolutions. Times are nanoseconds of a steady clock. */
module StopWatches {
  import opened Integers

  const MILLI: int := 1_000_000

  datatype Reading = Reading(millis: int, nanos: int, isRunning: bool, startTime: int) {
    function Started(now: int): Reading {
      if isRunning then this else this.(startTime := now, isRunning := true)
    }

    /** Each period is cut down to whole milliseconds before it is added. */
    function Stopped(now: int): Reading {
      if !isRunning then this
      else Reading(millis + TruncDiv(now - startTime, MILLI), nanos + (now - startTime), false, startTime)
    }

    function ElapsedNanos(now: int): int {
      if isRunning then nanos + (now - startTime) else nanos
    }

    function ElapsedMillis(now: int): int {
      if isRunning then millis + TruncDiv(now - startTime, MILLI) else millis
    }
  }

  const ZERO := Reading(0, 0, false, 0)

  class StopWatch {
    var elapsedMillis: int
    var elapsedNanos: int
    var isRunning: bool
    var startTimeStamp: int

    function State(): Reading
      reads this
    {
      Reading(elapsedMillis, elapsedNanos, isRunning, startTimeStamp)
    }

    constructor ()
      ensures State() == ZERO
    {
      elapsedMillis, elapsedNanos, isRunning, startTimeStamp := 0, 0, false, 0;
    }

    method Start(now: int)
      modifies this
      ensures State() == old(State()).Started(now)
    {
      if !isRunning {
        startTimeStamp, isRunning := now, true;
      }
    }

    method Stop(now: int)
      modifies this
      ensures State() == old(State()).Stopped(now)
    {
      if isRunning {
        var thisPeriod := now - startTimeStamp;
        elapsedMillis := elapsedMillis + TruncDiv(thisPeriod, MILLI);
        elapsedNanos := elapsedNanos + thisPeriod;
        isRunning := false;
      }
    }

    method Reset()
      modifies this
      ensures State() == ZERO
    {
      elapsedMillis, elapsedNanos, isRunning, startTimeStamp := 0, 0, false, 0;
    }

    method Restart(now: int)
      modifies this
      ensures State() == ZERO.Started(now)
    {
      elapsedMillis, elapsedNanos, isRunning, startTimeStamp := 0, 0, true, now;
    }

    method Elapsed(now: int) returns (elapsed: int)
      ensures elapsed == State().ElapsedMillis(now)
    {
      elapsed := elapsedMillis;
      if isRunning {
        elapsed := elapsed + TruncDiv(now - startTimeStamp, MILLI);
      }
    }

    method ElapsedInNanos(now: int) returns (elapsed: int)
      ensures elapsed == State().ElapsedNanos(now)
    {
      elapsed := elapsedNanos;
      if isRunning {
        elapsed := elapsed + (now - startTimeStamp);
      }
    }
  }

  // ---------------------------------------------------------------- runs

  datatype Press = Start(at: int) | Stop(at: int) | Reset(at: int) | Restart(at: int)

  predicate InOrder(run: seq<Press>) {
    forall i :: 0 < i < |run| ==> run[i - 1].at <= run[i].at
  }

  function After(run: seq<Press>): Reading {
    if run == [] then ZERO
    else
      var r := After(run[..|run| - 1]);
      match run[|run| - 1]
      case Start(at) => r.Started(at)
      case Stop(at) => r.Stopped(at)
      case Reset(_) => ZERO
      case Restart(at) => ZERO.Started(at)
  }

  /** The reference does not know of start times: it watches the clock from press to press. */
  predicate Runs(run: seq<Press>) {
    run != [] &&
    match run[|run| - 1]
    case Start(_) => true
    case Restart(_) => true
    case _ => false
  }

  /** Time spent running since the last reset or restart, up to now. */
  function TimeSpent(run: seq<Press>, now: int): int {
    if run == [] then 0
    else
      var last := run[|run| - 1];
      (if last.Reset? || last.Restart? then 0 else TimeSpent(run[..|run| - 1], last.at))
      + if Runs(run) then now - last.at else 0
  }

  /** Running periods that the reading has counted since the last reset or restart, the current one included. */
  function Periods(run: seq<Press>): nat {
    if run == [] then 0
    else
      var before := run[..|run| - 1];
      match run[|run| - 1]
      case Start(_) => Periods(before) + if Runs(before) then 0 else 1
      case Stop(_) => Periods(before)
      case Reset(_) => 0
      case Restart(_) => 1
  }

  lemma PrefixIsInOrder(run: seq<Press>)
    requires InOrder(run) && run != []
    ensures InOrder(run[..|run| - 1])
    ensures |run| > 1 ==> run[|run| - 2].at <= run[|run| - 1].at
  {
  }

  /** For every run of presses in the order of the clock the nanoseconds are exactly the time spent running. */
  lemma {:induction false} NanosAreTimeSpent(run: seq<Press>, now: int)
    requires InOrder(run) && (run != [] ==> run[|run| - 1].at <= now)
    ensures After(run).isRunning == Runs(run)
    ensures Runs(run) ==> After(run).startTime <= now
    ensures After(run).ElapsedNanos(now) == TimeSpent(run, now)
    decreases |run|
  {
    if run != [] {
      PrefixIsInOrder(run);
      NanosAreTimeSpent(run[..|run| - 1], run[|run| - 1].at);
    }
  }

  /** The milliseconds lag behind the nanoseconds by less than one for each period counted. */
  predicate IsBehind(millis: int, nanos: int, periods: int) {
    var lag := nanos - millis * MILLI;
    0 <= lag && (if periods == 0 then lag == 0 else lag < periods * MILLI)
  }

  lemma OnePeriodMore(millis: int, nanos: int, periods: nat, period: int)
    requires IsBehind(millis, nanos, periods) && 0 <= period
    ensures IsBehind(millis + TruncDiv(period, MILLI), nanos + period, periods + 1)
  {
  }

  function PeriodsStored(run: seq<Press>): int {
    if Runs(run) then Periods(run) - 1 else Periods(run)
  }

  lemma {:induction false} StoredMillisLag(run: seq<Press>)
    requires InOrder(run)
    ensures 0 <= PeriodsStored(run)
    ensures IsBehind(After(run).millis, After(run).nanos, PeriodsStored(run))
    decreases |run|
  {
    if run != [] {
      var before, last := run[..|run| - 1], run[|run| - 1];
      PrefixIsInOrder(run);
      StoredMillisLag(before);
      NanosAreTimeSpent(before, last.at);
      if last.Stop? && Runs(before) {
        var r := After(before);
        OnePeriodMore(r.millis, r.nanos, PeriodsStored(before), last.at - r.startTime);
      }
    }
  }

  /** For every run of presses, at every later time, the milliseconds never exceed the time spent running and lag by
      less than one millisecond for each period counted, so they are exact when no period is. */
  lemma MillisLagByPeriods(run: seq<Press>, now: int)
    requires InOrder(run) && (run != [] ==> run[|run| - 1].at <= now)
    ensures IsBehind(After(run).ElapsedMillis(now), TimeSpent(run, now), Periods(run))
    ensures var lag := TimeSpent(run, now) - After(run).ElapsedMillis(now) * 1_000_000;
            0 <= lag && (if Periods(run) == 0 then lag == 0 else lag < Periods(run) * 1_000_000)
  {
    NanosAreTimeSpent(run, now);
    StoredMillisLag(run);
    if Runs(run) {
      var r := After(run);
      OnePeriodMore(r.millis, r.nanos, PeriodsStored(run), now - r.startTime);
    }
  }

  /** The lengths of the running periods since the last reset or restart, the current one up to now. */
  function PeriodsOf(run: seq<Press>, now: int): seq<int> {
    if run == [] then []
    else
      var before := run[..|run| - 1];
      match run[|run| - 1]
      case Start(at) => if Runs(before) then PeriodsOf(before, now) else PeriodsOf(before, at) + [now - at]
      case Stop(at) => PeriodsOf(before, at)
      case Reset(_) => []
      case Restart(at) => [now - at]
  }

  function Total(lengths: seq<int>): int {
    if lengths == [] then 0 else Total(lengths[..|lengths| - 1]) + lengths[|lengths| - 1]
  }

  /** Each length counted in whole milliseconds. */
  function TotalMillis(lengths: seq<int>): int {
    if lengths == [] then 0 else TotalMillis(lengths[..|lengths| - 1]) + lengths[|lengths| - 1] / 1_000_000
  }

  lemma {:induction false} StoredIsTotalOfClosedPeriods(run: seq<Press>, now: int)
    requires InOrder(run) && (run != [] ==> run[|run| - 1].at <= now)
    ensures var r, lengths := After(run), PeriodsOf(run, now);
            if Runs(run) then
              var n := |lengths| - 1;
              && lengths != [] && lengths[n] == now - r.startTime
              && r.millis == TotalMillis(lengths[..n]) && r.nanos == Total(lengths[..n])
            else r.millis == TotalMillis(lengths) && r.nanos == Total(lengths)
    decreases |run|
  {
    if run != [] {
      var before, last := run[..|run| - 1], run[|run| - 1];
      PrefixIsInOrder(run);
      StoredIsTotalOfClosedPeriods(before, last.at);
      StoredIsTotalOfClosedPeriods(before, now);
      NanosAreTimeSpent(before, last.at);
      NanosAreTimeSpent(before, now);
      if last.Start? && !Runs(before) {
        var closed := PeriodsOf(before, last.at);
        assert (closed + [now - last.at])[..|closed|] == closed;
      } else if last.Restart? {
        assert [now - last.at][..0] == [];
      }
    }
  }

  /** For every run of presses the nanoseconds are the total of the periods, and the milliseconds are the total of their
      whole milliseconds. */
  lemma ElapsedIsTotalOfPeriods(run: seq<Press>, now: int)
    requires InOrder(run) && (run != [] ==> run[|run| - 1].at <= now)
    ensures After(run).ElapsedNanos(now) == Total(PeriodsOf(run, now))
    ensures After(run).ElapsedMillis(now) == TotalMillis(PeriodsOf(run, now))
  {
    StoredIsTotalOfClosedPeriods(run, now);
    NanosAreTimeSpent(run, now);
  }

  /** One period each of just under a millisecond: the lag grows with the number of periods. */
  lemma TwoShortPeriodsCountNothing()
    ensures var run := [Start(0), Stop(999_999), Start(1_000_000), Stop(1_999_999)];
            InOrder(run) && After(run).ElapsedMillis(2_000_000) == 0 && TimeSpent(run, 2_000_000) == 1_999_998
  {
    var one, two := [Start(0)], [Start(0), Stop(999_999)];
    var three := two + [Start(1_000_000)];
    var run := [Start(0), Stop(999_999), Start(1_000_000), Stop(1_999_999)];
    assert run[..3] == three && three[..2] == two && two[..1] == one && one[..0] == [];
    assert After(one) == Reading(0, 0, true, 0);
    assert After(two) == Reading(0, 999_999, false, 0);
    assert After(three) == Reading(0, 999_999, true, 1_000_000);
    NanosAreTimeSpent(run, 2_000_000);
  }
}
