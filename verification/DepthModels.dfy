/** The market depth model and its timers as objects, each method against the state machine. */
module DepthModels {
  import opened Orders
  import opened SortedLists
  import opened SortedOrderSets
  import opened Books
  import opened DepthProtocol

  /** A one-shot timer: the running flag that its owner and its thread share, and where the thread stands. */
  class Timer {
    var isRunning: bool
    ghost var phase: Phase

    ghost function State(): TimerState
      reads this
    {
      TimerState(phase, isRunning)
    }

    constructor ()
      ensures State() == TimerState(Created, false)
    {
      isRunning, phase := false, Created;
    }

    /** The thread begins: it raises the flag and goes to sleep. */
    method Start()
      requires phase == Created
      modifies this
      ensures State() == old(State()).AfterStart()
      ensures isRunning && phase == Sleeping
    {
      isRunning, phase := true, Sleeping;
    }

    /** The thread wakes and looks at the flag once; only then it will call its task. */
    method Wake() returns (commits: bool)
      requires phase == Sleeping
      modifies this
      ensures State() == old(State()).AfterWake()
      ensures commits == isRunning == old(isRunning)
      ensures phase == if commits then Committed else Done
    {
      commits := isRunning;
      phase := if isRunning then Committed else Done;
    }

    method Finish()
      requires phase == Fired
      modifies this
      ensures State() == old(State()).AfterFinish()
      ensures !isRunning && phase == Done
    {
      isRunning, phase := false, Done;
    }

    method Stop()
      modifies this
      ensures State() == old(State()).Stopped()
      ensures !isRunning && phase == old(phase)
    {
      isRunning := false;
    }
  }

  ghost function TimerStates(timers: seq<Timer>): (r: seq<TimerState>)
    reads timers
    ensures |r| == |timers| && forall i :: 0 <= i < |r| ==> r[i] == timers[i].State()
  {
    if timers == [] then [] else [timers[0].State()] + TimerStates(timers[1..])
  }

  ghost predicate Distinct(timers: seq<Timer>) {
    forall i, j :: 0 <= i < j < |timers| ==> timers[i] != timers[j]
  }

  class MarketDepthModel {
    const buyOrders: SortedOrderSet
    const sellOrders: SortedOrderSet
    var ordersByIndex: OrdersByIndex
    var depthLimit: Size
    var aggregationPeriodMillis: int
    var taskScheduled: bool
    var taskTimer: Timer?

    /** What the listener last received. */
    var heardBuys: seq<PricedOrder>
    var heardSells: seq<PricedOrder>

    /** Every timer the model has started, and the place of taskTimer among them. */
    ghost var timers: seq<Timer>
    ghost var taskId: nat

    ghost predicate Valid()
      reads this
    {
      && buyOrders != sellOrders && buyOrders.less == BuyLess && sellOrders.less == SellLess
      && Distinct(timers)
      && (taskTimer != null ==> taskId < |timers| && timers[taskId] == taskTimer)
    }

    ghost function BookState(): Book
      reads this, buyOrders, sellOrders
    {
      Book(ordersByIndex, buyOrders.State(), sellOrders.State())
    }

    ghost function State(): Model
      reads this, buyOrders, sellOrders, timers
    {
      Model(BookState(), depthLimit, aggregationPeriodMillis, taskScheduled,
            if taskTimer == null then None else Some(taskId), TimerStates(timers), heardBuys, heardSells)
    }

    constructor (limit: Size, period: int)
      ensures Valid() && State() == Initial(limit, period)
      ensures depthLimit == limit && aggregationPeriodMillis == period
    {
      buyOrders := new SortedOrderSet(BuyLess);
      sellOrders := new SortedOrderSet(SellLess);
      ordersByIndex, depthLimit, aggregationPeriodMillis := map[], limit, period;
      taskScheduled, taskTimer, heardBuys, heardSells := false, null, [], [];
      timers, taskId := [], 0;
      new;
      buyOrders.SetDepthLimit(limit);
      sellOrders.SetDepthLimit(limit);
    }

    // -------------------------------------------------------------- notification and its task

    method ReadBothSides() returns (buys: seq<PricedOrder>, sells: seq<PricedOrder>)
      requires Valid()
      modifies buyOrders, sellOrders
      ensures Valid()
      ensures BookState() == old(Book(ordersByIndex, buyOrders.State().AfterRead(), sellOrders.State().AfterRead()))
      ensures buys == buyOrders.snapshot && sells == sellOrders.snapshot
    {
      buys := buyOrders.ToVector();
      sells := sellOrders.ToVector();
    }

    method NotifyListeners()
      requires Valid()
      modifies this`heardBuys, this`heardSells, this`taskScheduled, buyOrders, sellOrders
      ensures Valid() && timers == old(timers) && State() == old(State()).Notified()
    {
      var buys, sells := ReadBothSides();
      assert TimerStates(timers) == old(TimerStates(timers));
      Record(buys, sells);
    }

    /** What the listener has received; the scheduled mark goes. */
    method Record(buys: seq<PricedOrder>, sells: seq<PricedOrder>)
      requires Valid()
      modifies this`heardBuys, this`heardSells, this`taskScheduled
      ensures Valid() && heardBuys == buys && heardSells == sells && !taskScheduled
      ensures TimerStates(timers) == old(TimerStates(timers)) && BookState() == old(BookState())
    {
      heardBuys, heardSells, taskScheduled := buys, sells, false;
    }

    method TryCancelTask() returns (cancelled: bool)
      requires Valid()
      modifies this, timers
      ensures Valid() && timers == old(timers) && State() == old(State()).AfterCancel()
      ensures cancelled == old(State()).Cancels()
    {
      cancelled := taskScheduled && taskTimer != null && taskTimer.isRunning;
      if cancelled {
        taskTimer.Stop();
        taskTimer := null;
        taskScheduled := false;
      }
      assert State().timers == old(State()).AfterCancel().timers;
    }

    method ScheduleTaskIfNeeded(delay: int)
      requires Valid()
      modifies this
      ensures Valid() && old(timers) <= timers && fresh(timers[|old(timers)|..])
      ensures State() == old(State()).AfterSchedule()
    {
      if !taskScheduled {
        taskScheduled := true;
        taskTimer := new Timer();
        taskId, timers := |timers|, timers + [taskTimer];
        assert State().timers == old(State()).AfterSchedule().timers;
      } else {
        assert State() == old(State());
      }
    }

    method RescheduleTaskIfNeeded(delay: int)
      requires Valid()
      modifies this, timers
      ensures Valid() && old(timers) <= timers && fresh(timers[|old(timers)|..])
      ensures State() == old(State()).AfterReschedule(delay)
    {
      var cancelled := TryCancelTask();
      if cancelled && delay != 0 {
        ScheduleTaskIfNeeded(delay);
      }
    }

    // -------------------------------------------------------------- the book

    /** Takes the source's orders out of the map, then clears both sets. The map is walked in no particular
        order, so collecting the indices and erasing them are one set operation each. */
    method ClearBySource(source: int) returns (defined: bool)
      requires Valid()
      modifies this`ordersByIndex, buyOrders, sellOrders
      ensures Valid()
      ensures defined == old(BookState()).ClearIsDefined(source)
      ensures defined ==> BookState() == old(BookState()).AfterClear(source)
    {
      var indices := set i | i in ordersByIndex && ordersByIndex[i].source == source;
      ordersByIndex := ordersByIndex - indices;
      DroppedSource(old(ordersByIndex), ordersByIndex, source);
      defined := buyOrders.ClearBySource(source);
      if defined {
        defined := sellOrders.ClearBySource(source);
      }
    }

    method TakeEvent(e: Event)
      requires Valid()
      modifies this`ordersByIndex, buyOrders, sellOrders
      ensures Valid() && BookState() == old(BookState()).AfterEvent(e)
    {
      if e.index in ordersByIndex {
        var removed := ordersByIndex[e.index];
        ordersByIndex := ordersByIndex - {e.index};
        if removed.side == Buy {
          var _ := buyOrders.Erase(removed);
        } else {
          var _ := sellOrders.Erase(removed);
        }
      }
      assert BookState() == old(BookState()).WithoutIndex(e.index);
      if e.ShallAdd() {
        ordersByIndex := ordersByIndex[e.index := e];
        if e.side == Buy {
          var _ := buyOrders.Insert(e);
        } else {
          var _ := sellOrders.Insert(e);
        }
      }
    }

    method Update(source: int, events: seq<Event>, isSnapshot: bool) returns (defined: bool, changed: bool)
      requires Valid()
      modifies this`ordersByIndex, buyOrders, sellOrders
      ensures Valid()
      ensures var b := ApplyAll(old(BookState()), UpdateOps(source, events, isSnapshot));
              defined == b.Some? && (defined ==> BookState() == b.value && changed == b.value.IsChanged())
    {
      defined, changed := true, false;
      ghost var before := BookState();
      if isSnapshot {
        defined := ClearBySource(source);
      }
      UpdateStarts(before, source, isSnapshot);
      if !defined {
        UpdateIsDefinedIff(before, source, events, isSnapshot);
        return;
      }
      assert events[..0] == [];
      for i := 0 to |events|
        invariant Valid()
        invariant ApplyAll(before, UpdateOps(source, events[..i], isSnapshot)) == Some(BookState())
      {
        UpdateGoesOn(before, source, events[..i + 1], isSnapshot);
        assert events[..i + 1][..i] == events[..i];
        TakeEvent(events[i]);
      }
      assert events[..|events|] == events;
      changed := buyOrders.isChanged || sellOrders.isChanged;
    }

    // -------------------------------------------------------------- the lock-protected entry points

    /** A delivered batch; the result says whether the clear of a snapshot stayed within its set. */
    method EventsReceived(source: int, events: seq<Event>, isSnapshot: bool) returns (defined: bool)
      requires Valid()
      modifies this, buyOrders, sellOrders, timers
      ensures Valid() && old(timers) <= timers && fresh(timers[|old(timers)|..])
      ensures defined == old(State()).AfterReceived(source, events, isSnapshot).Some?
      ensures defined ==> State() == old(State()).AfterReceived(source, events, isSnapshot).value
    {
      var changed;
      defined, changed := Update(source, events, isSnapshot);
      assert TimerStates(timers) == old(TimerStates(timers));
      assert State() == old(State()).(book := BookState());
      if !defined || !changed {
        return;
      }
      if isSnapshot || aggregationPeriodMillis == 0 {
        var _ := TryCancelTask();
        NotifyListeners();
      } else {
        ScheduleTaskIfNeeded(aggregationPeriodMillis);
      }
    }

    method SetDepthLimit(limit: Size)
      requires Valid()
      modifies this, buyOrders, sellOrders, timers
      ensures Valid() && timers == old(timers)
      ensures State() == old(State()).AfterSetDepthLimit(limit)
      ensures depthLimit == limit
      ensures limit != old(depthLimit) ==> buyOrders.depthLimit == limit && sellOrders.depthLimit == limit
    {
      if limit == depthLimit {
        return;
      }
      depthLimit := limit;
      buyOrders.SetDepthLimit(limit);
      sellOrders.SetDepthLimit(limit);
      assert TimerStates(timers) == old(TimerStates(timers));
      assert State() == old(State()).WithLimit(limit);
      var _ := TryCancelTask();
      NotifyListeners();
    }

    method SetAggregationPeriod(period: int)
      requires Valid()
      modifies this, timers
      ensures Valid() && old(timers) <= timers && fresh(timers[|old(timers)|..])
      ensures State() == old(State()).AfterSetPeriod(period)
      ensures aggregationPeriodMillis == period
    {
      if period == aggregationPeriodMillis {
        return;
      }
      aggregationPeriodMillis := period;
      assert TimerStates(timers) == old(TimerStates(timers));
      RescheduleTaskIfNeeded(period);
    }

    method BeginCall(t: nat)
      requires Valid() && t < |timers| && timers[t].phase == Committed
      modifies timers[t]
      ensures Valid() && State() == old(State()).WithTimer(t, old(timers[t].State()).AfterCall())
    {
      timers[t].phase := Fired;
      assert TimerStates(timers) == old(TimerStates(timers))[t := timers[t].State()];
    }

    /** The task of a timer, called by the timer's thread once it has looked at the flag. */
    method CallTask(t: nat)
      requires Valid() && t < |timers| && timers[t].phase == Committed
      modifies this, buyOrders, sellOrders, timers
      ensures Valid() && timers == old(timers)
      ensures State() == old(State()).WithTimer(t, old(timers[t].State()).AfterCall()).Notified()
    {
      BeginCall(t);
      NotifyListeners();
    }
  }
}
