/** Which updates are lost: those that no timer, scheduled or merely in flight, will bring to the listener. */
module Deliveries {
  import opened Orders
  import opened SortedLists
  import opened SortedOrderSets
  import opened Books
  import opened DepthProtocol

  // ---------------------------------------------------------------- what can still be delivered

  predicate SomeTimerWillFire(m: Model) {
    exists t :: 0 <= t < |m.timers| && m.timers[t].WillFire()
  }

  /** The listener is up to date, or some timer will fire and find the caches in agreement. */
  ghost predicate Deliverable(m: Model) {
    Wired(m) && CachesAgree(m.book) && (UpToDate(m) || SomeTimerWillFire(m))
  }

  predicate IsTimerStep(step: Step) {
    step.TimerStarts? || step.TimerWakes? || step.TimerCalls? || step.TimerFinishes?
  }

  /** The threads of the timers, left to themselves, can bring the listener up to date by these steps. */
  ghost predicate Delivers(m: Model, steps: seq<Step>) {
    && (forall i :: 0 <= i < |steps| ==> IsTimerStep(steps[i]))
    && Run(m, steps).Some? && UpToDate(Run(m, steps).value)
  }

  /** Without a timer that will fire, the timers bring nothing to the listener. */
  lemma {:induction false} SilentTimersStaySilent(m: Model, steps: seq<Step>)
    requires !SomeTimerWillFire(m) && forall i :: 0 <= i < |steps| ==> IsTimerStep(steps[i])
    ensures var m' := Run(m, steps);
            m'.Some? && !SomeTimerWillFire(m'.value) && m'.value == m.(timers := m'.value.timers)
    decreases |steps|
  {
    if steps != [] {
      var before := steps[..|steps| - 1];
      SilentTimersStaySilent(m, before);
      SilentTimersTakeStep(Run(m, before).value, steps[|steps| - 1]);
    }
  }

  lemma SilentTimersTakeStep(m: Model, step: Step)
    requires !SomeTimerWillFire(m) && IsTimerStep(step)
    ensures var m' := Take(m, step);
            m'.Some? && !SomeTimerWillFire(m'.value) && m'.value == m.(timers := m'.value.timers)
  {
    assert forall t :: 0 <= t < |m.timers| ==> !m.timers[t].WillFire();
    var m' := Take(m, step).value;
    forall t | 0 <= t < |m'.timers| ensures !m'.timers[t].WillFire() {
      assert !m.timers[t].WillFire();
    }
  }

  /** A state is deliverable if and only if the timers alone can bring the listener up to date. */
  lemma DeliverableIff(m: Model)
    requires Wired(m)
    ensures Deliverable(m) <==> exists steps :: Delivers(m, steps)
  {
    if Deliverable(m) {
      if UpToDate(m) {
        assert Delivers(m, []);
      } else {
        var t :| 0 <= t < |m.timers| && m.timers[t].WillFire();
        FiringTimerDelivers(m, t);
        assert Delivers(m, RemainingSteps(t, m.timers[t].phase));
      }
    } else {
      forall steps ensures !Delivers(m, steps) {
        NothingDelivers(m, steps);
      }
    }
  }

  lemma NothingDelivers(m: Model, steps: seq<Step>)
    requires Wired(m) && !Deliverable(m)
    ensures !Delivers(m, steps)
  {
    if forall i :: 0 <= i < |steps| ==> IsTimerStep(steps[i]) {
      if CachesAgree(m.book) {
        SilentTimersStaySilent(m, steps);
      } else {
        StaleSideStaysLost(m, steps);
      }
    }
  }

  // ---------------------------------------------------------------- which steps lose an update

  /** Cancelling the task drops an update: something is undelivered, the timer of the task still sleeps, and no other
      timer will fire. */
  predicate DropsUpdate(m: Model) {
    && m.Cancels() && !UpToDate(m) && m.timers[m.taskTimer.value].phase == Sleeping
    && forall t :: 0 <= t < |m.timers| && t != m.taskTimer.value ==> !m.timers[t].WillFire()
  }

  /** The two kinds of step that lose an update: a snapshot that leaves a side unsettled, and setting the period to 0
      where that drops an update. */
  predicate Harmless(m: Model, step: Step) {
    match step
    case Received(_, _, _) => KeepsTask(m, step)
    case PeriodSet(period) => period == 0 && m.period != 0 ==> !DropsUpdate(m)
    case _ => true
  }

  /** A step that leaves no update without a task loses none. */
  lemma KeepingTaskIsHarmless(m: Model, step: Step)
    requires KeepsTask(m, step)
    ensures Harmless(m, step)
  {
  }

  lemma CancelDropsUpdateIff(m: Model)
    requires Deliverable(m)
    ensures UpToDate(m.AfterCancel()) || SomeTimerWillFire(m.AfterCancel()) <==> !DropsUpdate(m)
  {
    var m' := m.AfterCancel();
    if m.Cancels() {
      var task := m.taskTimer.value;
      forall t | 0 <= t < |m.timers| && t != task ensures m'.timers[t] == m.timers[t] {
      }
      if m.timers[task].phase != Sleeping {
        assert m'.timers[task].WillFire();
      }
    }
  }

  /** Setting the period to 0 loses an update if and only if it drops one. */
  lemma ZeroPeriodLosesUpdateIff(m: Model)
    requires Deliverable(m) && m.period != 0
    ensures !Deliverable(m.AfterSetPeriod(0)) <==> DropsUpdate(m)
  {
    CancelDropsUpdateIff(m.(period := 0));
    StepKeepsWired(m, PeriodSet(0));
  }

  /** A task that is cancelled too late, past the check of its timer's flag, still delivers. */
  lemma CommittedTaskStillDelivers(m: Model, t: nat)
    requires Sound(m) && m.period != 0 && m.Cancels() && m.taskTimer == Some(t) && m.timers[t].phase == Committed
    ensures var m' := m.AfterSetPeriod(0);
            && !m'.taskScheduled && Deliverable(m')
            && Take(m', TimerCalls(t)).Some? && UpToDate(Take(m', TimerCalls(t)).value)
  {
    var m' := m.AfterSetPeriod(0);
    ZeroPeriodLosesUpdateIff(m);
    NotifyMakesSound(m'.WithTimer(t, m'.timers[t].AfterCall()));
  }

  lemma ReceiveIsDeliverableIff(m: Model, source: int, events: seq<Event>, isSnapshot: bool)
    requires Deliverable(m)
    ensures match m.AfterReceived(source, events, isSnapshot)
            case None => true
            case Some(m') => Deliverable(m') <==> (isSnapshot ==> SettlesBoth(m.book, source, events, isSnapshot))
  {
    UpdateAgreesIff(m.book, source, events, isSnapshot);
    if b :| ApplyAll(m.book, UpdateOps(source, events, isSnapshot)) == Some(b) {
      AfterUpdateIsDeliverableIff(m, b, isSnapshot);
    }
  }

  lemma AfterUpdateIsDeliverableIff(m: Model, b: Book, isSnapshot: bool)
    requires Wired(m)
    requires SidesAreSorted(b) && SideGoesOn(m.book, b, true) && SideGoesOn(m.book, b, false)
    ensures Deliverable(m.AfterUpdate(b, isSnapshot)) <==> CachesAgree(b)
  {
    AfterUpdateIsSoundIff(m, b, isSnapshot);
    if CachesAgree(b) {
      SoundIsDeliverable(m.AfterUpdate(b, isSnapshot));
    }
  }

  lemma SoundIsDeliverable(m: Model)
    requires Sound(m)
    ensures Deliverable(m)
  {
  }

  lemma TimerStepIsDeliverable(m: Model, step: Step)
    requires Deliverable(m) && IsTimerStep(step)
    ensures Take(m, step).Some? && Deliverable(Take(m, step).value)
  {
    StepKeepsWired(m, step);
    var m' := Take(m, step).value;
    if step.TimerCalls? && step.t < |m.timers| && m.timers[step.t].phase == Committed {
      NotifyMakesSound(m.WithTimer(step.t, m.timers[step.t].AfterCall()));
    } else if !UpToDate(m) {
      var t :| 0 <= t < |m.timers| && m.timers[t].WillFire();
      assert m'.timers[t].WillFire();
    }
  }

  lemma SettingIsDeliverableIff(m: Model, step: Step)
    requires Deliverable(m) && (step.PeriodSet? || step.DepthLimitSet?)
    ensures Take(m, step).Some? && (Deliverable(Take(m, step).value) <==> Harmless(m, step))
  {
    StepKeepsWired(m, step);
    match step
    case DepthLimitSet(limit) =>
      if limit != m.depthLimit {
        DepthLimitDeliversAtOnce(m, limit);
        SoundIsDeliverable(m.AfterSetDepthLimit(limit));
      }
    case PeriodSet(period) =>
      if period == 0 && m.period != 0 {
        ZeroPeriodLosesUpdateIff(m);
      } else if period != m.period {
        NonzeroPeriodKeepsTimer(m, period);
      }
  }

  lemma NonzeroPeriodKeepsTimer(m: Model, period: int)
    requires Deliverable(m) && period != 0 && period != m.period
    ensures UpToDate(m.AfterSetPeriod(period)) || SomeTimerWillFire(m.AfterSetPeriod(period))
    ensures CachesAgree(m.AfterSetPeriod(period).book)
  {
    var m' := m.AfterSetPeriod(period);
    if m.Cancels() {
      assert m'.timers[|m.timers|] == TimerState(Created, false);
    }
  }

  /** A step keeps a state deliverable if and only if it is harmless. */
  lemma StepIsDeliverableIff(m: Model, step: Step)
    requires Deliverable(m)
    ensures match Take(m, step) case None => true case Some(m') => Deliverable(m') <==> Harmless(m, step)
  {
    if step.Received? {
      ReceiveIsDeliverableIff(m, step.source, step.events, step.isSnapshot);
      UpdateIsDefinedIff(m.book, step.source, step.events, step.isSnapshot);
    } else if IsTimerStep(step) {
      TimerStepIsDeliverable(m, step);
    } else {
      SettingIsDeliverableIff(m, step);
    }
  }

  // ---------------------------------------------------------------- whole runs

  ghost predicate DeliverableThroughout(m: Model, steps: seq<Step>) {
    forall k :: 0 <= k <= |steps| && Run(m, steps[..k]).Some? ==> Deliverable(Run(m, steps[..k]).value)
  }

  ghost predicate HarmlessThroughout(m: Model, steps: seq<Step>) {
    forall k :: 0 <= k < |steps| && Run(m, steps[..k]).Some? ==> Harmless(Run(m, steps[..k]).value, steps[k])
  }

  lemma {:induction false} PrefixIsDeliverable(m: Model, steps: seq<Step>, k: nat)
    requires Deliverable(m) && HarmlessThroughout(m, steps) && k <= |steps|
    ensures match Run(m, steps[..k]) case None => true case Some(m') => Deliverable(m')
  {
    if k > 0 {
      PrefixIsDeliverable(m, steps, k - 1);
      RunNext(m, steps, k - 1);
      if m' :| Run(m, steps[..k - 1]) == Some(m') {
        StepIsDeliverableIff(m', steps[k - 1]);
      }
    }
  }

  /** No update is lost in any state of a run if and only if each of its steps is harmless where it is taken. */
  lemma RunLosesNoUpdateIff(m: Model, steps: seq<Step>)
    requires Deliverable(m)
    ensures DeliverableThroughout(m, steps) <==> HarmlessThroughout(m, steps)
  {
    if DeliverableThroughout(m, steps) {
      forall k | 0 <= k < |steps| && Run(m, steps[..k]).Some? ensures Harmless(Run(m, steps[..k]).value, steps[k]) {
        RunNext(m, steps, k);
        StepIsDeliverableIff(Run(m, steps[..k]).value, steps[k]);
        StepIsDefinedIff(Run(m, steps[..k]).value, steps[k]);
      }
    }
    if HarmlessThroughout(m, steps) {
      forall k | 0 <= k <= |steps| && Run(m, steps[..k]).Some? ensures Deliverable(Run(m, steps[..k]).value) {
        PrefixIsDeliverable(m, steps, k);
      }
    }
  }

  /** The listener's share of the plain fold: what it holds if nothing is on its way, and what the next notification
      passes in any case. */
  ghost predicate HearsTop(m: Model, buys: seq<PricedOrder>, sells: seq<PricedOrder>) {
    && m.book.buys.orders == buys && m.book.sells.orders == sells
    && (!SomeTimerWillFire(m) ==>
          m.heardBuys == Top(buys, m.depthLimit) && m.heardSells == Top(sells, m.depthLimit))
    && m.Notified().heardBuys == Top(buys, m.depthLimit) && m.Notified().heardSells == Top(sells, m.depthLimit)
  }

  lemma DeliverableHearsTop(m: Model, buys: seq<PricedOrder>, sells: seq<PricedOrder>)
    requires Deliverable(m) && Consistent(m.book)
    requires Lists(BuyLess, buys, m.book.byIndex, true) && Lists(SellLess, sells, m.book.byIndex, false)
    ensures HearsTop(m, buys, sells)
  {
    BuyLessRanks();
    ListingsAgree(BuyLess, m.book.buys.orders, buys, m.book.byIndex, true);
    SellLessRanks();
    ListingsAgree(SellLess, m.book.sells.orders, sells, m.book.byIndex, false);
    NotifyMakesSound(m);
  }

  /** After a run of harmless steps whose clears work, every notification passes the top of the ranked listing of the
      buys, and of the other orders, of the plain map; the listener holds it unless a timer will still fire; and if
      moreover no task was cancelled with something to deliver, it holds it whenever no task is scheduled. */
  lemma ListenerHearsTheFold(
      limit: Size, period: int, steps: seq<Step>, buys: seq<PricedOrder>, sells: seq<PricedOrder>)
    requires WorksThroughout(Initial(limit, period), steps) && HarmlessThroughout(Initial(limit, period), steps)
    requires Lists(BuyLess, buys, RefRun(steps), true) && Lists(SellLess, sells, RefRun(steps), false)
    ensures var m := Run(Initial(limit, period), steps);
            && m.Some? && HearsTop(m.value, buys, sells)
            && (KeepsTaskThroughout(Initial(limit, period), steps) && !m.value.taskScheduled ==>
                  && m.value.heardBuys == Top(buys, m.value.depthLimit)
                  && m.value.heardSells == Top(sells, m.value.depthLimit))
  {
    RunFollowsFold(limit, period, steps);
    PrefixIsDeliverable(Initial(limit, period), steps, |steps|);
    assert steps[..|steps|] == steps;
    DeliverableHearsTop(Run(Initial(limit, period), steps).value, buys, sells);
    if KeepsTaskThroughout(Initial(limit, period), steps) {
      RunCoversUpdates(limit, period, steps);
    }
  }
}
