/** The market depth model with the clear that its code evidently means: every order of the source goes, and a
    pending changed mark stays. All else is as it is. */
module RepairedModels {
  import opened Orders
  import opened SortedLists
  import opened SortedOrderSets
  import opened Books
  import opened DepthProtocol
  import opened Deliveries

  // ---------------------------------------------------------------- the repaired clear

  function Swept(v: OrderSet, source: int): OrderSet {
    var kept := Without(v.orders, IsFrom(source));
    v.(orders := kept, changed := v.changed || |kept| != |v.orders|)
  }

  function SweptBook(b: Book, source: int): Book {
    Book(DropSource(b.byIndex, source), Swept(b.buys, source), Swept(b.sells, source))
  }

  lemma {:induction false} NothingIsRemovedIff(s: seq<PricedOrder>, matches: PricedOrder -> bool)
    ensures |Without(s, matches)| <= |s|
    ensures |Without(s, matches)| < |s| <==> exists o :: o in s && matches(o)
    ensures |Without(s, matches)| == |s| ==> Without(s, matches) == s
  {
    if s != [] {
      assert s == [s[0]] + s[1..];
      NothingIsRemovedIff(s[1..], matches);
    }
  }

  /** The clear of the code is the repaired one if and only if each order of the source is followed by one of another
      source, and no pending mark is wiped. */
  lemma ClearIsSweepIff(v: OrderSet, source: int)
    ensures v.ClearIsDefined(source) && v.AfterClear(source) == Swept(v, source) <==>
            ClearIsSafe(v.orders, IsFrom(source)) && (v.changed ==> HasOrderFrom(v.orders, source))
  {
    var matches := IsFrom(source);
    ClearSkippingIsExact(v.orders, matches);
    ClearSkippingIsDefinedIff(v.orders, matches);
    NothingIsRemovedIff(v.orders, matches);
  }

  /** The repaired clear never takes a cache out of agreement. */
  lemma SweepKeepsCache(less: Ranking, v: OrderSet, source: int)
    requires Sorted(less, v.orders) && v.CacheAgrees()
    ensures Sorted(less, Swept(v, source).orders) && Swept(v, source).CacheAgrees()
  {
    NothingIsRemovedIff(v.orders, IsFrom(source));
    WithoutIsSorted(less, v.orders, IsFrom(source));
  }

  /** And it keeps any consistent book consistent. */
  lemma SweepKeepsConsistency(b: Book, source: int)
    requires Consistent(b)
    ensures Consistent(SweptBook(b, source))
  {
    BuyLessRanks();
    SellLessRanks();
    WithoutLists(BuyLess, b.buys.orders, b.byIndex, source, true);
    WithoutLists(SellLess, b.sells.orders, b.byIndex, source, false);
  }

  // ---------------------------------------------------------------- the repaired model

  function Start(b: Book, source: int, isSnapshot: bool): Book {
    if isSnapshot then SweptBook(b, source) else b
  }

  function Update(b: Book, source: int, events: seq<Event>, isSnapshot: bool): Book {
    UpdateIsDefinedIff(Start(b, source, isSnapshot), source, events, false);
    ApplyAll(Start(b, source, isSnapshot), UpdateOps(source, events, false)).value
  }

  function TakeRepaired(m: Model, step: Step): Model {
    StepIsDefinedIff(m, step);
    if step.Received? then m.AfterUpdate(Update(m.book, step.source, step.events, step.isSnapshot), step.isSnapshot)
    else Take(m, step).value
  }

  function RunRepaired(m: Model, steps: seq<Step>): Model {
    if steps == [] then m else TakeRepaired(RunRepaired(m, steps[..|steps| - 1]), steps[|steps| - 1])
  }

  lemma {:induction false} SnapshotIsSweepThenEvents(m: OrdersByIndex, source: int, events: seq<Event>)
    ensures RefApplyAll(m, UpdateOps(source, events, true)) ==
            RefApplyAll(DropSource(m, source), UpdateOps(source, events, false))
    decreases |events|
  {
    var long, short := UpdateOps(source, events, true), UpdateOps(source, events, false);
    if events == [] {
      assert long == [Clear(source)] && long[..0] == [];
    } else {
      var n := |events| - 1;
      SnapshotIsSweepThenEvents(m, source, events[..n]);
      assert long[..n + 1] == UpdateOps(source, events[..n], true);
      assert short[..n] == UpdateOps(source, events[..n], false);
    }
  }

  lemma UpdateFollowsFold(b: Book, source: int, events: seq<Event>, isSnapshot: bool)
    requires Consistent(b)
    ensures var b' := Update(b, source, events, isSnapshot);
            Consistent(b') && b'.byIndex == RefApplyAll(b.byIndex, UpdateOps(source, events, isSnapshot))
  {
    SweepKeepsConsistency(b, source);
    UpdateRefinesFold(Start(b, source, isSnapshot), source, events, false);
    SnapshotIsSweepThenEvents(b.byIndex, source, events);
  }

  lemma UpdateAgrees(b: Book, source: int, events: seq<Event>, isSnapshot: bool)
    requires SidesAreSorted(b) && CachesAgree(b)
    ensures var b' := Update(b, source, events, isSnapshot);
            SidesAreSorted(b') && CachesAgree(b') && SideGoesOn(b, b', true) && SideGoesOn(b, b', false)
  {
    SweepKeepsCache(BuyLess, b.buys, source);
    SweepKeepsCache(SellLess, b.sells, source);
    UpdateIsDefinedIff(Start(b, source, isSnapshot), source, events, false);
    UpdateAgreesIff(Start(b, source, isSnapshot), source, events, false);
  }

  /** Every step keeps the repaired model sound, but for a period of 0 that cancels a task with something to deliver. */
  lemma RepairedStepIsSoundIff(m: Model, step: Step)
    requires Sound(m)
    ensures Sound(TakeRepaired(m, step)) <==> (step.PeriodSet? ==> KeepsTask(m, step))
  {
    if step.Received? {
      var b := Update(m.book, step.source, step.events, step.isSnapshot);
      UpdateAgrees(m.book, step.source, step.events, step.isSnapshot);
      AfterUpdateIsSoundIff(m, b, step.isSnapshot);
    } else {
      StepIsDefinedIff(m, step);
      StepIsSoundIff(m, step);
    }
  }

  /** And it keeps the repaired model deliverable, but for a period of 0 that drops an update. */
  lemma RepairedStepIsDeliverableIff(m: Model, step: Step)
    requires Deliverable(m)
    ensures Deliverable(TakeRepaired(m, step)) <==> (step.PeriodSet? ==> Harmless(m, step))
  {
    if step.Received? {
      var b := Update(m.book, step.source, step.events, step.isSnapshot);
      UpdateAgrees(m.book, step.source, step.events, step.isSnapshot);
      AfterUpdateIsDeliverableIff(m, b, step.isSnapshot);
    } else {
      StepIsDefinedIff(m, step);
      StepIsDeliverableIff(m, step);
    }
  }

  lemma RepairedStepFollowsFold(m: Model, step: Step)
    requires Consistent(m.book)
    ensures Consistent(TakeRepaired(m, step).book)
    ensures TakeRepaired(m, step).book.byIndex == RefTake(m.book.byIndex, step)
  {
    if step.Received? {
      UpdateFollowsFold(m.book, step.source, step.events, step.isSnapshot);
      var b := Update(m.book, step.source, step.events, step.isSnapshot);
      SameOrdersStayConsistent(b, m.AfterUpdate(b, step.isSnapshot).book);
    } else {
      OtherStepsKeepOrders(m, step);
      SameOrdersStayConsistent(m.book, Take(m, step).value.book);
    }
  }

  // ---------------------------------------------------------------- whole runs

  /** Over every run whatever the repaired book follows the plain fold. */
  lemma {:induction false} RepairedRunFollowsFold(limit: Size, period: int, steps: seq<Step>)
    ensures var m := RunRepaired(Initial(limit, period), steps);
            Consistent(m.book) && m.book.byIndex == RefRun(steps)
    decreases |steps|
  {
    if steps != [] {
      var n := |steps| - 1;
      RepairedRunFollowsFold(limit, period, steps[..n]);
      RepairedStepFollowsFold(RunRepaired(Initial(limit, period), steps[..n]), steps[n]);
    }
  }

  /** The one exception: a step that sets the period to 0 and drops an update. */
  ghost predicate NoUpdateDropped(m: Model, steps: seq<Step>) {
    forall k :: 0 <= k < |steps| && steps[k].PeriodSet? ==> Harmless(RunRepaired(m, steps[..k]), steps[k])
  }

  ghost predicate RepairedDeliverableThroughout(m: Model, steps: seq<Step>) {
    forall k :: 0 <= k <= |steps| ==> Deliverable(RunRepaired(m, steps[..k]))
  }

  lemma {:induction false} RepairedPrefixIsDeliverable(m: Model, steps: seq<Step>, k: nat)
    requires Deliverable(m) && NoUpdateDropped(m, steps) && k <= |steps|
    ensures Deliverable(RunRepaired(m, steps[..k]))
  {
    if k > 0 {
      RepairedPrefixIsDeliverable(m, steps, k - 1);
      assert steps[..k][..k - 1] == steps[..k - 1];
      RepairedStepIsDeliverableIff(RunRepaired(m, steps[..k - 1]), steps[k - 1]);
    }
  }

  /** The repaired model loses no update in any state of a run if and only if that exception does not occur in it. */
  lemma RepairedRunLosesNoUpdateIff(m: Model, steps: seq<Step>)
    requires Deliverable(m)
    ensures RepairedDeliverableThroughout(m, steps) <==> NoUpdateDropped(m, steps)
  {
    if NoUpdateDropped(m, steps) {
      forall k | 0 <= k <= |steps| ensures Deliverable(RunRepaired(m, steps[..k])) {
        RepairedPrefixIsDeliverable(m, steps, k);
      }
    }
    if RepairedDeliverableThroughout(m, steps) {
      forall k | 0 <= k < |steps| && steps[k].PeriodSet? ensures Harmless(RunRepaired(m, steps[..k]), steps[k]) {
        assert steps[..k + 1][..k] == steps[..k];
        assert Deliverable(RunRepaired(m, steps[..k + 1]));
        RepairedStepIsDeliverableIff(RunRepaired(m, steps[..k]), steps[k]);
      }
    }
  }

  /** No step cancels a task that has something to deliver by setting the period to 0. */
  ghost predicate NoTaskDropped(m: Model, steps: seq<Step>) {
    forall k :: 0 <= k < |steps| && steps[k].PeriodSet? ==> KeepsTask(RunRepaired(m, steps[..k]), steps[k])
  }

  ghost predicate RepairedSoundThroughout(m: Model, steps: seq<Step>) {
    forall k :: 0 <= k <= |steps| ==> Sound(RunRepaired(m, steps[..k]))
  }

  lemma {:induction false} RepairedPrefixIsSound(m: Model, steps: seq<Step>, k: nat)
    requires Sound(m) && NoTaskDropped(m, steps) && k <= |steps|
    ensures Sound(RunRepaired(m, steps[..k]))
  {
    if k > 0 {
      RepairedPrefixIsSound(m, steps, k - 1);
      assert steps[..k][..k - 1] == steps[..k - 1];
      RepairedStepIsSoundIff(RunRepaired(m, steps[..k - 1]), steps[k - 1]);
    }
  }

  /** The repaired model is sound in every state of a run if and only if no task is dropped in it. */
  lemma RepairedRunIsSoundIff(m: Model, steps: seq<Step>)
    requires Sound(m)
    ensures RepairedSoundThroughout(m, steps) <==> NoTaskDropped(m, steps)
  {
    if NoTaskDropped(m, steps) {
      forall k | 0 <= k <= |steps| ensures Sound(RunRepaired(m, steps[..k])) {
        RepairedPrefixIsSound(m, steps, k);
      }
    }
    if RepairedSoundThroughout(m, steps) {
      forall k | 0 <= k < |steps| && steps[k].PeriodSet? ensures KeepsTask(RunRepaired(m, steps[..k]), steps[k]) {
        assert steps[..k + 1][..k] == steps[..k];
        assert Sound(RunRepaired(m, steps[..k + 1]));
        RepairedStepIsSoundIff(RunRepaired(m, steps[..k]), steps[k]);
      }
    }
  }

  /** So over every run in which no update is dropped every notification passes the top of the ranked listings of the
      plain fold, and the listener holds it unless a timer will still fire; if moreover no task is dropped, it holds it
      whenever no task is scheduled. */
  lemma RepairedListenerHearsTheFold(
      limit: Size, period: int, steps: seq<Step>, buys: seq<PricedOrder>, sells: seq<PricedOrder>)
    requires NoUpdateDropped(Initial(limit, period), steps)
    requires Lists(BuyLess, buys, RefRun(steps), true) && Lists(SellLess, sells, RefRun(steps), false)
    ensures var m := RunRepaired(Initial(limit, period), steps);
            && HearsTop(m, buys, sells)
            && (NoTaskDropped(Initial(limit, period), steps) ==>
                  && IsCovered(m)
                  && (!m.taskScheduled ==>
                        m.heardBuys == Top(buys, m.depthLimit) && m.heardSells == Top(sells, m.depthLimit)))
  {
    RepairedRunFollowsFold(limit, period, steps);
    RepairedPrefixIsDeliverable(Initial(limit, period), steps, |steps|);
    assert steps[..|steps|] == steps;
    DeliverableHearsTop(RunRepaired(Initial(limit, period), steps), buys, sells);
    if NoTaskDropped(Initial(limit, period), steps) {
      RepairedPrefixIsSound(Initial(limit, period), steps, |steps|);
    }
  }
}
