/** The market depth model as a state machine: the lock-protected sections of the model and the steps of the
    timer threads, in any interleaving. */
module DepthProtocol {
  import opened Orders
  import opened SortedLists
  import opened SortedOrderSets
  import opened Books

  // ---------------------------------------------------------------- timers

  /** Where the thread of a one-shot timer stands: not begun, asleep, past the check that lets it call its
      task, past the call, or finished. */
  datatype Phase = Created | Sleeping | Committed | Fired | Done

  datatype TimerState = TimerState(phase: Phase, isRunning: bool) {

    /** The thread, left to itself, will still call the task. */
    predicate WillFire() {
      phase == Created || (phase == Sleeping && isRunning) || phase == Committed
    }

    function AfterStart(): TimerState {
      if phase == Created then TimerState(Sleeping, true) else this
    }

    /** The sleep ends, because its time is over or because the timer was stopped. */
    function AfterWake(): TimerState {
      if phase == Sleeping then this.(phase := if isRunning then Committed else Done) else this
    }

    function AfterCall(): TimerState {
      if phase == Committed then this.(phase := Fired) else this
    }

    function AfterFinish(): TimerState {
      if phase == Fired then TimerState(Done, false) else this
    }

    function Stopped(): TimerState {
      this.(isRunning := false)
    }
  }

  // ---------------------------------------------------------------- the model

  /** The model, the timers it has started, and what its listener last received. */
  datatype Model = Model(
    book: Book,
    depthLimit: Size,
    period: int,
    taskScheduled: bool,
    taskTimer: Option<nat>,
    timers: seq<TimerState>,
    heardBuys: seq<PricedOrder>,
    heardSells: seq<PricedOrder>
  ) {

    /** `notifyListeners`. */
    function Notified(): Model {
      var b := Book(book.byIndex, book.buys.AfterRead(), book.sells.AfterRead());
      this.(book := b, heardBuys := b.buys.snapshot, heardSells := b.sells.snapshot, taskScheduled := false)
    }

    predicate HasTimer() {
      taskTimer.Some? && taskTimer.value < |timers|
    }

    /** `tryCancelTask` finds a task to cancel. */
    predicate Cancels() {
      taskScheduled && HasTimer() && timers[taskTimer.value].isRunning
    }

    function AfterCancel(): Model {
      if !Cancels() then this
      else
        var t := taskTimer.value;
        this.(taskScheduled := false, taskTimer := None, timers := timers[t := timers[t].Stopped()])
    }

    /** `scheduleTaskIfNeeded`. */
    function AfterSchedule(): Model {
      if taskScheduled then this
      else
        this.(taskScheduled := true, taskTimer := Some(|timers|), timers := timers + [TimerState(Created, false)])
    }

    /** `rescheduleTaskIfNeeded`. */
    function AfterReschedule(delay: int): Model {
      if Cancels() && delay != 0 then AfterCancel().AfterSchedule() else AfterCancel()
    }

    /** What `eventsReceived` does once the book is updated. */
    function AfterUpdate(b: Book, isSnapshot: bool): Model {
      var m := this.(book := b);
      if !b.IsChanged() then m
      else if isSnapshot || period == 0 then m.AfterCancel().Notified()
      else m.AfterSchedule()
    }

    function AfterReceived(source: int, events: seq<Event>, isSnapshot: bool): Option<Model> {
      match ApplyAll(book, UpdateOps(source, events, isSnapshot))
      case None => None
      case Some(b) => Some(AfterUpdate(b, isSnapshot))
    }

    function WithLimit(limit: Size): Model {
      var b := Book(book.byIndex, book.buys.AfterLimit(limit), book.sells.AfterLimit(limit));
      this.(depthLimit := limit, book := b)
    }

    function AfterSetDepthLimit(limit: Size): Model {
      if limit == depthLimit then this else WithLimit(limit).AfterCancel().Notified()
    }

    function AfterSetPeriod(newPeriod: int): Model {
      if newPeriod == period then this else this.(period := newPeriod).AfterReschedule(newPeriod)
    }

    function WithTimer(t: nat, s: TimerState): Model {
      if t < |timers| then this.(timers := timers[t := s]) else this
    }
  }

  function Initial(limit: Size, period: int): Model {
    var side := OrderSet([], [], 0, false).AfterLimit(limit);
    Model(Book(map[], side, side), limit, period, false, None, [], [], [])
  }

  // ---------------------------------------------------------------- steps and runs

  datatype Step =
    | Received(source: int, events: seq<Event>, isSnapshot: bool)
    | DepthLimitSet(limit: Size)
    | PeriodSet(period: int)
    | TimerStarts(t: nat)
    | TimerWakes(t: nat)
    | TimerCalls(t: nat)
    | TimerFinishes(t: nat)

  /** One step. A step of a timer that is not in the phase for it changes nothing. */
  function Take(m: Model, step: Step): Option<Model> {
    match step
    case Received(source, events, isSnapshot) => m.AfterReceived(source, events, isSnapshot)
    case DepthLimitSet(limit) => Some(m.AfterSetDepthLimit(limit))
    case PeriodSet(period) => Some(m.AfterSetPeriod(period))
    case TimerStarts(t) => Some(if t < |m.timers| then m.WithTimer(t, m.timers[t].AfterStart()) else m)
    case TimerWakes(t) => Some(if t < |m.timers| then m.WithTimer(t, m.timers[t].AfterWake()) else m)
    case TimerCalls(t) =>
      Some(if t < |m.timers| && m.timers[t].phase == Committed
           then m.WithTimer(t, m.timers[t].AfterCall()).Notified() else m)
    case TimerFinishes(t) => Some(if t < |m.timers| then m.WithTimer(t, m.timers[t].AfterFinish()) else m)
  }

  function Run(m: Model, steps: seq<Step>): Option<Model> {
    if steps == [] then Some(m)
    else
      match Run(m, steps[..|steps| - 1])
      case None => None
      case Some(m') => Take(m', steps[|steps| - 1])
  }

  // ---------------------------------------------------------------- properties of a state

  /** The listener holds the top of both sides. */
  predicate UpToDate(m: Model) {
    && m.heardBuys == Top(m.book.buys.orders, m.depthLimit)
    && m.heardSells == Top(m.book.sells.orders, m.depthLimit)
  }

  predicate TaskPending(m: Model) {
    m.taskScheduled && m.HasTimer() && m.timers[m.taskTimer.value].WillFire()
  }

  /** A difference between the book and what the listener holds has a scheduled task that will report it. */
  predicate IsCovered(m: Model) {
    UpToDate(m) || TaskPending(m)
  }

  ghost predicate SidesAreSorted(b: Book) {
    Sorted(BuyLess, b.buys.orders) && Sorted(SellLess, b.sells.orders)
  }

  predicate CachesAgree(b: Book) {
    b.buys.CacheAgrees() && b.sells.CacheAgrees()
  }

  /** The listener holds the cached snapshots, whatever these are worth. */
  ghost predicate HoldsSnapshots(m: Model) {
    && SidesAreSorted(m.book)
    && m.book.buys.limit == m.depthLimit && m.book.sells.limit == m.depthLimit
    && m.heardBuys == m.book.buys.snapshot && m.heardSells == m.book.sells.snapshot
  }

  /** What every run keeps, whatever its steps: moreover a scheduled task has a timer that will fire. */
  ghost predicate Wired(m: Model) {
    HoldsSnapshots(m) && (m.taskScheduled ==> TaskPending(m))
  }

  ghost predicate InStep(m: Model) {
    HoldsSnapshots(m) && CachesAgree(m.book)
  }

  /** The invariant of the protocol. */
  ghost predicate Sound(m: Model) {
    && InStep(m)
    && (if m.taskScheduled then TaskPending(m) else UpToDate(m))
  }

  /** Of the states that a run can reach the sound ones are those in which the listener is up to date, or a task is
      scheduled and will find the caches in agreement. */
  lemma SoundIff(m: Model)
    requires Wired(m)
    ensures Sound(m) <==> UpToDate(m) || (m.taskScheduled && CachesAgree(m.book))
  {
  }

  // ---------------------------------------------------------------- one side over an update

  function SideOf(b: Book, isBuy: bool): OrderSet {
    if isBuy then b.buys else b.sells
  }

  function RankingOf(isBuy: bool): Ranking {
    if isBuy then BuyLess else SellLess
  }

  ghost predicate SideIsSorted(b: Book, isBuy: bool) {
    Sorted(RankingOf(isBuy), SideOf(b, isBuy).orders)
  }

  /** A step leaves the snapshot and the limit of a side alone, and keeps its order. */
  ghost predicate SideGoesOn(b: Book, b': Book, isBuy: bool) {
    && SideIsSorted(b', isBuy)
    && SideOf(b', isBuy).snapshot == SideOf(b, isBuy).snapshot && SideOf(b', isBuy).limit == SideOf(b, isBuy).limit
  }

  lemma RankingsRank(isBuy: bool)
    ensures Ranks(RankingOf(isBuy))
  {
    BuyLessRanks();
    SellLessRanks();
  }

  /** The order that an event takes out of a side, or the one that it puts in, can be seen. */
  predicate RemovalMarks(b: Book, index: int, isBuy: bool) {
    && index in b.byIndex && (b.byIndex[index].side == Buy) == isBuy
    && SideOf(b, isBuy).EraseMarks(RankingOf(isBuy), b.byIndex[index])
  }

  predicate AdditionMarks(b: Book, o: PricedOrder, isBuy: bool) {
    (o.side == Buy) == isBuy && SideOf(b, isBuy).InsertMarks(RankingOf(isBuy), o)
  }

  predicate EventMarks(b: Book, e: Event, isBuy: bool) {
    RemovalMarks(b, e.index, isBuy) || (e.ShallAdd() && AdditionMarks(b.WithoutIndex(e.index), e, isBuy))
  }

  lemma RemovalAgreesIff(b: Book, index: int, isBuy: bool)
    requires SideIsSorted(b, isBuy)
    ensures var b' := b.WithoutIndex(index);
            && SideGoesOn(b, b', isBuy)
            && (SideOf(b', isBuy).CacheAgrees() <==> SideOf(b, isBuy).CacheAgrees() || RemovalMarks(b, index, isBuy))
            && (SideOf(b', isBuy).changed <==> SideOf(b, isBuy).changed || RemovalMarks(b, index, isBuy))
  {
    RankingsRank(isBuy);
    if index in b.byIndex {
      EraseAgreesIff(RankingOf(isBuy), SideOf(b, isBuy), b.byIndex[index]);
    }
  }

  lemma AdditionAgreesIff(b: Book, o: PricedOrder, isBuy: bool)
    requires SideIsSorted(b, isBuy)
    ensures var b' := b.With(o);
            && SideGoesOn(b, b', isBuy)
            && (SideOf(b', isBuy).CacheAgrees() <==> SideOf(b, isBuy).CacheAgrees() || AdditionMarks(b, o, isBuy))
            && (SideOf(b', isBuy).changed <==> SideOf(b, isBuy).changed || AdditionMarks(b, o, isBuy))
  {
    RankingsRank(isBuy);
    InsertAgreesIff(RankingOf(isBuy), SideOf(b, isBuy), o);
  }

  lemma EventAgreesIff(b: Book, e: Event, isBuy: bool)
    requires SideIsSorted(b, isBuy)
    ensures var b' := b.AfterEvent(e);
            && SideGoesOn(b, b', isBuy)
            && (SideOf(b', isBuy).CacheAgrees() <==> SideOf(b, isBuy).CacheAgrees() || EventMarks(b, e, isBuy))
            && (SideOf(b', isBuy).changed <==> SideOf(b, isBuy).changed || EventMarks(b, e, isBuy))
  {
    RemovalAgreesIff(b, e.index, isBuy);
    if e.ShallAdd() {
      AdditionAgreesIff(b.WithoutIndex(e.index), e, isBuy);
    }
  }

  /** Event k of a batch marks the side, in the book that the clear and the events before it have left. */
  predicate EventOfBatchMarks(b: Book, source: int, events: seq<Event>, isSnapshot: bool, isBuy: bool, k: nat)
    requires k < |events|
  {
    match ApplyAll(b, UpdateOps(source, events[..k], isSnapshot))
    case None => false
    case Some(b') => EventMarks(b', events[k], isBuy)
  }

  predicate BatchMarks(b: Book, source: int, events: seq<Event>, isSnapshot: bool, isBuy: bool) {
    exists k :: 0 <= k < |events| && EventOfBatchMarks(b, source, events, isSnapshot, isBuy, k)
  }

  lemma BatchMarksWithOneMore(b: Book, source: int, events: seq<Event>, isSnapshot: bool, isBuy: bool)
    requires events != []
    ensures var n := |events| - 1;
            BatchMarks(b, source, events, isSnapshot, isBuy) <==>
            || BatchMarks(b, source, events[..n], isSnapshot, isBuy)
            || EventOfBatchMarks(b, source, events, isSnapshot, isBuy, n)
  {
    var n := |events| - 1;
    forall k | 0 <= k < n
      ensures EventOfBatchMarks(b, source, events[..n], isSnapshot, isBuy, k) ==
              EventOfBatchMarks(b, source, events, isSnapshot, isBuy, k)
    {
      assert events[..n][..k] == events[..k];
    }
  }

  /** A batch settles a side: its clear spares the side, and without a clear the cache agrees, or one of its events
      marks the side. */
  predicate Settles(b: Book, source: int, events: seq<Event>, isSnapshot: bool, isBuy: bool) {
    || (if isSnapshot then SideOf(b, isBuy).IsSpared(source) else SideOf(b, isBuy).CacheAgrees())
    || BatchMarks(b, source, events, isSnapshot, isBuy)
  }

  predicate SettlesBoth(b: Book, source: int, events: seq<Event>, isSnapshot: bool) {
    Settles(b, source, events, isSnapshot, true) && Settles(b, source, events, isSnapshot, false)
  }

  lemma ClearAgreesOnSideIff(b: Book, source: int, isBuy: bool)
    requires SideIsSorted(b, isBuy) && b.ClearIsDefined(source)
    ensures var b' := b.AfterClear(source);
            && SideGoesOn(b, b', isBuy)
            && (SideOf(b', isBuy).CacheAgrees() <==> SideOf(b, isBuy).IsSpared(source))
            && (SideOf(b', isBuy).changed <==> HasOrderFrom(SideOf(b, isBuy).orders, source))
  {
    ClearAgreesIff(SideOf(b, isBuy), source);
    ClearSkippingIsSorted(RankingOf(isBuy), SideOf(b, isBuy).orders, IsFrom(source));
  }

  /** Whatever state a side is in, after a batch its cache agrees if and only if the batch settles it. */
  lemma {:induction false} BatchAgreesIff(b: Book, source: int, events: seq<Event>, isSnapshot: bool, isBuy: bool)
    requires SideIsSorted(b, isBuy)
    ensures match ApplyAll(b, UpdateOps(source, events, isSnapshot))
            case None => true
            case Some(b') =>
              && SideGoesOn(b, b', isBuy)
              && (SideOf(b', isBuy).CacheAgrees() <==> Settles(b, source, events, isSnapshot, isBuy))
              && (SideOf(b', isBuy).changed <==>
                    || (if isSnapshot then HasOrderFrom(SideOf(b, isBuy).orders, source) else SideOf(b, isBuy).changed)
                    || BatchMarks(b, source, events, isSnapshot, isBuy))
    decreases |events|
  {
    if events == [] {
      UpdateStarts(b, source, isSnapshot);
      if isSnapshot && b.ClearIsDefined(source) {
        ClearAgreesOnSideIff(b, source, isBuy);
      }
    } else {
      var n := |events| - 1;
      BatchAgreesIff(b, source, events[..n], isSnapshot, isBuy);
      BatchMarksWithOneMore(b, source, events, isSnapshot, isBuy);
      UpdateGoesOn(b, source, events, isSnapshot);
      if b' :| ApplyAll(b, UpdateOps(source, events[..n], isSnapshot)) == Some(b') {
        EventAgreesIff(b', events[n], isBuy);
      }
    }
  }

  /** The same for both sides at once. */
  lemma UpdateAgreesIff(b: Book, source: int, events: seq<Event>, isSnapshot: bool)
    requires SidesAreSorted(b)
    ensures match ApplyAll(b, UpdateOps(source, events, isSnapshot))
            case None => true
            case Some(b') =>
              && SidesAreSorted(b') && SideGoesOn(b, b', true) && SideGoesOn(b, b', false)
              && (CachesAgree(b') <==> SettlesBoth(b, source, events, isSnapshot))
  {
    BatchAgreesIff(b, source, events, isSnapshot, true);
    BatchAgreesIff(b, source, events, isSnapshot, false);
  }

  // ---------------------------------------------------------------- which steps keep the protocol sound

  /** The two kinds of step that leave an update without a scheduled task to report it: a snapshot that leaves a side
      unsettled, and setting the period to 0, which cancels a task that had something to deliver. */
  predicate KeepsTask(m: Model, step: Step) {
    match step
    case Received(source, events, isSnapshot) =>
      isSnapshot && m.book.ClearIsDefined(source) ==> SettlesBoth(m.book, source, events, isSnapshot)
    case PeriodSet(period) => period == 0 && m.period != 0 && m.Cancels() ==> UpToDate(m)
    case _ => true
  }

  lemma NotifyMakesSound(m: Model)
    requires InStep(m)
    ensures Sound(m.Notified()) && UpToDate(m.Notified())
  {
  }

  /** What follows an update of the book restores the protocol if and only if the caches agree. */
  lemma AfterUpdateIsSoundIff(m: Model, b: Book, isSnapshot: bool)
    requires Wired(m)
    requires SidesAreSorted(b) && SideGoesOn(m.book, b, true) && SideGoesOn(m.book, b, false)
    ensures var m' := m.AfterUpdate(b, isSnapshot);
            && Wired(m') && (CachesAgree(m'.book) <==> CachesAgree(b))
            && (isSnapshot || m.period == 0 || !b.IsChanged() ==> (UpToDate(m') <==> CachesAgree(b)))
            && (CachesAgree(b) ==> Sound(m'))
  {
    if b.IsChanged() && (isSnapshot || m.period == 0) {
      assert HoldsSnapshots(m.(book := b).AfterCancel());
    }
  }

  /** A delivered batch keeps the protocol sound if and only if it is no snapshot or settles both sides. */
  lemma ReceiveIsSoundIff(m: Model, source: int, events: seq<Event>, isSnapshot: bool)
    requires Sound(m)
    ensures match m.AfterReceived(source, events, isSnapshot)
            case None => true
            case Some(m') => Sound(m') <==> (isSnapshot ==> SettlesBoth(m.book, source, events, isSnapshot))
  {
    UpdateAgreesIff(m.book, source, events, isSnapshot);
    if b :| ApplyAll(m.book, UpdateOps(source, events, isSnapshot)) == Some(b) {
      AfterUpdateIsSoundIff(m, b, isSnapshot);
    }
  }

  /** Every step of the model and of its timers keeps the protocol sound if and only if it is not of these kinds. */
  lemma StepIsSoundIff(m: Model, step: Step)
    requires Sound(m)
    ensures match Take(m, step) case None => true case Some(m') => Sound(m') <==> KeepsTask(m, step)
  {
    match step
    case Received(source, events, isSnapshot) =>
      ReceiveIsSoundIff(m, source, events, isSnapshot);
      UpdateIsDefinedIff(m.book, source, events, isSnapshot);
    case DepthLimitSet(limit) =>
      if limit != m.depthLimit {
        assert InStep(m.WithLimit(limit).AfterCancel());
        NotifyMakesSound(m.WithLimit(limit).AfterCancel());
      }
    case PeriodSet(period) =>
    case TimerStarts(t) =>
    case TimerWakes(t) =>
    case TimerCalls(t) =>
      if t < |m.timers| && m.timers[t].phase == Committed {
        NotifyMakesSound(m.WithTimer(t, m.timers[t].AfterCall()));
      }
    case TimerFinishes(t) =>
  }

  // ---------------------------------------------------------------- whole runs

  lemma RunNext(m: Model, steps: seq<Step>, k: nat)
    requires k < |steps|
    ensures Run(m, steps[..k + 1]) == match Run(m, steps[..k]) case None => None case Some(m') => Take(m', steps[k])
  {
    assert steps[..k + 1][..k] == steps[..k];
  }

  /** Every state that a run reaches is sound. */
  ghost predicate SoundThroughout(m: Model, steps: seq<Step>) {
    forall k :: 0 <= k <= |steps| && Run(m, steps[..k]).Some? ==> Sound(Run(m, steps[..k]).value)
  }

  ghost predicate KeepsTaskThroughout(m: Model, steps: seq<Step>) {
    forall k :: 0 <= k < |steps| && Run(m, steps[..k]).Some? ==> KeepsTask(Run(m, steps[..k]).value, steps[k])
  }

  lemma {:induction false} PrefixIsSound(m: Model, steps: seq<Step>, k: nat)
    requires Sound(m) && KeepsTaskThroughout(m, steps) && k <= |steps|
    ensures match Run(m, steps[..k]) case None => true case Some(m') => Sound(m')
  {
    if k > 0 {
      PrefixIsSound(m, steps, k - 1);
      RunNext(m, steps, k - 1);
      if m' :| Run(m, steps[..k - 1]) == Some(m') {
        StepIsSoundIff(m', steps[k - 1]);
      }
    }
  }

  /** A run is sound in every state if and only if none of its steps is of these kinds where it is taken. */
  lemma RunIsSoundIff(m: Model, steps: seq<Step>)
    requires Sound(m)
    ensures SoundThroughout(m, steps) <==> KeepsTaskThroughout(m, steps)
  {
    if SoundThroughout(m, steps) {
      forall k | 0 <= k < |steps| && Run(m, steps[..k]).Some? ensures KeepsTask(Run(m, steps[..k]).value, steps[k]) {
        RunNext(m, steps, k);
        StepIsSoundIff(Run(m, steps[..k]).value, steps[k]);
        StepIsDefinedIff(Run(m, steps[..k]).value, steps[k]);
      }
    }
    if KeepsTaskThroughout(m, steps) {
      forall k | 0 <= k <= |steps| && Run(m, steps[..k]).Some? ensures Sound(Run(m, steps[..k]).value) {
        PrefixIsSound(m, steps, k);
      }
    }
  }

  /** In any interleaving of batches, settings and timer steps, cancelled timers that fire late and overlapping timers
      included, an update has a scheduled task that will report it, as long as no step is of these kinds. */
  lemma RunCoversUpdates(limit: Size, period: int, steps: seq<Step>)
    requires KeepsTaskThroughout(Initial(limit, period), steps)
    ensures match Run(Initial(limit, period), steps)
            case None => true
            case Some(m) => Sound(m) && IsCovered(m)
  {
    PrefixIsSound(Initial(limit, period), steps, |steps|);
    assert steps[..|steps|] == steps;
  }

  lemma StepKeepsWired(m: Model, step: Step)
    requires Wired(m)
    ensures match Take(m, step) case None => true case Some(m') => Wired(m')
  {
    if step.Received? {
      UpdateAgreesIff(m.book, step.source, step.events, step.isSnapshot);
      if b :| ApplyAll(m.book, UpdateOps(step.source, step.events, step.isSnapshot)) == Some(b) {
        AfterUpdateIsSoundIff(m, b, step.isSnapshot);
      }
    }
  }

  /** In every run, whatever its steps, the listener holds the cached snapshots, and a scheduled task has a timer
      that will fire. */
  lemma {:induction false} RunIsWired(limit: Size, period: int, steps: seq<Step>)
    ensures match Run(Initial(limit, period), steps) case None => true case Some(m) => Wired(m)
    decreases |steps|
  {
    if steps != [] {
      RunIsWired(limit, period, steps[..|steps| - 1]);
      if m :| Run(Initial(limit, period), steps[..|steps| - 1]) == Some(m) {
        StepKeepsWired(m, steps[|steps| - 1]);
      }
    }
  }

  /** The clear of a snapshot finds no odd block of its source's orders at the end of a side. */
  predicate StaysInside(m: Model, step: Step) {
    step.Received? && step.isSnapshot ==> m.book.ClearIsDefined(step.source)
  }

  lemma StepIsDefinedIff(m: Model, step: Step)
    ensures Take(m, step).Some? <==> StaysInside(m, step)
  {
    if step.Received? {
      UpdateIsDefinedIff(m.book, step.source, step.events, step.isSnapshot);
    }
  }

  ghost predicate StaysInsideThroughout(m: Model, steps: seq<Step>) {
    forall k :: 0 <= k < |steps| && Run(m, steps[..k]).Some? ==> StaysInside(Run(m, steps[..k]).value, steps[k])
  }

  lemma {:induction false} UndefinedRunStaysUndefined(m: Model, steps: seq<Step>, k: nat)
    requires k <= |steps| && Run(m, steps[..k]) == None
    ensures Run(m, steps) == None
    decreases |steps| - k
  {
    if k < |steps| {
      RunNext(m, steps, k);
      UndefinedRunStaysUndefined(m, steps, k + 1);
    } else {
      assert steps[..k] == steps;
    }
  }

  lemma {:induction false} PrefixIsDefined(m: Model, steps: seq<Step>, k: nat)
    requires StaysInsideThroughout(m, steps) && k <= |steps|
    ensures Run(m, steps[..k]).Some?
  {
    if k > 0 {
      PrefixIsDefined(m, steps, k - 1);
      RunNext(m, steps, k - 1);
      StepIsDefinedIff(Run(m, steps[..k - 1]).value, steps[k - 1]);
    }
  }

  /** A run never steps past the end of a set if and only if each of its snapshots finds both sides with an even
      number of its source's orders at the end. */
  lemma RunIsDefinedIff(m: Model, steps: seq<Step>)
    ensures Run(m, steps).Some? <==> StaysInsideThroughout(m, steps)
  {
    if StaysInsideThroughout(m, steps) {
      PrefixIsDefined(m, steps, |steps|);
      assert steps[..|steps|] == steps;
    }
    forall k | 0 <= k < |steps| && Run(m, steps).Some? && Run(m, steps[..k]).Some?
      ensures StaysInside(Run(m, steps[..k]).value, steps[k])
    {
      RunNext(m, steps, k);
      if Run(m, steps[..k + 1]) == None {
        UndefinedRunStaysUndefined(m, steps, k + 1);
      }
      StepIsDefinedIff(Run(m, steps[..k]).value, steps[k]);
    }
  }

  lemma {:induction false} RunFirst(m: Model, first: Step, rest: seq<Step>)
    ensures Run(m, [first] + rest) == match Take(m, first) case None => None case Some(m') => Run(m', rest)
    decreases |rest|
  {
    var steps := [first] + rest;
    if rest == [] {
      assert steps[..|steps| - 1] == [];
    } else {
      assert steps[..|steps| - 1] == [first] + rest[..|rest| - 1];
      RunFirst(m, first, rest[..|rest| - 1]);
    }
  }

  /** What the thread of a timer in this phase still has to do up to the call of its task. */
  function RemainingSteps(t: nat, phase: Phase): seq<Step> {
    match phase
    case Created => [TimerStarts(t)] + ([TimerWakes(t)] + ([TimerCalls(t)] + []))
    case Sleeping => [TimerWakes(t)] + ([TimerCalls(t)] + [])
    case Committed => [TimerCalls(t)] + []
    case _ => []
  }

  /** A timer that will fire delivers: once it has taken its remaining steps the listener is up to date. */
  lemma FiringTimerDelivers(m: Model, t: nat)
    requires InStep(m) && t < |m.timers| && m.timers[t].WillFire()
    ensures var m' := Run(m, RemainingSteps(t, m.timers[t].phase));
            m'.Some? && UpToDate(m'.value)
    decreases m.timers[t].phase == Created, m.timers[t].phase == Sleeping
  {
    var phase := m.timers[t].phase;
    if phase == Committed {
      RunFirst(m, TimerCalls(t), []);
      NotifyMakesSound(m.WithTimer(t, m.timers[t].AfterCall()));
    } else {
      var step := if phase == Created then TimerStarts(t) else TimerWakes(t);
      RunFirst(m, step, RemainingSteps(t, if phase == Created then Sleeping else Committed));
      FiringTimerDelivers(Take(m, step).value, t);
    }
  }

  /** So does that of a scheduled task. */
  lemma PendingTaskDelivers(m: Model)
    requires Sound(m) && m.taskScheduled
    ensures var t := m.taskTimer.value;
            var m' := Run(m, RemainingSteps(t, m.timers[t].phase));
            m'.Some? && UpToDate(m'.value)
  {
    FiringTimerDelivers(m, m.taskTimer.value);
  }

  // ---------------------------------------------------------------- what the listener hears

  /** What a step, and what a run, does to the plain map of orders. */
  function RefTake(m: OrdersByIndex, step: Step): OrdersByIndex {
    match step
    case Received(source, events, isSnapshot) => RefApplyAll(m, UpdateOps(source, events, isSnapshot))
    case _ => m
  }

  function RefRun(steps: seq<Step>): OrdersByIndex {
    if steps == [] then map[] else RefTake(RefRun(steps[..|steps| - 1]), steps[|steps| - 1])
  }

  /** A snapshot finds a book on which its clear works. */
  predicate Works(m: Model, step: Step) {
    step.Received? && step.isSnapshot ==> ClearWorks(m.book, step.source)
  }

  ghost predicate WorksThroughout(m: Model, steps: seq<Step>) {
    forall k :: 0 <= k < |steps| && Run(m, steps[..k]).Some? ==> Works(Run(m, steps[..k]).value, steps[k])
  }

  lemma UpdateRefinesFold(b: Book, source: int, events: seq<Event>, isSnapshot: bool)
    requires Consistent(b) && (isSnapshot ==> ClearWorks(b, source))
    ensures var ops := UpdateOps(source, events, isSnapshot);
            var b' := ApplyAll(b, ops);
            b'.Some? && Consistent(b'.value) && b'.value.byIndex == RefApplyAll(b.byIndex, ops)
  {
    var ops := UpdateOps(source, events, isSnapshot);
    forall k | 0 <= k < |ops| && ApplyAll(b, ops[..k]).Some?
      ensures OpWorks(ApplyAll(b, ops[..k]).value, ops[k])
    {
      assert ops[..0] == [];
    }
    RunRefinesFold(b, ops);
    PrefixIsConsistent(b, ops, |ops|);
    assert ops[..|ops|] == ops;
  }

  predicate SameOrders(b: Book, b': Book) {
    b'.byIndex == b.byIndex && b'.buys.orders == b.buys.orders && b'.sells.orders == b.sells.orders
  }

  lemma SameOrdersStayConsistent(b: Book, b': Book)
    requires Consistent(b) && SameOrders(b, b')
    ensures Consistent(b')
  {
  }

  lemma OtherStepsKeepOrders(m: Model, step: Step)
    requires !step.Received?
    ensures Take(m, step).Some? && SameOrders(m.book, Take(m, step).value.book)
  {
  }

  lemma StepRefinesFold(m: Model, step: Step)
    requires Consistent(m.book) && Works(m, step)
    ensures var m' := Take(m, step);
            m'.Some? && Consistent(m'.value.book) && m'.value.book.byIndex == RefTake(m.book.byIndex, step)
  {
    if step.Received? {
      UpdateRefinesFold(m.book, step.source, step.events, step.isSnapshot);
      var b := ApplyAll(m.book, UpdateOps(step.source, step.events, step.isSnapshot)).value;
      SameOrdersStayConsistent(b, m.AfterUpdate(b, step.isSnapshot).book);
    } else {
      OtherStepsKeepOrders(m, step);
      SameOrdersStayConsistent(m.book, Take(m, step).value.book);
    }
  }

  /** The book follows the plain fold over any run whose clears work, updates lost or not. */
  lemma {:induction false} RunFollowsFold(limit: Size, period: int, steps: seq<Step>)
    requires WorksThroughout(Initial(limit, period), steps)
    ensures var m := Run(Initial(limit, period), steps);
            m.Some? && Consistent(m.value.book) && m.value.book.byIndex == RefRun(steps)
    decreases |steps|
  {
    if steps != [] {
      var m, n := Initial(limit, period), |steps| - 1;
      forall k | 0 <= k < n && Run(m, steps[..n][..k]).Some?
        ensures Works(Run(m, steps[..n][..k]).value, steps[..n][k])
      {
        assert steps[..n][..k] == steps[..k];
      }
      RunFollowsFold(limit, period, steps[..n]);
      StepRefinesFold(Run(m, steps[..n]).value, steps[n]);
    }
  }

  // ---------------------------------------------------------------- the two ways to leave an update without a task

  /** Setting the period to 0 leaves an update without a task if and only if it cancels one while something is
      undelivered. */
  lemma ZeroPeriodUncoversUpdateIff(m: Model)
    requires Sound(m) && m.period != 0
    ensures !IsCovered(m.AfterSetPeriod(0)) <==> m.Cancels() && !UpToDate(m)
    ensures InStep(m.AfterSetPeriod(0))
  {
  }

  /** With no aggregation period, and for a snapshot under any period, the listener is up to date as soon as the
      batch is taken, if and only if the batch settles both sides: whatever was lost before, be it by a period of 0
      or by a wiped mark, is delivered then, and only then. */
  lemma BatchDeliversAtOnceIff(m: Model, source: int, events: seq<Event>, isSnapshot: bool)
    requires Wired(m)
    requires m.period == 0 || isSnapshot
    ensures match m.AfterReceived(source, events, isSnapshot)
            case None => true
            case Some(m') =>
              && (UpToDate(m') <==> SettlesBoth(m.book, source, events, isSnapshot))
              && (UpToDate(m') ==> Sound(m'))
  {
    UpdateAgreesIff(m.book, source, events, isSnapshot);
    if b :| ApplyAll(m.book, UpdateOps(source, events, isSnapshot)) == Some(b) {
      AfterUpdateIsSoundIff(m, b, isSnapshot);
    }
  }

  /** What setting the period to 0 has lost is delivered by the next batch, be it empty, that is no snapshot. */
  lemma NextBatchDelivers(m: Model, source: int, events: seq<Event>)
    requires InStep(m) && !m.taskScheduled && m.period == 0
    ensures var m' := m.AfterReceived(source, events, false);
            m'.Some? && Sound(m'.value) && UpToDate(m'.value)
  {
    UpdateIsDefinedIff(m.book, source, events, false);
    BatchDeliversAtOnceIff(m, source, events, false);
  }

  /** Any other batch is left to the task: the listener hears nothing, and one timer is started if there is
      something to report and no task yet. */
  lemma BatchWaitsForTask(m: Model, source: int, events: seq<Event>)
    requires Sound(m) && m.period != 0
    ensures match m.AfterReceived(source, events, false)
            case None => false
            case Some(m') =>
              && m'.heardBuys == m.heardBuys && m'.heardSells == m.heardSells
              && (!UpToDate(m') ==> TaskPending(m'))
              && m'.timers == m.timers +
                 if m.taskScheduled || !m'.book.IsChanged() then [] else [TimerState(Created, false)]
  {
    ReceiveIsSoundIff(m, source, events, false);
    UpdateIsDefinedIff(m.book, source, events, false);
  }

  /** A new depth limit is delivered at once. */
  lemma DepthLimitDeliversAtOnce(m: Model, limit: Size)
    requires InStep(m) && limit != m.depthLimit
    ensures var m' := m.AfterSetDepthLimit(limit);
            m'.depthLimit == limit && Sound(m') && UpToDate(m') && SameOrders(m.book, m'.book)
  {
  }

  // ---------------------------------------------------------------- what the sections do to the fields

  /** A new model is empty, and has the settings that it was built with. */
  lemma NewModelIsEmpty(limit: Size, period: int)
    ensures var m := Initial(limit, period);
            && m.depthLimit == limit && m.period == period && !m.taskScheduled && m.taskTimer == None && m.timers == []
            && m.book.byIndex == map[] && m.book.buys.orders == [] && m.book.sells.orders == []
            && m.book.buys.limit == limit && m.book.sells.limit == limit && m.heardBuys == [] && m.heardSells == []
            && Sound(m)
  {
  }

  /** When the caches agree a notification passes the beginning of each side: all of it without a limit (as far as the
      size type can count), and otherwise as many orders as the limit allows. */
  lemma NotificationPassesTheBeginning(m: Model)
    requires InStep(m)
    ensures var m' := m.Notified();
            && m'.heardBuys <= m.book.buys.orders && m'.heardSells <= m.book.sells.orders
            && (m.depthLimit == 0 || m.depthLimit == 0xFFFF_FFFF_FFFF_FFFF ==>
                  && |m'.heardBuys| == (if |m.book.buys.orders| <= 0xFFFF_FFFF_FFFF_FFFF then |m.book.buys.orders|
                                        else 0xFFFF_FFFF_FFFF_FFFF)
                  && |m'.heardSells| == (if |m.book.sells.orders| <= 0xFFFF_FFFF_FFFF_FFFF then |m.book.sells.orders|
                                         else 0xFFFF_FFFF_FFFF_FFFF))
            && (0 < m.depthLimit < 0xFFFF_FFFF_FFFF_FFFF ==>
                  && |m'.heardBuys| == (if |m.book.buys.orders| <= m.depthLimit then |m.book.buys.orders|
                                        else m.depthLimit)
                  && |m'.heardSells| == (if |m.book.sells.orders| <= m.depthLimit then |m.book.sells.orders|
                                         else m.depthLimit))
    ensures SameOrders(m.book, m.Notified().book) && !m.Notified().taskScheduled && !m.Notified().book.IsChanged()
    ensures m.Notified().depthLimit == m.depthLimit && m.Notified().period == m.period
    ensures m.Notified().timers == m.timers && m.Notified().taskTimer == m.taskTimer
  {
    TopIsPrefix(m.book.buys.orders, m.depthLimit);
    TopIsPrefix(m.book.sells.orders, m.depthLimit);
  }

  /** A task is cancelled if and only if one is scheduled, and its timer is there and has its flag up; then the flag
      goes down, and the task and its timer are forgotten. Otherwise nothing happens. */
  lemma CancelForgetsTheTask(m: Model)
    ensures m.Cancels() <==>
            && m.taskScheduled && m.taskTimer.Some? && m.taskTimer.value < |m.timers|
            && m.timers[m.taskTimer.value].isRunning
    ensures !m.Cancels() ==> m.AfterCancel() == m
    ensures m.Cancels() ==>
              var t, m' := m.taskTimer.value, m.AfterCancel();
              && !m'.taskScheduled && m'.taskTimer == None
              && |m'.timers| == |m.timers| && !m'.timers[t].isRunning && m'.timers[t].phase == m.timers[t].phase
              && (forall u :: 0 <= u < |m.timers| && u != t ==> m'.timers[u] == m.timers[u])
              && m'.book == m.book && m'.depthLimit == m.depthLimit && m'.period == m.period
              && m'.heardBuys == m.heardBuys && m'.heardSells == m.heardSells
  {
  }

  /** A snapshot, and any batch without a period, that changes a side cancels the pending task, and no other timer is
      stopped or started. */
  lemma ImmediateBatchCancelsTask(m: Model, b: Book, isSnapshot: bool)
    requires b.IsChanged() && (isSnapshot || m.period == 0)
    ensures var m' := m.AfterUpdate(b, isSnapshot);
            && !m'.taskScheduled && m'.timers == m.AfterCancel().timers && m'.taskTimer == m.AfterCancel().taskTimer
            && m'.period == m.period && m'.depthLimit == m.depthLimit
  {
  }

  /** A batch that changes no side does nothing but update the index map. */
  lemma UnseenBatchDoesNothing(m: Model, b: Book, isSnapshot: bool)
    requires !b.IsChanged()
    ensures m.AfterUpdate(b, isSnapshot) == m.(book := b)
  {
  }

  /** A new period is in force at once, and touches neither the book nor what the listener holds. A pending task is
      replaced by one with a fresh timer if its timer has its flag up and the period is not 0, and dropped if it is 0;
      in every other case the timers stay as they are, and the same period changes nothing at all. */
  lemma PeriodIsInForce(m: Model, period: int)
    ensures var m' := m.AfterSetPeriod(period);
            && m'.period == period && m'.book == m.book && m'.depthLimit == m.depthLimit
            && m'.heardBuys == m.heardBuys && m'.heardSells == m.heardSells
            && (period == m.period ==> m' == m)
            && (period != m.period && !m.Cancels() ==> m' == m.(period := period))
            && (period != m.period && m.Cancels() ==>
                  var stopped := m.AfterCancel().timers;
                  if period == 0 then m'.timers == stopped && !m'.taskScheduled && m'.taskTimer == None
                  else
                    && m'.timers == stopped + [TimerState(Created, false)]
                    && m'.taskScheduled && m'.taskTimer == Some(|stopped|))
  {
  }

  /** So is a new depth limit: both sets are cut to it, the pending task is cancelled, and no timer is started. The same
      limit changes nothing at all. */
  lemma DepthLimitIsInForce(m: Model, limit: Size)
    ensures limit == m.depthLimit ==> m.AfterSetDepthLimit(limit) == m
    ensures limit != m.depthLimit ==>
              var m' := m.AfterSetDepthLimit(limit);
              && m'.depthLimit == limit && m'.book.buys.limit == limit && m'.book.sells.limit == limit
              && m'.period == m.period && SameOrders(m.book, m'.book)
              && !m'.taskScheduled && m'.timers == m.AfterCancel().timers && m'.taskTimer == m.AfterCancel().taskTimer
  {
  }

  /** After setting a period that is not 0 a batch that is no snapshot waits for a task. */
  lemma BatchAfterPeriodWaits(m: Model, period: int, source: int, events: seq<Event>)
    requires Sound(m) && period != 0
    ensures match m.AfterSetPeriod(period).AfterReceived(source, events, false)
            case None => false
            case Some(m') =>
              && m'.heardBuys == m.heardBuys && m'.heardSells == m.heardSells
              && (!UpToDate(m') ==> TaskPending(m'))
              && (m'.book.IsChanged() ==> m'.taskScheduled)
  {
    var m' := m.AfterSetPeriod(period);
    PeriodIsInForce(m, period);
    StepIsSoundIff(m, PeriodSet(period));
    BatchWaitsForTask(m', source, events);
    UpdateIsDefinedIff(m'.book, source, events, false);
  }

  /** After setting the period to 0 it reaches the listener at once. */
  lemma BatchAfterZeroPeriodIsHeard(m: Model, source: int, events: seq<Event>)
    requires Wired(m) && CachesAgree(m.book)
    ensures match m.AfterSetPeriod(0).AfterReceived(source, events, false)
            case None => false
            case Some(m') => UpToDate(m')
  {
    var m' := m.AfterSetPeriod(0);
    PeriodIsInForce(m, 0);
    StepKeepsWired(m, PeriodSet(0));
    UpdateIsDefinedIff(m'.book, source, events, false);
    BatchDeliversAtOnceIff(m', source, events, false);
  }

  // ---------------------------------------------------------------- cancelled timers

  predicate IsQuiet(m: Model, t: nat) {
    t < |m.timers| && !m.timers[t].isRunning && (m.timers[t].phase == Sleeping || m.timers[t].phase == Done)
  }

  lemma QuietTimerStaysQuiet(m: Model, t: nat, step: Step)
    requires IsQuiet(m, t)
    ensures match Take(m, step) case None => true case Some(m') => IsQuiet(m', t)
  {
  }

  /** A task that is cancelled while its timer sleeps never calls, whatever happens afterwards. */
  lemma {:induction false} CancelledSleeperNeverCalls(m: Model, t: nat, steps: seq<Step>)
    requires m.Cancels() && m.taskTimer == Some(t) && m.timers[t].phase == Sleeping
    ensures match Run(m.AfterCancel(), steps) case None => true case Some(m') => IsQuiet(m', t)
    decreases |steps|
  {
    if steps != [] {
      var before := steps[..|steps| - 1];
      CancelledSleeperNeverCalls(m, t, before);
      if m' :| Run(m.AfterCancel(), before) == Some(m') {
        QuietTimerStaysQuiet(m', t, steps[|steps| - 1]);
      }
    }
  }

  // ---------------------------------------------------------------- stale sides

  /** A side that differs from its snapshot and from what the listener holds, and that no mark calls to refresh. */
  predicate IsStale(v: OrderSet, heard: seq<PricedOrder>) {
    !v.changed && heard == v.snapshot && v.snapshot != Top(v.orders, v.limit)
  }

  predicate HasStaleSide(m: Model) {
    IsStale(m.book.buys, m.heardBuys) || IsStale(m.book.sells, m.heardSells)
  }

  /** A batch leaves a stale side if and only if it does not settle both sides. */
  lemma BatchIsStaleIff(m: Model, source: int, events: seq<Event>, isSnapshot: bool)
    requires HoldsSnapshots(m)
    ensures match m.AfterReceived(source, events, isSnapshot)
            case None => true
            case Some(m') =>
              && (HasStaleSide(m') <==> !SettlesBoth(m.book, source, events, isSnapshot))
              && m'.book.buys.limit == m'.book.sells.limit == m'.depthLimit
  {
    UpdateAgreesIff(m.book, source, events, isSnapshot);
    if b :| ApplyAll(m.book, UpdateOps(source, events, isSnapshot)) == Some(b) {
      StaleAfterUpdateIff(m, b, isSnapshot);
    }
  }

  lemma StaleAfterUpdateIff(m: Model, b: Book, isSnapshot: bool)
    requires HoldsSnapshots(m) && SideGoesOn(m.book, b, true) && SideGoesOn(m.book, b, false)
    ensures HasStaleSide(m.AfterUpdate(b, isSnapshot)) <==> !CachesAgree(b)
  {
  }

  /** No step of a timer and no change of the period brings a stale side to the listener: the update is lost, task
      or no task, until another batch or another depth limit arrives. */
  lemma {:induction false} StaleSideStaysLost(m: Model, steps: seq<Step>)
    requires HasStaleSide(m) && m.book.buys.limit == m.book.sells.limit == m.depthLimit
    requires forall i :: 0 <= i < |steps| ==> !steps[i].Received? && !steps[i].DepthLimitSet?
    ensures var m' := Run(m, steps);
            && m'.Some? && HasStaleSide(m'.value) && !UpToDate(m'.value)
            && m'.value.book.buys.limit == m'.value.book.sells.limit == m'.value.depthLimit
    decreases |steps|
  {
    if steps != [] {
      StaleSideStaysLost(m, steps[..|steps| - 1]);
      StaleSideStays(Run(m, steps[..|steps| - 1]).value, steps[|steps| - 1]);
    }
  }

  lemma StaleSideStays(m: Model, step: Step)
    requires HasStaleSide(m) && !step.Received? && !step.DepthLimitSet?
    ensures var m' := Take(m, step);
            && m'.Some? && HasStaleSide(m'.value) && m'.value.depthLimit == m.depthLimit
            && m'.value.book.buys.limit == m.book.buys.limit && m'.value.book.sells.limit == m.book.sells.limit
  {
  }

  lemma FirstOrderArrives(m: Model, o: PricedOrder, limit: Size, period: int)
    requires o.ShallAdd() && o.side == Buy && period != 0 && m == Initial(limit, period)
    ensures Take(m, Received(1, [o], false)) ==
            Some(m.(book := Book(map[o.index := o], OrderSet([o], [], limit, true), m.book.sells),
                    taskScheduled := true, taskTimer := Some(0), timers := [TimerState(Created, false)]))
  {
    SingleEvent(m.book, 1, o);
    FirstOrderInBook(m.book, o);
    assert m.timers + [TimerState(Created, false)] == [TimerState(Created, false)];
  }

  lemma SingleEvent(b: Book, source: int, e: Event)
    ensures ApplyAll(b, UpdateOps(source, [e], false)) == Some(b.AfterEvent(e))
  {
    assert [e][..0] == [];
    UpdateStarts(b, source, false);
    UpdateGoesOn(b, source, [e], false);
  }

  lemma FirstOrderInBook(b: Book, o: PricedOrder)
    requires o.ShallAdd() && o.side == Buy && b.byIndex == map[] && b.buys.orders == [] && b.buys.snapshot == []
    ensures b.AfterEvent(o) == Book(map[o.index := o], b.buys.(orders := [o], changed := true), b.sells)
  {
    FirstInsert(b.buys, o);
  }

  lemma FirstInsert(v: OrderSet, o: PricedOrder)
    requires v.orders == [] && v.snapshot == []
    ensures v.AfterInsert(BuyLess, o) == v.(orders := [o], changed := true)
  {
    assert Inserted(BuyLess, [], o) == [o];
  }

  /** A concrete run that ends in an undefined step: the only order of the book belongs to the source of a snapshot. */
  lemma OwnSnapshotStepsPastTheEnd(o: PricedOrder, limit: Size, period: int)
    requires o.ShallAdd() && o.side == Buy && o.source == 1 && period != 0
    ensures Run(Initial(limit, period), [Received(1, [o], false)] + ([Received(1, [], true)] + [])) == None
  {
    var m := Initial(limit, period);
    FirstOrderArrives(m, o, limit, period);
    var m1 := Take(m, Received(1, [o], false)).value;
    RunFirst(m, Received(1, [o], false), [Received(1, [], true)] + []);
    RunFirst(m1, Received(1, [], true), []);
    OneOwnOrderIsOdd(m1.book, o);
    StepIsDefinedIff(m1, Received(1, [], true));
  }

  lemma OneOwnOrderIsOdd(b: Book, o: PricedOrder)
    requires b.buys.orders == [o]
    ensures !b.ClearIsDefined(o.source)
  {
    assert [o][..0] == [];
    assert Trailing([o], IsFrom(o.source)) == 1;
  }

  lemma OtherSourceClears(m: Model, o: PricedOrder, source: int, limit: Size)
    requires m.book.buys == OrderSet([o], [], limit, true) && m.book.byIndex == map[o.index := o]
    requires m.book.sells.orders == [] && o.source != source
    ensures Take(m, Received(source, [], true)) ==
            Some(m.(book := Book(m.book.byIndex, OrderSet([o], [], limit, false), m.book.sells.(changed := false))))
  {
    assert UpdateOps(source, [], true) == [Clear(source)];
    SingleOp(m.book, Clear(source));
    assert DropSource(m.book.byIndex, source) == m.book.byIndex;
    NothingToClear([o], IsFrom(source));
    assert [o][1..] == [];
    assert m.book.ClearIsDefined(source);
  }

  /** A concrete run in which a snapshot of one source wipes out the pending mark that an order of another
      source has left: the task fires, and still the listener never hears of the order. */
  lemma WipedMarkLosesUpdate(o: PricedOrder, limit: Size, period: int)
    requires o.ShallAdd() && o.side == Buy && o.source == 1 && period != 0
    ensures var run := Run(Initial(limit, period),
                           [Received(1, [o], false)] + ([Received(2, [], true)] + RemainingSteps(0, Created)));
            && run.Some? && !UpToDate(run.value) && !run.value.taskScheduled
            && run.value.timers == [TimerState(Fired, true)]
  {
    var m := Initial(limit, period);
    FirstOrderArrives(m, o, limit, period);
    var m1 := Take(m, Received(1, [o], false)).value;
    OtherSourceClears(m1, o, 2, limit);
    var m2 := Take(m1, Received(2, [], true)).value;
    RunFirst(m, Received(1, [o], false), [Received(2, [], true)] + RemainingSteps(0, Created));
    RunFirst(m1, Received(2, [], true), RemainingSteps(0, Created));
    UnmarkedTaskFires(m2);
  }

  lemma OnlyTimerStartsAndWakes(m: Model)
    requires m.timers == [TimerState(Created, false)]
    ensures var sleeping, committed := [TimerState(Sleeping, true)], [TimerState(Committed, true)];
            && Take(m, TimerStarts(0)) == Some(m.(timers := sleeping))
            && Take(m.(timers := sleeping), TimerWakes(0)) == Some(m.(timers := committed))
  {
    assert m.timers[0 := TimerState(Sleeping, true)] == [TimerState(Sleeping, true)];
    assert [TimerState(Sleeping, true)][0 := TimerState(Committed, true)] == [TimerState(Committed, true)];
  }

  lemma OnlyTimerCalls(m: Model)
    requires m.timers == [TimerState(Committed, true)] && !m.book.IsChanged()
    ensures Take(m, TimerCalls(0)) ==
            Some(m.(taskScheduled := false, timers := [TimerState(Fired, true)],
                    heardBuys := m.book.buys.snapshot, heardSells := m.book.sells.snapshot))
  {
    assert m.timers[0 := TimerState(Fired, true)] == [TimerState(Fired, true)];
  }

  /** A task that fires on unmarked sets repeats the cached snapshots. */
  lemma UnmarkedTaskFires(m: Model)
    requires m.timers == [TimerState(Created, false)] && !m.book.IsChanged()
    ensures Run(m, RemainingSteps(0, Created)) ==
            Some(m.(taskScheduled := false, timers := [TimerState(Fired, true)],
                    heardBuys := m.book.buys.snapshot, heardSells := m.book.sells.snapshot))
  {
    var m1, m2 := m.(timers := [TimerState(Sleeping, true)]), m.(timers := [TimerState(Committed, true)]);
    OnlyTimerStartsAndWakes(m);
    OnlyTimerCalls(m2);
    RunThree(m, m1, m2, TimerStarts(0), TimerWakes(0), TimerCalls(0));
  }

  lemma RunThree(m: Model, m1: Model, m2: Model, first: Step, second: Step, third: Step)
    requires Take(m, first) == Some(m1) && Take(m1, second) == Some(m2)
    ensures Run(m, [first] + ([second] + ([third] + []))) == Take(m2, third)
  {
    RunFirst(m, first, [second] + ([third] + []));
    RunFirst(m1, second, [third] + []);
    RunFirst(m2, third, []);
  }
}
