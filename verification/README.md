# dxFeed Graal C++ API: verification model

This project models the parts of the library that have state or arithmetic of their own, and proves what they keep over
all inputs and whole runs. `dafny verify dfyconfig.toml` checks it.

- **The market depth model.** `Orders` holds orders and comparators, `SortedLists` and `SortedOrderSets` a side of the
  book with its cached snapshot, `Books` the book against a plain map, `DepthProtocol` the notification protocol as a
  state machine over lock sections and timer threads, `Deliveries` what of it reaches the listener, `DepthModels` the
  model and its timers as objects, method by method against the state machine, and `RepairedModels` the same machine
  with the clear that the code evidently means.
- **Calendar and integers.** `Integers`, `Calendar`, `Shifts`, and over machine words (`Words`) `BitFields` and
  `Hashing`.
- **The ring of futures.** `FutureRings`: back-pressure in the listener handler.
- **Native lists.** `NativeLists`: allocation, partial failure and ownership.
- **Statistics.** `Metrics` and `StopWatches`.

The main results: a run of the depth model, in any interleaving of batches, settings and timer threads, loses no update
if and only if none of its steps is of two named kinds (`RunLosesNoUpdateIff`), where an update is lost if no timer will
bring it to the listener (`DeliverableIff`); an undelivered update has a scheduled task in every state if and only if a
slightly larger family of steps is absent (`RunIsSoundIff`); what a wiped mark loses stays lost until a later batch or
depth limit (`BatchIsStaleIff`, `StaleSideStaysLost`); the listener holds the top of a plain fold over the batches
(`ListenerHearsTheFold`); a run steps past the end of a set exactly at an odd block (`RunIsDefinedIff`); the calendar
round trips on all days and dates with the exact 32-bit bound (`DayIdRoundTrip`, `DateRoundTrip`, `RoundTripFitsIff`);
the hash mixers are permutations (`Mix64IsPermutation`); native lists conserve ownership (`ToGraalList`, `RoundTrip`).

## Where the code falls short

The model does what the code does. Where that is less than the code's evident purpose, each point below names the
exact condition under which the purpose is met, proved for all inputs.

- `MarketDepthModel.hpp:525-529` advances its iterator once more after an erase. Of every block of adjacent orders of
  the source the second, the fourth and so on stay (`BlocksLoseEveryOther`); it removes exactly the source's orders if
  and only if each of them is followed by an order of another source (`ClearSkippingIsExact`, `ClearIsConsistentIff`,
  `RunIsConsistentIff`). It steps past the end, which is undefined, if and only if the block of the source at the very
  end of a side has odd length (`ClearSkippingIsDefinedIff`, `UpdateIsDefinedIff`, `RunIsDefinedIff`), as with a single
  order (`OwnSnapshotStepsPastTheEnd`).
- `MarketDepthModel.hpp:531` overwrites a pending changed mark (`ClearKeepsMarkIff`). A snapshot leaves a side behind,
  unheard, if and only if no order of its source is there, the cached snapshot does not show the top already, and no
  event of the batch takes out or puts in an order that can be seen on that side (`BatchAgreesIff`, `ReceiveIsSoundIff`,
  `BatchIsStaleIff`); `WipedMarkLosesUpdate` is a concrete run.
- `MarketDepthModel.hpp:614-620` cancels a pending task without a notification when the period is set to 0. An
  undelivered update is left without a scheduled task if and only if there is one to cancel
  (`ZeroPeriodUncoversUpdateIff`). It is lost if and only if moreover the timer of that task still sleeps and no other
  timer will fire (`ZeroPeriodLosesUpdateIff`); a timer that has already looked at its flag still delivers
  (`CommittedTaskStillDelivers`). The next batch that is no snapshot delivers what was lost so (`NextBatchDelivers`).
- `RepairedModels` has the same model with the evident clear: then the book follows the plain fold over every run, and
  such a period of 0 is the only step that loses an update (`RepairedRunFollowsFold`, `RepairedRunLosesNoUpdateIff`);
  `ClearIsSweepIff` says when the clear of the code is that clear.
- `MarketDepthModel.hpp:356-382`: the price tests are an order if and only if prices are numbers
  (`OnlyNumbersAreRanked`). Orders that enter the book are therefore taken to have such prices; sizes may be NaN.
- `Common.hpp:820-824`: `pack` shifts and joins at the width of its first argument; `UnpackOfPackIff` says when the pair
  can be unpacked again.
- `Metrics.hpp:51-53` casts the average of integers back to an integer at every update. It always stays between the
  extremes (`IntStatistics`), and is the mean throughout if and only if every sum on the way is divisible by its number
  of summands (`IntAverageIsMeanIff`); `OnesDoNotCount` is a failing family. Updates of another kind than the name's
  are ignored (`KindIsKept`, `RunFromInt`, `RunFromReal`).

## Model

| member | source | states |
|---|---|---|
| Orders.TextOrderIsTotal | include/dxfeed_graal_cpp_api/model/MarketDepthModel.hpp:338-349 | the two market maker tests form a total order: exactly one of before, after and equal |
| Orders.TextOrderIsTransitive | include/dxfeed_graal_cpp_api/model/MarketDepthModel.hpp:338-349 | the market maker tests are transitive |
| Orders.TextIsLexicographic | include/dxfeed_graal_cpp_api/model/MarketDepthModel.hpp:341-347 | one market maker is below another if and only if it has the smaller character at the first difference or is a proper prefix |
| Orders.SetsAreInPriority | include/dxfeed_graal_cpp_api/model/MarketDepthModel.hpp:284-394 | the buy set is in the order: highest price, then non-individual before individual orders, then larger size (NaN last), earlier time sequence, scope code, exchange, market maker, index; the sell set the same from the lowest price; individual orders by time sequence and index |
| Orders.BetterPriceFirst | include/dxfeed_graal_cpp_api/model/MarketDepthModel.hpp:356-382 | the higher of two prices, finite or infinite, is first among the buys and last among the sells |
| Orders.LargerSizeFirst | include/dxfeed_graal_cpp_api/model/MarketDepthModel.hpp:316-321 | at one price, of orders of which none is individual, the larger size is first and NaN is last |
| Orders.EarlierAttributesFirst | include/dxfeed_graal_cpp_api/model/MarketDepthModel.hpp:322-352 | at one price and size they go by earlier time sequence, then composite, regional, aggregate, then exchange code, market maker and index |
| Orders.IndividualOrdersLast | include/dxfeed_graal_cpp_api/model/MarketDepthModel.hpp:285-313 | at one price individual orders come after all others, and among themselves by time sequence and index |
| Orders.AggregatesAreOrdered | include/dxfeed_graal_cpp_api/model/MarketDepthModel.hpp:316-352 | for orders of which none is individual the comparator is antisymmetric and transitive, NaN sizes included |
| Orders.OrdersAreOrdered | include/dxfeed_graal_cpp_api/model/MarketDepthModel.hpp:284-354 | across any mix of individual and other orders the tie-breaking comparator is antisymmetric and transitive, and 0 only for orders of one index |
| Orders.BuysAreOrdered | include/dxfeed_graal_cpp_api/model/MarketDepthModel.hpp:356-368 | the buy comparator is antisymmetric, transitive, and 0 only for orders of one index, when prices are numbers |
| Orders.SellsAreOrdered | include/dxfeed_graal_cpp_api/model/MarketDepthModel.hpp:370-382 | the same for the sell comparator |
| Orders.OnlyNumbersAreRanked | include/dxfeed_graal_cpp_api/model/MarketDepthModel.hpp:356-382 | an order has a consistent place among all others under either comparator if and only if its price is not NaN |
| SortedLists.ListingIsUnique | include/dxfeed_graal_cpp_api/model/MarketDepthModel.hpp:405 | the iteration order of a comparator-ordered set is determined by its elements |
| SortedLists.HoldsTheEquivalent | include/dxfeed_graal_cpp_api/model/MarketDepthModel.hpp:503-513 | a set finds an element by any key that the comparator cannot tell from it |
| SortedLists.InsertedContents | include/dxfeed_graal_cpp_api/model/MarketDepthModel.hpp:485-495 | insert keeps the order and adds exactly the new element, unless an equivalent one is there |
| SortedLists.ErasedContents | include/dxfeed_graal_cpp_api/model/MarketDepthModel.hpp:503-513 | erase keeps the order and removes exactly the one equivalent element |
| SortedLists.TopIsPrefix | include/dxfeed_graal_cpp_api/model/MarketDepthModel.hpp:430-443 | what is visible is the beginning of the set: all of it for limit 0 and the maximum of the size type (as far as that type counts), otherwise as many orders as the limit allows |
| SortedLists.InsertBelowTop | include/dxfeed_graal_cpp_api/model/MarketDepthModel.hpp:414-428 | after an insert behind the last element shown, in a set larger than the limit, the list shown is the visible part if and only if it was before |
| SortedLists.EraseBelowTop | include/dxfeed_graal_cpp_api/model/MarketDepthModel.hpp:414-428 | the same for an erase |
| SortedLists.ClearSkippingIsExact | include/dxfeed_graal_cpp_api/model/MarketDepthModel.hpp:525-529 | the clearing loop, which also advances after an erase, removes exactly the orders of the source and never steps past the end if and only if each of them is followed by an order of another source |
| SortedLists.ClearSkippingIsDefinedIff | include/dxfeed_graal_cpp_api/model/MarketDepthModel.hpp:525-529 | the loop never steps past the end if and only if the block of orders of the source at the very end of the set has even length |
| SortedLists.ClearSkippingLeavesSurvivors | include/dxfeed_graal_cpp_api/model/MarketDepthModel.hpp:525-529 | the loop leaves, in order, exactly the elements at the surviving positions: those that do not match, and those at odd offsets in their block of matches |
| SortedLists.BlocksLoseEveryOther | include/dxfeed_graal_cpp_api/model/MarketDepthModel.hpp:525-529 | of every block of adjacent orders of the source the first, the third and so on go, the second, the fourth and so on stay; all other orders stay |
| SortedLists.ClearSkippingContents | include/dxfeed_graal_cpp_api/model/MarketDepthModel.hpp:520-532 | whatever the loop skips, it removes only orders of the source, and the set shrinks if and only if it had one |
| SortedLists.ClearSkippingIsSorted | include/dxfeed_graal_cpp_api/model/MarketDepthModel.hpp:525-529 | whatever the loop skips, the set stays in order |
| SortedOrderSets.MarkIsSetIff | include/dxfeed_graal_cpp_api/model/MarketDepthModel.hpp:408-455 | the mark is set exactly for an order that is not behind the last cached one, in a set not larger than its limit, or without a limit; nothing else changes |
| SortedOrderSets.InsertAgreesIff | include/dxfeed_graal_cpp_api/model/MarketDepthModel.hpp:445-495 | after an insert the cache agrees with the top of the set if and only if it did before or the insert can be seen, which sets the mark; from any state, stale ones included |
| SortedOrderSets.EraseAgreesIff | include/dxfeed_graal_cpp_api/model/MarketDepthModel.hpp:445-513 | the same for an erase |
| SortedOrderSets.ClearKeepsMarkIff | include/dxfeed_graal_cpp_api/model/MarketDepthModel.hpp:520-532 | clearing preserves a pending changed mark if and only if the set has an order of the source |
| SortedOrderSets.ClearAgreesIff | include/dxfeed_graal_cpp_api/model/MarketDepthModel.hpp:520-542 | after a clear the cache agrees if and only if the set has an order of the source or the snapshot shows the top already; from any state |
| SortedOrderSets.SortedOrderSet.constructor | include/dxfeed_graal_cpp_api/model/MarketDepthModel.hpp:400-406 | an empty set with no limit and no mark |
| SortedOrderSets.SortedOrderSet.IsDepthLimitUnbounded | include/dxfeed_graal_cpp_api/model/MarketDepthModel.hpp:408-412 | exactly limit 0 and the maximum of the size type mean no limit |
| SortedOrderSets.SortedOrderSet.UpdateSnapshot | include/dxfeed_graal_cpp_api/model/MarketDepthModel.hpp:430-443 | the copying loop leaves a prefix of the orders in the snapshot, all of them without a limit, otherwise as many as the limit allows, and takes the mark away |
| SortedOrderSets.SortedOrderSet.MarkAsChangedIfNeeded | include/dxfeed_graal_cpp_api/model/MarketDepthModel.hpp:445-455 | sets the mark for a visible order and in an unlimited or underfull set, and changes nothing else |
| SortedOrderSets.SortedOrderSet.SetDepthLimit | include/dxfeed_graal_cpp_api/model/MarketDepthModel.hpp:468-477 | a new limit marks the set, the same limit changes nothing |
| SortedOrderSets.SortedOrderSet.Insert | include/dxfeed_graal_cpp_api/model/MarketDepthModel.hpp:485-495 | the whole new state, and whether the order was added |
| SortedOrderSets.SortedOrderSet.Erase | include/dxfeed_graal_cpp_api/model/MarketDepthModel.hpp:503-513 | the whole new state, and whether the order was removed |
| SortedOrderSets.SortedOrderSet.ClearBySource | include/dxfeed_graal_cpp_api/model/MarketDepthModel.hpp:520-532 | the iterator loop steps past the end exactly for an odd block of the source at the end of the set, and otherwise leaves what the skipping specification says |
| SortedOrderSets.SortedOrderSet.ToVector | include/dxfeed_graal_cpp_api/model/MarketDepthModel.hpp:534-542 | the reader gets the true top of the set, a prefix whose length is given by the limit, if and only if the cache agreed before |
| Books.BuyLessRanks | include/dxfeed_graal_cpp_api/model/MarketDepthModel.hpp:384-388 | the buy order is a strict weak order whose ties share the index |
| Books.SellLessRanks | include/dxfeed_graal_cpp_api/model/MarketDepthModel.hpp:390-394 | the sell order is a strict weak order whose ties share the index |
| Books.EraseLists | include/dxfeed_graal_cpp_api/model/MarketDepthModel.hpp:644-654 | erasing the order that rests under an index finds it and takes it, and no other, from its side |
| Books.InsertLists | include/dxfeed_graal_cpp_api/model/MarketDepthModel.hpp:656-664 | an order under a fresh index is never dropped by its set |
| Books.OtherSideKeepsListing | include/dxfeed_graal_cpp_api/model/MarketDepthModel.hpp:649-663 | the other side is not touched |
| Books.ClearLists | include/dxfeed_graal_cpp_api/model/MarketDepthModel.hpp:682-700 | a cleared side lists what is left of the index map if and only if the loop is exact on it |
| Books.UpdateIsDefinedIff | include/dxfeed_graal_cpp_api/model/MarketDepthModel.hpp:636-641 | an update never steps past the end if and only if it is no snapshot, or both sides end in an even number of orders of its source |
| Books.ClearIsConsistentIff | include/dxfeed_graal_cpp_api/model/MarketDepthModel.hpp:682-700 | clearing by source keeps both sides in agreement with the index map, with no undefined step, if and only if on both sides each order of the source is followed by one of another |
| Books.RemovalKeepsConsistency | include/dxfeed_graal_cpp_api/model/MarketDepthModel.hpp:644-654 | the removing half of an event keeps sides and index map in agreement |
| Books.AdditionKeepsConsistency | include/dxfeed_graal_cpp_api/model/MarketDepthModel.hpp:656-665 | the adding half of an event keeps sides and index map in agreement |
| Books.EventKeepsConsistency | include/dxfeed_graal_cpp_api/model/MarketDepthModel.hpp:643-665 | one event replaces or removes by index, in the map and in the right set |
| Books.EventDecidesItsIndex | include/dxfeed_graal_cpp_api/model/MarketDepthModel.hpp:574-576 | after an event with the removal flag, or with size 0 or NaN, nothing rests under its index, in the map or on either side; after any other event exactly that event rests there, on the side it names |
| Books.EventSparesOtherIndices | include/dxfeed_graal_cpp_api/model/MarketDepthModel.hpp:643-665 | an event changes nothing under any other index, in the map or on either side |
| Books.ClearTakesTheSource | include/dxfeed_graal_cpp_api/model/MarketDepthModel.hpp:682-700 | a clear that works takes exactly the orders of its source from the map and from both sides |
| Books.LastEventDecides | include/dxfeed_graal_cpp_api/model/MarketDepthModel.hpp:636-668 | of the events of a batch that share an index the last one decides what rests there |
| Books.OtherIndicesStay | include/dxfeed_graal_cpp_api/model/MarketDepthModel.hpp:636-668 | an index that no event of the batch has keeps its order, unless a snapshot of its source clears it |
| Books.StepIsConsistentIff | include/dxfeed_graal_cpp_api/model/MarketDepthModel.hpp:636-668 | an event or a clear keeps the book consistent and acts on it as on the plain map, if and only if it is not a clear that skips an order or steps past the end |
| Books.RunIsConsistentIff | include/dxfeed_graal_cpp_api/model/MarketDepthModel.hpp:636-700 | a run of operations is consistent in every state if and only if each clear in it meets that condition |
| Books.RunRefinesFold | include/dxfeed_graal_cpp_api/model/MarketDepthModel.hpp:636-700 | after any such run the sides are the unique ranked listings of the plain fold that drops a source on a snapshot and replaces or removes by index |
| Books.SidesPartitionTheBook | include/dxfeed_graal_cpp_api/model/MarketDepthModel.hpp:545-549 | the sides are disjoint, their union is exactly the values of the index map, and their sizes add up to its size |
| DepthProtocol.EventAgreesIff | include/dxfeed_graal_cpp_api/model/MarketDepthModel.hpp:643-665 | after an event the cache of a side agrees if and only if it did before or the event takes out or puts in an order that can be seen on that side |
| DepthProtocol.ClearAgreesOnSideIff | include/dxfeed_graal_cpp_api/model/MarketDepthModel.hpp:682-700 | after a clear the cache of a side agrees if and only if an order of the source was there or the snapshot shows the top already |
| DepthProtocol.BatchAgreesIff | include/dxfeed_graal_cpp_api/model/MarketDepthModel.hpp:636-668 | after a whole batch, with or without a clear and from any state, the cache of a side agrees if and only if the batch settles it: its clear spares the side, or one of its events marks it |
| DepthProtocol.UpdateAgreesIff | include/dxfeed_graal_cpp_api/model/MarketDepthModel.hpp:636-668 | the same for both sides; an update touches neither snapshot nor limit |
| DepthProtocol.NotifyMakesSound | include/dxfeed_graal_cpp_api/model/MarketDepthModel.hpp:594-599 | a notification brings the listener up to date |
| DepthProtocol.AfterUpdateIsSoundIff | include/dxfeed_graal_cpp_api/model/MarketDepthModel.hpp:578-592 | what follows the update of the book restores the protocol if and only if the caches of the updated book agree |
| DepthProtocol.ReceiveIsSoundIff | include/dxfeed_graal_cpp_api/model/MarketDepthModel.hpp:578-592 | a delivered batch, with orders or without, keeps the protocol invariant if and only if it is no snapshot or settles both sides |
| DepthProtocol.SoundIff | include/dxfeed_graal_cpp_api/model/MarketDepthModel.hpp:578-634 | of the states that a run can reach the sound ones are those in which the listener is up to date, or a task is scheduled and will find the caches in agreement |
| DepthProtocol.StepIsSoundIff | include/dxfeed_graal_cpp_api/model/MarketDepthModel.hpp:578-634 | every lock section and every timer step keeps the state sound if and only if it is not a snapshot that leaves a side unsettled, nor a period of 0 that cancels a task with something undelivered |
| DepthProtocol.RunIsSoundIff | include/dxfeed_graal_cpp_api/model/MarketDepthModel.hpp:578-634 | a run, in any interleaving, is sound in every state if and only if none of its steps is of these two kinds where it is taken |
| DepthProtocol.RunCoversUpdates | include/dxfeed_graal_cpp_api/model/MarketDepthModel.hpp:578-634 | in every interleaving from the initial state without a step of these kinds, a difference between the top of the book and what the listener holds implies a scheduled task whose timer will still fire |
| DepthProtocol.StepIsDefinedIff | include/dxfeed_graal_cpp_api/model/MarketDepthModel.hpp:525-529 | a step stays inside the sets if and only if it is no snapshot or both sides end in an even number of orders of its source |
| DepthProtocol.RunIsDefinedIff | include/dxfeed_graal_cpp_api/model/MarketDepthModel.hpp:525-529 | the same for a whole run, at each of its snapshots |
| DepthProtocol.RunIsWired | include/dxfeed_graal_cpp_api/model/MarketDepthModel.hpp:578-634 | in every run, whatever its steps, the listener holds the cached snapshots and a scheduled task has a timer that will fire |
| DepthProtocol.FiringTimerDelivers | include/dxfeed_graal_cpp_api/internal/Timer.hpp:51-68 | when any timer that will fire takes its remaining steps, and the caches agree, the listener is up to date |
| DepthProtocol.PendingTaskDelivers | include/dxfeed_graal_cpp_api/internal/Timer.hpp:51-68 | when the timer of a scheduled task takes its remaining steps the listener is up to date |
| DepthProtocol.UpdateRefinesFold | include/dxfeed_graal_cpp_api/model/MarketDepthModel.hpp:636-668 | an update refines the plain fold over its operations |
| DepthProtocol.StepRefinesFold | include/dxfeed_graal_cpp_api/model/MarketDepthModel.hpp:578-668 | every step but a snapshot whose clear does not work keeps the book consistent and acts as the plain fold does |
| DepthProtocol.RunFollowsFold | include/dxfeed_graal_cpp_api/model/MarketDepthModel.hpp:578-700 | over any run whose clears work the book is consistent and its index map is the plain fold, updates lost or not |
| DepthProtocol.ZeroPeriodUncoversUpdateIff | include/dxfeed_graal_cpp_api/model/MarketDepthModel.hpp:614-620 | setting the period to 0 leaves an update without a scheduled task if and only if it cancels one while something is undelivered |
| DepthProtocol.BatchDeliversAtOnceIff | include/dxfeed_graal_cpp_api/model/MarketDepthModel.hpp:586-588 | without a period, or for a snapshot, the listener is up to date right after the batch if and only if the batch settles both sides, whatever was lost before and by which of the two kinds |
| DepthProtocol.NextBatchDelivers | include/dxfeed_graal_cpp_api/model/MarketDepthModel.hpp:586-588 | an update lost by a period of 0 is delivered by any next batch that is no snapshot |
| DepthProtocol.BatchWaitsForTask | include/dxfeed_graal_cpp_api/model/MarketDepthModel.hpp:586-612 | otherwise the listener hears nothing yet, and one timer is started exactly if something changed and none was scheduled |
| DepthProtocol.DepthLimitDeliversAtOnce | include/dxfeed_graal_cpp_api/model/MarketDepthModel.hpp:739-751 | a new depth limit reaches the listener at once, and no order changes |
| DepthProtocol.NewModelIsEmpty | include/dxfeed_graal_cpp_api/model/MarketDepthModel.hpp:703-710 | a new model is empty, sound, and has the settings that it was built with, in both sets as well |
| DepthProtocol.NotificationPassesTheBeginning | include/dxfeed_graal_cpp_api/model/MarketDepthModel.hpp:594-599 | when the caches agree a notification passes the beginning of each side, whose length is given by the limit, and takes the scheduled mark and the changed marks away; it changes no order, setting or timer |
| DepthProtocol.CancelForgetsTheTask | include/dxfeed_graal_cpp_api/model/MarketDepthModel.hpp:622-634 | a task is cancelled exactly if one is scheduled and its timer is there with its flag up; then the flag goes down and task and timer are forgotten, and otherwise nothing happens |
| DepthProtocol.ImmediateBatchCancelsTask | include/dxfeed_graal_cpp_api/model/MarketDepthModel.hpp:586-588 | a snapshot, and any batch without a period, that changes a side cancels the pending task and starts no timer |
| DepthProtocol.UnseenBatchDoesNothing | include/dxfeed_graal_cpp_api/model/MarketDepthModel.hpp:582-584 | a batch that marks no side notifies nobody and touches no timer |
| DepthProtocol.PeriodIsInForce | include/dxfeed_graal_cpp_api/model/MarketDepthModel.hpp:767-776 | a new period is in force at once; a pending task gets a fresh timer if its timer has its flag up and the period is not 0, and is dropped if it is 0; book, limit and listener are not touched |
| DepthProtocol.BatchAfterPeriodWaits | include/dxfeed_graal_cpp_api/model/MarketDepthModel.hpp:578-592 | after setting a period that is not 0 a batch that is no snapshot waits for a task |
| DepthProtocol.BatchAfterZeroPeriodIsHeard | include/dxfeed_graal_cpp_api/model/MarketDepthModel.hpp:578-592 | after setting the period to 0 it reaches the listener at once |
| DepthProtocol.DepthLimitIsInForce | include/dxfeed_graal_cpp_api/model/MarketDepthModel.hpp:739-751 | a new depth limit is in force at once in model and sets, cancels the pending task and starts no timer; the same limit changes nothing |
| DepthProtocol.QuietTimerStaysQuiet | include/dxfeed_graal_cpp_api/internal/Timer.hpp:56-64 | a stopped sleeping timer ends without its call under every step |
| DepthProtocol.CancelledSleeperNeverCalls | include/dxfeed_graal_cpp_api/model/MarketDepthModel.hpp:622-634 | a task cancelled while its timer sleeps never calls, in any continuation |
| DepthProtocol.BatchIsStaleIff | include/dxfeed_graal_cpp_api/model/MarketDepthModel.hpp:520-532 | a batch leaves a side that differs from its snapshot with no mark to refresh it, if and only if it does not settle both sides |
| DepthProtocol.StaleSideStaysLost | include/dxfeed_graal_cpp_api/model/MarketDepthModel.hpp:531 | such a side never reaches the listener through timers or period changes, however many |
| DepthProtocol.WipedMarkLosesUpdate | include/dxfeed_graal_cpp_api/model/MarketDepthModel.hpp:531 | a concrete run from the initial state: a snapshot of one source wipes the mark of another, the task fires and the listener has not heard of the order |
| DepthProtocol.OwnSnapshotStepsPastTheEnd | include/dxfeed_graal_cpp_api/model/MarketDepthModel.hpp:525-529 | a concrete run from the initial state: a snapshot of the source of the only order steps past the end |
| Deliveries.DeliverableIff | include/dxfeed_graal_cpp_api/model/MarketDepthModel.hpp:578-634 | a reachable state is deliverable (caches agree, and the listener is up to date or some timer, scheduled or in flight, will fire) if and only if the timers alone can bring the listener up to date |
| Deliveries.ZeroPeriodLosesUpdateIff | include/dxfeed_graal_cpp_api/model/MarketDepthModel.hpp:614-634 | setting the period to 0 loses an update if and only if something is undelivered, the timer of the cancelled task still sleeps, and no other timer will fire |
| Deliveries.CommittedTaskStillDelivers | include/dxfeed_graal_cpp_api/internal/Timer.hpp:60-63 | a task cancelled after its timer has looked at the flag still delivers |
| Deliveries.KeepingTaskIsHarmless | include/dxfeed_graal_cpp_api/model/MarketDepthModel.hpp:578-634 | a step that leaves no update without a scheduled task loses none |
| Deliveries.ReceiveIsDeliverableIff | include/dxfeed_graal_cpp_api/model/MarketDepthModel.hpp:578-592 | a delivered batch loses an update if and only if it is a snapshot that leaves a side unsettled |
| Deliveries.StepIsDeliverableIff | include/dxfeed_graal_cpp_api/model/MarketDepthModel.hpp:578-634 | every lock section and every timer step keeps a state deliverable if and only if it is neither of the two |
| Deliveries.RunLosesNoUpdateIff | include/dxfeed_graal_cpp_api/model/MarketDepthModel.hpp:578-634 | a run, in any interleaving, loses no update in any of its states if and only if none of its steps is one of the two where it is taken |
| Deliveries.ListenerHearsTheFold | include/dxfeed_graal_cpp_api/model/MarketDepthModel.hpp:594-599 | over runs that lose no update and whose clears work, every notification passes the top of the ranked listings of the plain fold, and the listener holds it unless a timer will still fire; if no task with something to deliver was cancelled either, it holds it whenever no task is scheduled |
| RepairedModels.ClearIsSweepIff | include/dxfeed_graal_cpp_api/model/MarketDepthModel.hpp:520-532 | the clear of the code is the repaired one (every order of the source goes, a pending mark stays) if and only if each order of the source is followed by one of another source and no pending mark is wiped |
| RepairedModels.RepairedStepIsSoundIff | include/dxfeed_graal_cpp_api/model/MarketDepthModel.hpp:578-634 | with the repaired clear every step keeps the state sound, but for a period of 0 that cancels a task with something undelivered |
| RepairedModels.RepairedStepIsDeliverableIff | include/dxfeed_graal_cpp_api/model/MarketDepthModel.hpp:578-634 | with the repaired clear every step keeps a state deliverable, but for a period of 0 that loses an update |
| RepairedModels.RepairedRunFollowsFold | include/dxfeed_graal_cpp_api/model/MarketDepthModel.hpp:578-700 | with the repaired clear the book follows the plain fold over every run |
| RepairedModels.RepairedRunLosesNoUpdateIff | include/dxfeed_graal_cpp_api/model/MarketDepthModel.hpp:578-634 | with the repaired clear a run loses no update in any of its states if and only if no period of 0 in it loses one |
| RepairedModels.RepairedRunIsSoundIff | include/dxfeed_graal_cpp_api/model/MarketDepthModel.hpp:578-634 | with the repaired clear a run is sound in every state if and only if no period of 0 in it cancels a task with something undelivered |
| RepairedModels.RepairedListenerHearsTheFold | include/dxfeed_graal_cpp_api/model/MarketDepthModel.hpp:594-599 | with the repaired clear, over every run in which no period of 0 loses an update, every notification passes the top of the plain fold and the listener holds it unless a timer will still fire; if none cancels a task with something undelivered either, updates always have a scheduled task |
| DepthModels.Timer.constructor | src/internal/Timer.cpp:8-9 | a timer that has not begun, flag down |
| DepthModels.Timer.Start | include/dxfeed_graal_cpp_api/internal/Timer.hpp:57-58 | the thread raises the flag and sleeps |
| DepthModels.Timer.Wake | include/dxfeed_graal_cpp_api/internal/Timer.hpp:58-60 | after the sleep the flag is read once and decides on the call |
| DepthModels.Timer.Finish | include/dxfeed_graal_cpp_api/internal/Timer.hpp:61-63 | after the call the flag goes down |
| DepthModels.Timer.Stop | src/internal/Timer.cpp:23-25 | the flag goes down, the thread stands where it stood |
| DepthModels.MarketDepthModel.constructor | include/dxfeed_graal_cpp_api/model/MarketDepthModel.hpp:703-710 | an empty book with both sets at the limit of the model |
| DepthModels.MarketDepthModel.NotifyListeners | include/dxfeed_graal_cpp_api/model/MarketDepthModel.hpp:594-599 | the listener gets both tops and the scheduled mark goes |
| DepthModels.MarketDepthModel.TryCancelTask | include/dxfeed_graal_cpp_api/model/MarketDepthModel.hpp:622-634 | cancels if and only if a task is scheduled and its timer has its flag up |
| DepthModels.MarketDepthModel.ScheduleTaskIfNeeded | include/dxfeed_graal_cpp_api/model/MarketDepthModel.hpp:601-612 | starts a fresh timer unless a task is scheduled |
| DepthModels.MarketDepthModel.RescheduleTaskIfNeeded | include/dxfeed_graal_cpp_api/model/MarketDepthModel.hpp:614-620 | starts a new timer only for a task that it cancelled and a delay that is not 0 |
| DepthModels.MarketDepthModel.ClearBySource | include/dxfeed_graal_cpp_api/model/MarketDepthModel.hpp:682-700 | the index map loses the source, each set what its loop reaches |
| DepthModels.MarketDepthModel.TakeEvent | include/dxfeed_graal_cpp_api/model/MarketDepthModel.hpp:643-665 | the body of the update loop against the book specification |
| DepthModels.MarketDepthModel.Update | include/dxfeed_graal_cpp_api/model/MarketDepthModel.hpp:636-668 | the update loop is the fold of its operations, and reports whether a side is marked |
| DepthModels.MarketDepthModel.EventsReceived | include/dxfeed_graal_cpp_api/model/MarketDepthModel.hpp:578-592 | the lock section against the state machine |
| DepthModels.MarketDepthModel.SetDepthLimit | include/dxfeed_graal_cpp_api/model/MarketDepthModel.hpp:739-751 | the lock section against the state machine; the new limit is stored, in both sets as well |
| DepthModels.MarketDepthModel.SetAggregationPeriod | include/dxfeed_graal_cpp_api/model/MarketDepthModel.hpp:767-776 | the lock section against the state machine; the new period is stored |
| DepthModels.MarketDepthModel.CallTask | include/dxfeed_graal_cpp_api/model/MarketDepthModel.hpp:606-610 | the call that a timer makes against the state machine |
| Integers.DivIsEuclidean | include/dxfeed_graal_cpp_api/internal/Common.hpp:411-421 | the number-theoretic quotient for every combination of signs |
| Integers.FloorPair | include/dxfeed_graal_cpp_api/internal/Common.hpp:279-292 | quotient and remainder rebuild the dividend, and the remainder has the sign of the divisor |
| Integers.FloorDivByPositive | include/dxfeed_graal_cpp_api/internal/Common.hpp:279-292 | for a positive divisor the floor pair is the Euclidean pair |
| Integers.NanosSplitAndJoin | include/dxfeed_graal_cpp_api/internal/Common.hpp:325-355 | splitting a timestamp and joining its parts are inverse in both directions, with a nano part in 0..999999 |
| Integers.SecondsAreClampedFloor | include/dxfeed_graal_cpp_api/internal/Common.hpp:390-398 | the floor of the time in seconds, clamped to 32 bits on both ends |
| Calendar.EncoderIsDayCount | src/internal/Common.cpp:11-24 | the formula counts days by leap years and month lengths, for every year, negative ones and 0 included |
| Calendar.EncoderCountsDays | src/internal/Common.cpp:11-24 | 1970-01-01 is day 0 and the successor of a date in the proleptic Gregorian calendar has the next day number |
| Calendar.EncoderIsMonotone | src/internal/Common.cpp:11-24 | later dates have greater day numbers |
| Calendar.EncoderRefusesMonthsIff | src/internal/Common.cpp:12-14 | exactly the months outside 1..12 are refused |
| Calendar.DecodedIsDate | include/dxfeed_graal_cpp_api/internal/Common.hpp:444-466 | every decoded day has a month in 1..12 and a day that its month has, under the 4/100/400 rule |
| Calendar.DecodedDateEncodes | include/dxfeed_graal_cpp_api/internal/Common.hpp:444-466 | the encoder takes the decoded year, month and day back to the day |
| Calendar.SplitOfPacked | include/dxfeed_graal_cpp_api/internal/Common.hpp:463-465 | a packed date splits into its signed year, month and day |
| Calendar.DayIdRoundTrip | include/dxfeed_graal_cpp_api/internal/Common.hpp:444-466 | decode, split, encode is the identity on all day identifiers, and the packed form is the sign of the year times (year times 10000 plus month times 100 plus day) |
| Calendar.DateRoundTrip | src/internal/Common.cpp:11-24 | encode, decode gives the sign of the year times (year times 10000 plus month times 100 plus day), for all dates |
| Calendar.DecoderFitsIff | include/dxfeed_graal_cpp_api/internal/Common.hpp:444-466 | no 32-bit operation of the decoder overflows if and only if the year found is at most 214748 in absolute value |
| Calendar.RoundTripFitsIff | src/internal/Common.cpp:11-24 | no 32-bit operation on the way there and back overflows if and only if the year is at most 214748 in absolute value |
| Words.WordIsNumber | include/dxfeed_graal_cpp_api/internal/Common.hpp:783-810 | words of a width are numbers below its power of two |
| Words.NumberIsWord | include/dxfeed_graal_cpp_api/internal/Common.hpp:783-810 | and every such number is one word |
| Words.ShiftRightDivides | include/dxfeed_graal_cpp_api/internal/Common.hpp:787-791 | a right shift of a word divides its number by the power of two |
| Words.ShiftLeftMultiplies | include/dxfeed_graal_cpp_api/internal/Common.hpp:758-767 | a left shift multiplies its number by the power of two, modulo the size |
| BitFields.ReadsBackIff | include/dxfeed_graal_cpp_api/internal/Common.hpp:754-779 | a field reads back every value written to it, cut down to its mask, if and only if the shifted mask fits into the word |
| BitFields.WrittenBit | include/dxfeed_graal_cpp_api/internal/Common.hpp:758-767 | a write takes the bits inside the field and leaves the bits outside, bit by bit |
| BitFields.WriteBackIsIdentity | include/dxfeed_graal_cpp_api/internal/Common.hpp:754-767 | writing back what was read changes nothing |
| BitFields.DisjointWritesCommute | include/dxfeed_graal_cpp_api/internal/Common.hpp:754-767 | writes to disjoint fields commute and do not disturb each other |
| BitFields.UnpackOfPackIff | include/dxfeed_graal_cpp_api/internal/Common.hpp:820-830 | unpacking undoes packing if and only if the first value survives the half-word shift in its own type and the second fits half a word and that type |
| BitFields.HalvesOfPacked | include/dxfeed_graal_cpp_api/internal/Common.hpp:820-824 | of two half-words packed at full width the first is the upper half, the second the lower |
| BitFields.PackOfUnpack | include/dxfeed_graal_cpp_api/internal/Common.hpp:820-830 | packing the two halves of a word gives the word |
| Hashing.FoldIsReversible | include/dxfeed_graal_cpp_api/internal/Common.hpp:787-793 | an xor with a right shift by a third of the width or more has an inverse |
| Hashing.TimesIsProduct | include/dxfeed_graal_cpp_api/internal/Common.hpp:788-790 | multiplication is that of the numbers modulo the word size |
| Hashing.TimesIsReversible | include/dxfeed_graal_cpp_api/internal/Common.hpp:788-790 | multiplication modulo the word size is undone by the inverse factor |
| Hashing.MixIsReversible | include/dxfeed_graal_cpp_api/internal/Common.hpp:781-810 | three folds and two multiplications have a two-sided inverse, at every width |
| Hashing.HashMix64 | include/dxfeed_graal_cpp_api/internal/Common.hpp:783-795 | the statements of the 64-bit mixer compute the composition |
| Hashing.HashMix32 | include/dxfeed_graal_cpp_api/internal/Common.hpp:797-810 | the statements of the 32-bit mixer compute the composition |
| Hashing.Mix64IsPermutation | include/dxfeed_graal_cpp_api/internal/Common.hpp:783-795 | the 64-bit mixer, with its constants, is a permutation |
| Hashing.Mix32IsPermutation | include/dxfeed_graal_cpp_api/internal/Common.hpp:797-810 | the 32-bit mixer, with its constants, is a permutation |
| Hashing.CombinationIsSum | include/dxfeed_graal_cpp_api/internal/Common.hpp:816-818 | undoing the mixer on a combination gives seed plus hash plus 0x9e3779b9 modulo 2^64 |
| Hashing.CombineCollidesIff | include/dxfeed_graal_cpp_api/internal/Common.hpp:816-818 | two combinations collide if and only if seed plus hash agree modulo 2^64 |
| Hashing.CombineKeepsApart | include/dxfeed_graal_cpp_api/internal/Common.hpp:816-818 | with a fixed hash no two seeds are merged, with a fixed seed no two hashes |
| Shifts.SarIsFloorDivision | include/dxfeed_graal_cpp_api/internal/Common.hpp:577-595 | floor division by the power of two, for distances beyond the width as well |
| Shifts.LeftShiftsMultiply | include/dxfeed_graal_cpp_api/internal/Common.hpp:524-542 | multiplication by the power of two modulo the width, arithmetic and logical alike |
| Shifts.ShrIsUnsignedDivision | include/dxfeed_graal_cpp_api/internal/Common.hpp:698-716 | division of the unsigned value by the power of two |
| Shifts.AnyShift | include/dxfeed_graal_cpp_api/internal/Common.hpp:524-734 | all four shifts by every distance of either sign; a negative distance is the opposite shift |
| Shifts.WrapIsTheCongruentValue | include/dxfeed_graal_cpp_api/internal/Common.hpp:524-716 | conversion to a type gives the value of the type congruent to the number modulo 2 to the width |
| Shifts.SarUndoesShlIff | include/dxfeed_graal_cpp_api/internal/Common.hpp:577-664 | shifting left and back gives the value if and only if it fits into the remaining bits |
| FutureRings.NextSlotIsOldest | include/dxfeed_graal_cpp_api/internal/Handler.hpp:133-135 | once the ring is full the slot of the next batch holds the oldest one |
| FutureRings.EveryLastBatchIsHeld | include/dxfeed_graal_cpp_api/internal/Handler.hpp:130-137 | each of the last batches is in the ring, at its number modulo the size |
| FutureRings.RingGoesOn | include/dxfeed_graal_cpp_api/internal/Handler.hpp:130-137 | putting the next batch in its slot keeps exactly the last batches in the ring |
| FutureRings.Handler.constructor | include/dxfeed_graal_cpp_api/internal/Handler.hpp:84-89 | an empty ring |
| FutureRings.Handler.Handle | include/dxfeed_graal_cpp_api/internal/Handler.hpp:122-139 | waits for the batch one buffer size earlier and for no other, without a buffer for the batch itself, and for none while the ring fills |
| FutureRings.Handler.OutstandingIsBounded | include/dxfeed_graal_cpp_api/internal/Handler.hpp:122-139 | at most as many batches as the buffer has places are unfinished between calls, and each of them is in the ring |
| NativeLists.NativeHeap.CalculateSize | src/event/EventMapper.cpp:225-238 | a size within the maximum is kept, a greater one becomes the maximum, a negative one 0 |
| NativeLists.NativeHeap.NewList | src/event/EventMapper.cpp:240-256 | a header alone for size 0, otherwise a header and an array of null pointers |
| NativeLists.NativeHeap.SetElement | src/event/EventMapper.cpp:258-271 | refuses null and indices outside the size type, otherwise writes one slot |
| NativeLists.NativeHeap.FreeElements | src/event/EventMapper.cpp:273-291 | frees the first elements, the array and the header, each once |
| NativeLists.NativeHeap.FreeList | src/event/EventMapper.cpp:199-223 | frees exactly the footprint of a list, each allocation once |
| NativeLists.NativeHeap.FromList | include/dxfeed_graal_cpp_api/internal/Common.hpp:246-267 | reads the elements back in order; a null list is empty |
| NativeLists.NativeHeap.AddItem | include/dxfeed_graal_cpp_api/event/EventMapper.hpp:47-56 | one turn of the loop: a converted item lands in its slot, a failed one leaves the list as it was; the index guard never refuses an index below the clamped size |
| NativeLists.NativeHeap.Fill | include/dxfeed_graal_cpp_api/event/EventMapper.hpp:44-57 | the loop stops at the first item that does not convert |
| NativeLists.NativeHeap.ToGraalList | include/dxfeed_graal_cpp_api/event/EventMapper.hpp:29-66 | all or nothing: if every item up to the maximum converts, a list of that many items that owns every allocation made, and otherwise null and the heap as it was |
| NativeLists.OneMoreItem | include/dxfeed_graal_cpp_api/event/EventMapper.hpp:47-57 | a fresh element in the next slot extends a half-built list |
| NativeLists.RefsAreNew | include/dxfeed_graal_cpp_api/event/EventMapper.hpp:59-63 | freeing a half-built list gives the heap back as it was |
| NativeLists.BuiltListIsComplete | include/dxfeed_graal_cpp_api/event/EventMapper.hpp:65 | a filled list owns exactly what is new in the heap |
| NativeLists.RoundTrip | include/dxfeed_graal_cpp_api/event/EventMapper.hpp:29-66 | build, read and free: all items come back in order, or the first ones up to the maximum if there are more, and the heap is as before; a list is built if and only if each of these items converts |
| Metrics.IntStatistics | include/dxfeed_graal_cpp_api/internal/Metrics.hpp:47-55 | over any history of integers: count, last value, true extremes, and a truncated average between them |
| Metrics.NextAverageIsTruncated | include/dxfeed_graal_cpp_api/internal/Metrics.hpp:51-53 | each integral update cuts the average off toward zero, by less than one part of the count |
| Metrics.RealStatistics | include/dxfeed_graal_cpp_api/internal/Metrics.hpp:47-55 | the same count, value and extremes over reals |
| Metrics.RealAverageIsMean | include/dxfeed_graal_cpp_api/internal/Metrics.hpp:47-55 | over reals the running average is exactly the mean |
| Metrics.OnesDoNotCount | include/dxfeed_graal_cpp_api/internal/Metrics.hpp:51-53 | truncation at every update: after a 0 any number of ones leaves the average at 0 |
| Metrics.IntAverageIsMeanIff | include/dxfeed_graal_cpp_api/internal/Metrics.hpp:51-53 | the truncated average is the mean after every update of a history if and only if every sum on the way is divisible by the number of its summands |
| Metrics.ValuesInOrder | include/dxfeed_graal_cpp_api/internal/Metrics.hpp:112-116 | the values that a name takes on: the last set value, or the sum of the deltas since, after each update |
| Metrics.RunFromInt | include/dxfeed_graal_cpp_api/internal/Metrics.hpp:59-116 | any mix of integral and real set, inc and add on a fresh name that begins with an integer leaves exactly the statistics of the values that the integral ones give it |
| Metrics.RunFromReal | src/internal/Metrics.cpp:12-22 | the same for a mix that begins with a real |
| Metrics.KindIsKept | src/internal/Metrics.cpp:12-22 | over any mix of updates a name keeps its kind, counts exactly the updates of its kind, and stays as it is if and only if there are none of them |
| Metrics.MetricsManager.SetText | src/internal/Metrics.cpp:8-10 | a text replaces whatever the name holds |
| Metrics.MetricsManager.SetInt | include/dxfeed_graal_cpp_api/internal/Metrics.hpp:59-69 | the whole new table |
| Metrics.MetricsManager.SetReal | src/internal/Metrics.cpp:12-22 | the whole new table |
| Metrics.MetricsManager.GetInt | src/internal/Metrics.cpp:24-47 | the value part: 0 for no name, the last value of an integer, a real cut off toward zero by less than one, the parsed text |
| Metrics.MetricsManager.GetReal | src/internal/Metrics.cpp:49-72 | the value part: 0 for no name, the last value of a real, the same number for an integer, the parsed text |
| Metrics.MetricsManager.Inc | src/internal/Metrics.cpp:122-126 | an increment is an integral update to the current value plus 1 |
| Metrics.MetricsManager.AddInt | include/dxfeed_graal_cpp_api/internal/Metrics.hpp:112-116 | an integral update to the current value plus the delta |
| Metrics.MetricsManager.AddReal | src/internal/Metrics.cpp:128-132 | a real update to the current value plus the delta |
| StopWatches.NanosAreTimeSpent | src/internal/StopWatch.cpp:12-83 | over any run of presses under a monotone clock the nanoseconds are the total time spent running since the last reset or restart |
| StopWatches.ElapsedIsTotalOfPeriods | src/internal/StopWatch.cpp:12-83 | the nanoseconds are the total of the running periods, the milliseconds the total of the whole milliseconds of each |
| StopWatches.MillisLagByPeriods | src/internal/StopWatch.cpp:12-68 | the milliseconds never exceed that time and lag by less than one per period counted |
| StopWatches.TwoShortPeriodsCountNothing | src/internal/StopWatch.cpp:20-31 | a concrete run: two periods just under a millisecond count 0 milliseconds |
| StopWatches.StopWatch.constructor | src/internal/StopWatch.cpp:8-10 | all zero |
| StopWatches.StopWatch.Start | src/internal/StopWatch.cpp:12-18 | starts a period unless one is running |
| StopWatches.StopWatch.Stop | src/internal/StopWatch.cpp:20-31 | adds the period to both sums, cut down to milliseconds in one of them |
| StopWatches.StopWatch.Reset | src/internal/StopWatch.cpp:33-40 | all zero |
| StopWatches.StopWatch.Restart | src/internal/StopWatch.cpp:42-49 | zero, and running from now |
| StopWatches.StopWatch.Elapsed | src/internal/StopWatch.cpp:55-68 | the sum and the running period in milliseconds |
| StopWatches.StopWatch.ElapsedInNanos | src/internal/StopWatch.cpp:70-83 | the sum and the running period in nanoseconds |

## Left out

- UnpackOfPackIff: unsigned arguments no wider than the word; sign extension of signed arguments is not modelled.
- ReadsBackIff: one unsigned type for flags, mask and bits, and writes that shift by less than its width, from where on
  the built-in shift is undefined; the conversions of mixed and signed types are not modelled.
- `SharedEntity.hpp:39-49`: the type test `is` never fails, because a `dynamic_cast` of a pointer does not throw. All
  orders here are of the type `Order`, for which the answer is right; other order types are not modelled.
- AnyShift: the distance is unbounded; negating the least value of a signed distance type is not modelled.
- RunFromInt: integers are unbounded and exact; 64-bit wrap-around and the passage through doubles are not modelled.
- RunFromReal: reals are exact; rounding, infinities and NaN are not modelled.
- Listener code that runs inside a notification, and lock re-entry from it: a notification records what it passes.
- Mutexes and atomics inside a lock section: each lock section is one atomic step, interleaved freely with timer steps.
- The sleeping clock: a sleeping timer may wake at any time, whatever delay it was given, so late and early firing are
  both covered, and the length of a delay is not modelled; the repeating
  `Timer::schedule` and the lifetime of its future are not modelled.
- `MarketDepthModel::close` and the destructor.
- `IndexedTxModel` and the transaction and snapshot protocol behind it: delivered batches are arbitrary.
- Order fields are unbounded integers and strings, which are only compared; negative and positive zero are one value.
- The tree inside `std::set` and the walk order of the hash maps: sets are sorted lists, indices to erase a set.
- The books are built over the orders themselves: an order object that is changed by its owner after delivery is not
  modelled.
- Prices that are NaN are kept out of the book by the type `Event`; what a set does with one is not modelled.
- Handler: calls of `handle` come one after another; callers that run at the same time issue their batches before they
  take the lock on the ring, and may then enter it in another order, which is not modelled. Nor are the listener
  registry (`add`, `addLowPriority`, `remove`), exceptions of listeners, and overflow of the counters.
- Native lists: the conversion of each event type is an abstract codec of one allocation; exceptions from a conversion
  or an allocation, and a null list handed to `EventMapper::fromGraalList`, which does not look, are not modelled.
- Metrics: `std::stoll` and `std::stod` are a parameter, their exceptions are left out, as are text output and groups.
- `getMillisFromTime`, `math::equals`, `fitToType`: one-line helpers.
- `hashCombine` on a 64-bit `std::size_t`; `std::hash` is a parameter.
- Everything that forwards into the Java SDK: endpoints, feeds, subscriptions, publishers, profiles, schedules, price
  increments, candle symbols and the C interface.
