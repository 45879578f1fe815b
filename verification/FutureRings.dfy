/** The handler's circular buffer of futures: how far the issuing of batches may run ahead of their completion. */
module FutureRings {
  import opened Integers

  /** Batches are numbered in the order in which they are issued. The ring has this many places filled. */
  function Filled(issued: nat, size: nat): nat {
    if issued < size then issued else size
  }

  /** The ring holds exactly the last batches, batch k in slot k modulo the size. */
  ghost predicate HoldsLast(ring: seq<nat>, issued: nat, size: nat)
    requires size > 0
  {
    && |ring| == Filled(issued, size)
    && forall i :: 0 <= i < |ring| ==> issued - |ring| <= ring[i] < issued && ring[i] % size == i
  }

  /** Among as many successive batches as there are slots, each slot belongs to one. */
  lemma OneBatchPerSlot(a: nat, b: nat, size: nat)
    requires size > 0 && a % size == b % size && a - size < b < a + size
    ensures a == b
  {
    assert a == a / size * size + a % size && b == b / size * size + b % size;
    var k := b / size - a / size;
    assert k * size == b / size * size - a / size * size;
    SmallMultipleIsZero(k, size);
  }

  lemma SlotComesRound(k: nat, size: nat)
    requires k >= size > 0
    ensures (k - size) % size == k % size
  {
    CongruentIfQuotient(k - size, k, size, -1);
  }

  lemma SlotOfFirstRound(k: nat, size: nat)
    requires k < size
    ensures k % size == k
  {
  }

  lemma NextSlot(k: nat, size: nat)
    requires size > 0
    ensures (k % size + 1) % size == (k + 1) % size
  {
    CongruentSums(k % size, k, 1, size);
    SlotOfFirstRound(k % size, size);
  }

  /** Once the ring is full, the slot of the next batch is held by the oldest one. */
  lemma NextSlotIsOldest(ring: seq<nat>, issued: nat, size: nat)
    requires size > 0 && issued >= size && HoldsLast(ring, issued, size)
    ensures issued % size < |ring| && ring[issued % size] == issued - size
  {
    var i := issued % size;
    SlotComesRound(issued, size);
    OneBatchPerSlot(issued - size, ring[i], size);
  }

  /** Every one of the last batches is in the ring. */
  lemma EveryLastBatchIsHeld(ring: seq<nat>, issued: nat, size: nat, k: nat)
    requires size > 0 && HoldsLast(ring, issued, size) && issued - |ring| <= k < issued
    ensures k % size < |ring| && ring[k % size] == k
  {
    if issued < size {
      SlotOfFirstRound(k, size);
      SlotOfFirstRound(ring[k], size);
    } else {
      OneBatchPerSlot(ring[k % size], k, size);
    }
  }

  /** Putting the next batch in its slot keeps the ring. */
  lemma RingGoesOn(ring: seq<nat>, issued: nat, size: nat)
    requires size > 0 && HoldsLast(ring, issued, size)
    ensures issued < size ==> HoldsLast(ring + [issued], issued + 1, size)
    ensures issued >= size ==> issued % size < |ring| && HoldsLast(ring[issued % size := issued], issued + 1, size)
  {
    if issued < size {
      SlotOfFirstRound(issued, size);
    } else {
      NextSlotIsOldest(ring, issued, size);
      forall i | 0 <= i < size && i != issued % size ensures ring[i] > issued - size {
        if ring[i] == issued - size { SlotComesRound(issued, size); }
      }
    }
  }

  // ---------------------------------------------------------------- the handler

  class Handler {
    const mainFuturesSize: nat
    var mainFutures: seq<nat>
    var mainFuturesCurrentIndex: nat

    /** How many batches were issued, and the batches whose future is ready. */
    var issued: nat
    var completed: set<nat>

    ghost predicate Valid()
      reads this
    {
      && (forall k :: k in completed ==> k < issued)
      && (forall k :: 0 <= k < issued && k + mainFuturesSize < issued ==> k in completed)
      && (if mainFuturesSize <= 1 then
            mainFutures == [] && forall k :: 0 <= k < issued ==> k in completed
          else
            && HoldsLast(mainFutures, issued, mainFuturesSize)
            && (if issued <= mainFuturesSize then mainFuturesCurrentIndex == 0
                else mainFuturesCurrentIndex % mainFuturesSize == issued % mainFuturesSize))
    }

    constructor (size: nat)
      ensures Valid() && mainFuturesSize == size && issued == 0 && completed == {}
    {
      mainFuturesSize, mainFutures, mainFuturesCurrentIndex, issued, completed := size, [], 0, 0, {};
    }

    /** Waits for one future; others may become ready in the meantime. */
    method Wait(batch: nat, meanwhile: set<nat>)
      requires batch < issued
      modifies this`completed
      ensures batch in completed
      ensures completed == old(completed) + {batch} + set k | k in meanwhile && k < issued
    {
      completed := completed + {batch} + set k | k in meanwhile && k < issued;
    }

    /** Issues the next batch, and waits for the batch that is mainFuturesSize before it and for no other; with a
        buffer of one place or none, for the batch itself. */
    method Handle(meanwhile: set<nat>) returns (batch: nat)
      requires Valid()
      modifies this
      ensures Valid() && batch == old(issued) && issued == old(issued) + 1
      ensures old(completed) <= completed
      ensures mainFuturesSize > 1 && batch >= mainFuturesSize ==>
                completed == old(completed) + {batch - mainFuturesSize} + set k | k in meanwhile && k <= batch
      ensures mainFuturesSize <= 1 ==> completed == old(completed) + {batch} + set k | k in meanwhile && k <= batch
      ensures mainFuturesSize > 1 && batch < mainFuturesSize ==> completed == old(completed)
      ensures |mainFutures| == if mainFuturesSize <= 1 then 0 else if batch + 1 < mainFuturesSize then batch + 1
                               else mainFuturesSize
    {
      batch := issued;
      issued := issued + 1;
      if mainFuturesSize <= 1 {
        Wait(batch, meanwhile);
      } else {
        RingGoesOn(mainFutures, batch, mainFuturesSize);
        if |mainFutures| < mainFuturesSize {
          mainFutures := mainFutures + [batch];
        } else {
          NextSlotIsOldest(mainFutures, batch, mainFuturesSize);
          if batch == mainFuturesSize { SlotComesRound(batch, mainFuturesSize); SlotOfFirstRound(0, mainFuturesSize); }
          mainFuturesCurrentIndex := mainFuturesCurrentIndex % mainFuturesSize;
          Wait(mainFutures[mainFuturesCurrentIndex], meanwhile);
          mainFutures := mainFutures[mainFuturesCurrentIndex := batch];
          mainFuturesCurrentIndex := mainFuturesCurrentIndex + 1;
          NextSlot(batch, mainFuturesSize);
        }
      }
    }

    /** The pool finishes a batch at any time. */
    method Complete(batch: nat)
      requires Valid() && batch < issued
      modifies this`completed
      ensures Valid() && completed == old(completed) + {batch}
    {
      completed := completed + {batch};
    }

    ghost function Outstanding(): set<nat>
      reads this
    {
      set k: nat | k < issued && k !in completed
    }

    /** Between calls at most as many batches as the buffer has places are on their way, and each is in the ring. */
    lemma OutstandingIsBounded()
      requires Valid()
      ensures |Outstanding()| <= if mainFuturesSize <= 1 then 0 else mainFuturesSize
      ensures forall k :: k in Outstanding() ==> k in mainFutures
    {
      var n := if mainFuturesSize <= 1 then 0 else Filled(issued, mainFuturesSize);
      IntervalBound(issued - n, issued, Outstanding());
      forall k | k in Outstanding() ensures k in mainFutures {
        EveryLastBatchIsHeld(mainFutures, issued, mainFuturesSize, k);
      }
    }
  }

  lemma {:induction false} IntervalBound(low: nat, high: nat, s: set<nat>)
    requires low <= high && forall k :: k in s ==> low <= k < high
    ensures |s| <= high - low
    decreases high - low
  {
    if low < high {
      IntervalBound(low, high - 1, s - {high - 1});
    } else {
      assert s == {};
    }
  }
}
