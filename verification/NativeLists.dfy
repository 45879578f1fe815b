/** Native lists: a header, an array of element pointers and the elements, allocated and freed by hand. */
module NativeLists {

  type Ref = nat

  datatype Pointer = Null | To(ref: Ref)

  /** What one allocation holds. */
  datatype Block<P> = Header(size: nat, elements: Pointer) | Slots(pointers: seq<Pointer>) | Element(payload: P)

  type Memory<P> = map<Ref, Block<P>>

  // ---------------------------------------------------------------- the shape of a list in memory

  /** The pointers lead to distinct elements with these payloads. */
  ghost predicate ElementsAt<P>(memory: Memory<P>, pointers: seq<Pointer>, payloads: seq<P>) {
    && |pointers| == |payloads|
    && (forall i :: 0 <= i < |pointers| ==>
          pointers[i].To? && pointers[i].ref in memory && memory[pointers[i].ref] == Element(payloads[i]))
    && (forall i, j :: 0 <= i < j < |pointers| ==> pointers[i] != pointers[j])
  }

  function Refs(pointers: seq<Pointer>): set<Ref> {
    set p | p in pointers && p.To? :: p.ref
  }

  /** A complete list of these payloads starts at r. An empty list has no array. */
  ghost predicate ListAt<P>(memory: Memory<P>, r: Ref, payloads: seq<P>) {
    && r in memory && memory[r].Header? && memory[r].size == |payloads|
    && if payloads == [] then memory[r].elements == Null
       else
         && memory[r].elements.To? && memory[r].elements.ref in memory
         && memory[memory[r].elements.ref].Slots?
         && ElementsAt(memory, memory[memory[r].elements.ref].pointers, payloads)
  }

  /** Every allocation that belongs to the list. */
  ghost function Footprint<P>(memory: Memory<P>, r: Ref, payloads: seq<P>): set<Ref>
    requires ListAt(memory, r, payloads)
  {
    if payloads == [] then {r}
    else {r, memory[r].elements.ref} + Refs(memory[memory[r].elements.ref].pointers)
  }

  /** The longest prefix that the size type of the list can count. */
  function Clamped(length: nat, maxSize: nat): nat {
    if length > maxSize then maxSize else length
  }

  // ---------------------------------------------------------------- codecs

  /** An element type's conversion to native form, which may fail, and back. */
  datatype Codec<!E, !P> = Codec(encode: E -> Converted<P>, decode: P -> E)

  datatype Converted<P> = Failed | Converted(payload: P)

  ghost predicate AllConvert<E, P>(codec: Codec<E, P>, items: seq<E>) {
    forall i :: 0 <= i < |items| ==> codec.encode(items[i]).Converted?
  }

  function Payloads<E, P>(codec: Codec<E, P>, items: seq<E>): seq<P>
    requires AllConvert(codec, items)
  {
    seq(|items|, i requires 0 <= i < |items| => codec.encode(items[i]).payload)
  }

  // ---------------------------------------------------------------- the heap and the list functions

  class NativeHeap<!E(!new), !P(!new)> {
    const codec: Codec<E, P>
    const maxSize: nat
    var memory: Memory<P>
    var next: Ref

    ghost predicate Valid()
      reads this
    {
      forall r :: r in memory ==> r < next
    }

    constructor (codec: Codec<E, P>, maxSize: nat)
      ensures Valid() && memory == map[] && this.codec == codec && this.maxSize == maxSize
    {
      this.codec, this.maxSize, memory, next := codec, maxSize, map[], 0;
    }

    method Allocate(block: Block<P>) returns (r: Ref)
      requires Valid()
      modifies this
      ensures Valid() && r == old(next) && next == r + 1 && memory == old(memory)[r := block]
    {
      r := next;
      next := next + 1;
      memory := memory[r := block];
    }

    /** Only a live allocation may be freed, and only once. */
    method Free(r: Ref)
      requires Valid() && r in memory
      modifies this`memory
      ensures Valid() && memory == old(memory) - {r}
    {
      memory := memory - {r};
    }

    /** `toGraal` of one item: a fresh allocation, or null. */
    method Convert(item: E) returns (p: Pointer)
      requires Valid()
      modifies this
      ensures Valid()
      ensures match codec.encode(item)
              case Failed => p == Null && memory == old(memory)
              case Converted(payload) => p.To? && p.ref !in old(memory) &&
                                         memory == old(memory)[p.ref := Element(payload)]
    {
      match codec.encode(item)
      case Failed => p := Null;
      case Converted(payload) =>
        var r := Allocate(Element(payload));
        p := To(r);
    }

    method CalculateSize(initSize: int) returns (size: nat)
      ensures size == if initSize < 0 then 0 else Clamped(initSize, maxSize)
      ensures initSize < 0 ==> size == 0
      ensures 0 <= initSize <= maxSize ==> size == initSize
      ensures initSize > maxSize ==> size == maxSize
    {
      if initSize < 0 {
        return 0;
      }
      if initSize > maxSize {
        return maxSize;
      }
      return initSize;
    }

    method NewList(size: nat) returns (list: Ref)
      requires Valid()
      modifies this
      ensures Valid() && list !in old(memory)
      ensures size == 0 ==> memory == old(memory)[list := Header(0, Null)]
      ensures size > 0 ==>
                exists a :: a !in old(memory) && a != list &&
                            memory == old(memory)[list := Header(size, To(a))][a := Slots(seq(size, _ => Null))]
    {
      list := Allocate(Header(size, Null));
      if size > 0 {
        var a := Allocate(Slots(seq(size, _ => Null)));
        memory := memory[list := Header(size, To(a))];
        assert memory == old(memory)[list := Header(size, To(a))][a := Slots(seq(size, _ => Null))];
      }
    }

    /** Refuses a null element and an index that the size type cannot hold. */
    method SetElement(list: Ref, a: Ref, index: int, p: Pointer) returns (done: bool)
      requires Valid() && list in memory && memory[list].Header? && memory[list].elements == To(a)
      requires a in memory && memory[a].Slots? && (0 <= index < maxSize ==> index < |memory[a].pointers|)
      modifies this`memory
      ensures Valid()
      ensures done == (0 <= index < maxSize && p != Null)
      ensures memory == if done then old(memory)[a := Slots(old(memory[a].pointers)[index := p])] else old(memory)
    {
      if index < 0 || index >= maxSize || p == Null {
        return false;
      }
      memory := memory[a := Slots(memory[a].pointers[index := p])];
      return true;
    }

    /** Frees what the pointers lead to, one after another; null pointers are passed over. */
    method FreeEach(pointers: seq<Pointer>)
      requires Valid() && Refs(pointers) <= memory.Keys && NoneTwice(pointers)
      modifies this`memory
      ensures Valid() && memory == old(memory) - Refs(pointers)
    {
      for i := 0 to |pointers|
        invariant Valid() && memory == old(memory) - Refs(pointers[..i])
      {
        RefsGrow(pointers, i);
        if pointers[i].To? {
          Free(pointers[i].ref);
        }
      }
      assert pointers[..|pointers|] == pointers;
    }

    /** Gives up a list after a failed conversion: the elements so far, the array and the header. */
    method FreeElements(list: Ref, count: int) returns (done: bool)
      requires Valid() && HalfBuilt(list, count)
      modifies this`memory
      ensures Valid() && done == (0 <= count < maxSize)
      ensures done ==> memory == old(memory) - Refs(old(memory[memory[list].elements.ref].pointers[..count]))
                                             - {list, old(memory[list].elements.ref)}
      ensures !done ==> memory == old(memory)
    {
      if count < 0 || count >= maxSize {
        return false;
      }
      var a := memory[list].elements.ref;
      var pointers := memory[a].pointers[..count];
      FreeEach(pointers);
      Free(a);
      Free(list);
      return true;
    }

    ghost predicate HalfBuilt(list: Ref, count: int)
      reads this
    {
      && list in memory && memory[list].Header? && memory[list].elements.To?
      && var a := memory[list].elements.ref;
      && a in memory && memory[a].Slots?
      && (0 <= count < maxSize ==>
            && count <= |memory[a].pointers|
            && var pointers := memory[a].pointers[..count];
               Refs(pointers) <= memory.Keys - {list, a} && NoneTwice(pointers))
    }

    /** Frees a complete list. */
    method FreeList(list: Pointer, ghost payloads: seq<P>)
      requires Valid() && (list.To? ==> ListAt(memory, list.ref, payloads))
      modifies this`memory
      ensures Valid()
      ensures memory == if list.To? then old(memory) - Footprint(old(memory), list.ref, payloads) else old(memory)
    {
      if list.Null? {
        return;
      }
      var header := memory[list.ref];
      if header.size > 0 && header.elements.To? {
        var pointers := memory[header.elements.ref].pointers;
        ElementsAreApart(memory, list.ref, payloads);
        FreeEach(pointers);
        Free(header.elements.ref);
      }
      Free(list.ref);
    }

    /** Reads a list; null elements are passed over. */
    method FromList(list: Pointer, ghost payloads: seq<P>) returns (items: seq<E>)
      requires list.To? ==> ListAt(memory, list.ref, payloads)
      ensures list.To? ==>
                |items| == |payloads| && forall i :: 0 <= i < |items| ==> items[i] == codec.decode(payloads[i])
      ensures list.Null? ==> items == []
    {
      items := [];
      if list.Null? {
        return;
      }
      var header := memory[list.ref];
      if header.size > 0 && header.elements.To? {
        var pointers := memory[header.elements.ref].pointers;
        for i := 0 to header.size
          invariant |items| == i && forall k :: 0 <= k < i ==> items[k] == codec.decode(payloads[k])
        {
          if pointers[i].To? {
            items := items + [codec.decode(memory[pointers[i].ref].payload)];
          }
        }
      }
    }

    /** Converts one more item into its slot. */
    method AddItem(ghost base: Memory<P>, header: Ref, a: Ref, ghost pointers: seq<Pointer>, ghost built: seq<E>,
                   index: nat, item: E)
      returns (done: bool, ghost pointers': seq<Pointer>)
      requires Valid() && Building(codec, memory, base, header, a, pointers, built)
      requires index == |built| < |pointers| <= maxSize
      modifies this
      ensures Valid() && |pointers'| == |pointers|
      ensures done == codec.encode(item).Converted?
      ensures Building(codec, memory, base, header, a, pointers', if done then built + [item] else built)
    {
      ghost var before := memory;
      var p := Convert(item);
      assert memory[a] == Slots(pointers) && memory[header].elements == To(a);
      done := SetElement(header, a, index, p);
      pointers' := pointers;
      if done {
        pointers' := pointers[index := p];
        OneMoreItem(codec, before, base, header, a, pointers, built, p.ref, item);
      }
    }

    /** Converts the items one by one, until one fails. */
    method Fill(ghost base: Memory<P>, header: Ref, a: Ref, ghost empty: seq<Pointer>, items: seq<E>, size: nat)
      returns (index: nat, needToFree: bool, ghost pointers: seq<Pointer>)
      requires Valid() && Building(codec, memory, base, header, a, empty, [])
      requires |empty| == size == Clamped(|items|, maxSize)
      modifies this
      ensures Valid() && |pointers| == size && index <= size
      ensures Building(codec, memory, base, header, a, pointers, items[..index])
      ensures if needToFree then index < size && codec.encode(items[index]).Failed? else index == size
    {
      index, needToFree, pointers := 0, false, empty;
      ghost var built := [];
      while index < |items| && index < size && !needToFree
        invariant index <= size == |pointers| && built == items[..index]
        invariant Valid() && Building(codec, memory, base, header, a, pointers, built)
        invariant needToFree ==> index < size && codec.encode(items[index]).Failed?
        decreases size - index, !needToFree
      {
        var item := items[index];
        PrefixGrows(items, index);
        var done;
        done, pointers := AddItem(base, header, a, pointers, built, index, item);
        needToFree := !done;
        if done {
          built := built + [item];
          index := index + 1;
        }
      }
    }

    /** Builds a list of the items, as many as its size type can count. If one of them does not convert, all
        that was allocated is freed again, each allocation once, and there is no list. */
    method ToGraalList(items: seq<E>) returns (list: Pointer)
      requires Valid()
      modifies this
      ensures Valid()
      ensures IsListOf(codec, memory, old(memory), list, items[..Clamped(|items|, maxSize)])
      ensures list.To? <==> forall i :: 0 <= i < |items| && i < maxSize ==> codec.encode(items[i]).Converted?
      ensures list.To? ==>
                && list.ref in memory && memory[list.ref].Header?
                && (|items| <= maxSize ==> memory[list.ref].size == |items|)
                && (|items| > maxSize ==> memory[list.ref].size == maxSize)
    {
      ghost var base := memory;
      var size := CalculateSize(|items|);
      var header := NewList(size);
      if size == 0 {
        EmptyList(codec, memory, base, header);
        return To(header);
      }
      var a := memory[header].elements.ref;
      var index, needToFree;
      ghost var pointers := memory[a].pointers;
      StartsEmpty(codec, memory, base, header, a, pointers);
      index, needToFree, pointers := Fill(base, header, a, pointers, items, size);
      if needToFree {
        assert items[..size][index] == items[index];
        RefsAreNew(codec, memory, base, header, a, pointers, items[..index]);
        var _ := FreeElements(header, index);
        return Null;
      }
      BuiltListIsComplete(codec, memory, base, header, a, pointers, items[..size]);
      return To(header);
    }
  }

  // ---------------------------------------------------------------- a list under construction

  /** Beside what was there before, memory holds the header, the array and the elements so far. */
  ghost predicate Building<E(!new), P(!new)>(
      codec: Codec<E, P>, memory: Memory<P>, base: Memory<P>, header: Ref, a: Ref, pointers: seq<Pointer>,
      items: seq<E>)
  {
    && |items| <= |pointers|
    && IsFramed(memory, base, header, a, pointers, |items|)
    && AllBuilt(codec, memory, base, header, a, pointers[..|items|], items)
  }

  /** Nothing else is in memory, and what was there before is as it was. */
  ghost predicate IsFramed<P(!new)>(
      memory: Memory<P>, base: Memory<P>, header: Ref, a: Ref, pointers: seq<Pointer>, count: nat)
    requires count <= |pointers|
  {
    && header !in base && a !in base && header != a
    && memory.Keys == base.Keys + {header, a} + Refs(pointers[..count])
    && (forall r :: r in base ==> memory[r] == base[r])
    && memory[header] == Header(|pointers|, To(a)) && memory[a] == Slots(pointers)
    && NoneTwice(pointers[..count])
  }

  ghost predicate AllBuilt<E(!new), P(!new)>(
      codec: Codec<E, P>, memory: Memory<P>, base: Memory<P>, header: Ref, a: Ref, pointers: seq<Pointer>,
      items: seq<E>)
  {
    && |pointers| == |items|
    && forall i :: 0 <= i < |items| ==> IsBuilt(codec, memory, base, header, a, pointers[i], items[i])
  }

  ghost predicate IsBuilt<E(!new), P(!new)>(
      codec: Codec<E, P>, memory: Memory<P>, base: Memory<P>, header: Ref, a: Ref, p: Pointer, item: E)
  {
    && p.To? && p.ref !in base && p.ref != header && p.ref != a && p.ref in memory
    && codec.encode(item).Converted? && memory[p.ref] == Element(codec.encode(item).payload)
  }

  /** The outcome of building a list: all or nothing. A list owns exactly what is new in memory. */
  ghost predicate IsListOf<E(!new), P(!new)>(
      codec: Codec<E, P>, memory: Memory<P>, base: Memory<P>, list: Pointer, items: seq<E>)
  {
    if AllConvert(codec, items) then
      && list.To? && ListAt(memory, list.ref, Payloads(codec, items))
      && Footprint(memory, list.ref, Payloads(codec, items)) !! base.Keys
      && memory - Footprint(memory, list.ref, Payloads(codec, items)) == base
    else list.Null? && memory == base
  }

  lemma EmptyList<E(!new), P(!new)>(codec: Codec<E, P>, memory: Memory<P>, base: Memory<P>, header: Ref)
    requires header !in base && memory == base[header := Header(0, Null)]
    ensures IsListOf(codec, memory, base, To(header), [])
  {
  }

  lemma StartsEmpty<E(!new), P(!new)>(
      codec: Codec<E, P>, memory: Memory<P>, base: Memory<P>, header: Ref, a: Ref, pointers: seq<Pointer>)
    requires header !in base && a !in base && header != a
    requires memory == base[header := Header(|pointers|, To(a))][a := Slots(pointers)]
    ensures Building(codec, memory, base, header, a, pointers, [])
  {
  }

  /** One pointer more, to something new. */
  lemma OneMorePointer(pointers: seq<Pointer>, n: nat, r: Ref)
    requires n < |pointers| && NoneTwice(pointers[..n]) && r !in Refs(pointers[..n])
    ensures Refs(pointers[n := To(r)][..n + 1]) == Refs(pointers[..n]) + {r}
    ensures NoneTwice(pointers[n := To(r)][..n + 1])
  {
    var before, after := pointers[..n], pointers[n := To(r)][..n + 1];
    assert after == before + [To(r)];
    forall i | 0 <= i < n ensures before[i] != To(r) {
      assert before[i] in before;
    }
  }

  /** The elements so far do not notice a change elsewhere. */
  lemma StayBuilt<E(!new), P(!new)>(
      codec: Codec<E, P>, memory: Memory<P>, memory': Memory<P>, base: Memory<P>, header: Ref, a: Ref,
      pointers: seq<Pointer>, items: seq<E>)
    requires AllBuilt(codec, memory, base, header, a, pointers, items)
    requires forall x :: x in memory && x != a ==> x in memory' && memory'[x] == memory[x]
    ensures AllBuilt(codec, memory', base, header, a, pointers, items)
  {
  }

  lemma OneMoreBuilt<E(!new), P(!new)>(
      codec: Codec<E, P>, memory: Memory<P>, base: Memory<P>, header: Ref, a: Ref, pointers: seq<Pointer>,
      items: seq<E>, p: Pointer, item: E)
    requires AllBuilt(codec, memory, base, header, a, pointers, items)
    requires IsBuilt(codec, memory, base, header, a, p, item)
    ensures AllBuilt(codec, memory, base, header, a, pointers + [p], items + [item])
  {
  }

  lemma FrameGoesOn<P(!new)>(
      memory: Memory<P>, base: Memory<P>, header: Ref, a: Ref, pointers: seq<Pointer>, n: nat, r: Ref, payload: P)
    requires n < |pointers| && IsFramed(memory, base, header, a, pointers, n) && r !in memory
    ensures var pointers' := pointers[n := To(r)];
            IsFramed(memory[r := Element(payload)][a := Slots(pointers')], base, header, a, pointers', n + 1)
  {
    assert header in memory && a in memory;
    OneMorePointer(pointers, n, r);
    var memory' := memory[r := Element(payload)][a := Slots(pointers[n := To(r)])];
    assert memory'.Keys == memory.Keys + {r};
  }

  lemma FrameIsInMemory<P(!new)>(
      memory: Memory<P>, base: Memory<P>, header: Ref, a: Ref, pointers: seq<Pointer>, n: nat)
    requires n <= |pointers| && IsFramed(memory, base, header, a, pointers, n)
    ensures header in memory && a in memory && base.Keys <= memory.Keys
  {
  }

  lemma ElementsGoOn<E(!new), P(!new)>(
      codec: Codec<E, P>, memory: Memory<P>, base: Memory<P>, header: Ref, a: Ref, pointers: seq<Pointer>,
      items: seq<E>, r: Ref, item: E, slots: seq<Pointer>)
    requires AllBuilt(codec, memory, base, header, a, pointers, items)
    requires header in memory && a in memory && base.Keys <= memory.Keys
    requires r !in memory && codec.encode(item).Converted?
    ensures AllBuilt(codec, memory[r := Element(codec.encode(item).payload)][a := Slots(slots)],
                     base, header, a, pointers + [To(r)], items + [item])
  {
    var memory' := memory[r := Element(codec.encode(item).payload)][a := Slots(slots)];
    StayBuilt(codec, memory, memory', base, header, a, pointers, items);
    OneMoreBuilt(codec, memory', base, header, a, pointers, items, To(r), item);
  }

  lemma OneMoreItem<E(!new), P(!new)>(
      codec: Codec<E, P>, memory: Memory<P>, base: Memory<P>, header: Ref, a: Ref, pointers: seq<Pointer>,
      items: seq<E>, r: Ref, item: E)
    requires Building(codec, memory, base, header, a, pointers, items) && |items| < |pointers|
    requires r !in memory && codec.encode(item).Converted?
    ensures var pointers' := pointers[|items| := To(r)];
            Building(codec, memory[r := Element(codec.encode(item).payload)][a := Slots(pointers')],
                     base, header, a, pointers', items + [item])
  {
    var n := |items|;
    var pointers' := pointers[n := To(r)];
    FrameGoesOn(memory, base, header, a, pointers, n, r, codec.encode(item).payload);
    FrameIsInMemory(memory, base, header, a, pointers, n);
    ElementsGoOn(codec, memory, base, header, a, pointers[..n], items, r, item, pointers');
    assert pointers'[..n + 1] == pointers[..n] + [To(r)];
  }

  lemma RefsAreNew<E(!new), P(!new)>(
      codec: Codec<E, P>, memory: Memory<P>, base: Memory<P>, header: Ref, a: Ref, pointers: seq<Pointer>,
      items: seq<E>)
    requires Building(codec, memory, base, header, a, pointers, items)
    ensures Refs(pointers[..|items|]) !! base.Keys + {header, a} && Refs(pointers[..|items|]) <= memory.Keys
    ensures memory - Refs(pointers[..|items|]) - {header, a} == base
  {
  }

  lemma BuiltListIsComplete<E(!new), P(!new)>(
      codec: Codec<E, P>, memory: Memory<P>, base: Memory<P>, header: Ref, a: Ref, pointers: seq<Pointer>,
      items: seq<E>)
    requires Building(codec, memory, base, header, a, pointers, items) && |items| == |pointers| > 0
    ensures AllConvert(codec, items) && IsListOf(codec, memory, base, To(header), items)
  {
    assert pointers[..|items|] == pointers;
    forall i | 0 <= i < |items| ensures codec.encode(items[i]).Converted? {
      assert IsBuilt(codec, memory, base, header, a, pointers[i], items[i]);
    }
    var payloads := Payloads(codec, items);
    forall i | 0 <= i < |items|
      ensures pointers[i].To? && pointers[i].ref in memory && memory[pointers[i].ref] == Element(payloads[i])
    {
      assert IsBuilt(codec, memory, base, header, a, pointers[i], items[i]);
    }
    RefsAreNew(codec, memory, base, header, a, pointers, items);
    assert Footprint(memory, header, payloads) == Refs(pointers) + {header, a};
    assert memory - Footprint(memory, header, payloads) == base;
  }

  // ---------------------------------------------------------------- pointers and their targets

  ghost predicate NoneTwice(pointers: seq<Pointer>) {
    forall i, j :: 0 <= i < j < |pointers| && pointers[i].To? ==> pointers[i] != pointers[j]
  }

  lemma PrefixGrows<E>(items: seq<E>, i: nat)
    requires i < |items|
    ensures items[..i + 1] == items[..i] + [items[i]]
  {
  }

  lemma RefsGrow(pointers: seq<Pointer>, i: nat)
    requires i < |pointers|
    ensures Refs(pointers[..i + 1]) == Refs(pointers[..i]) + (if pointers[i].To? then {pointers[i].ref} else {})
    ensures NoneTwice(pointers) && pointers[i].To? ==> pointers[i].ref !in Refs(pointers[..i])
  {
  }

  lemma ElementsAreApart<P>(memory: Memory<P>, r: Ref, payloads: seq<P>)
    requires ListAt(memory, r, payloads) && payloads != []
    ensures var a := memory[r].elements.ref;
            r != a && Refs(memory[a].pointers) <= memory.Keys - {r, a} && NoneTwice(memory[a].pointers)
  {
  }

  // ---------------------------------------------------------------- round trip

  /** Builds a list, reads it back and frees it. */
  method RoundTrip<E(!new), P(!new)>(heap: NativeHeap<E, P>, items: seq<E>) returns (built: bool, back: seq<E>)
    requires heap.Valid()
    requires forall e :: heap.codec.encode(e).Converted? ==> heap.codec.decode(heap.codec.encode(e).payload) == e
    modifies heap
    ensures heap.Valid() && heap.memory == old(heap.memory)
    ensures built == AllConvert(heap.codec, items[..Clamped(|items|, heap.maxSize)])
    ensures built ==> back == items[..Clamped(|items|, heap.maxSize)]
    ensures built <==> forall i :: 0 <= i < |items| && i < heap.maxSize ==> heap.codec.encode(items[i]).Converted?
    ensures built && |items| <= heap.maxSize ==> back == items
    ensures built && |items| > heap.maxSize ==> |back| == heap.maxSize && back <= items
  {
    ghost var taken := items[..Clamped(|items|, heap.maxSize)];
    var list := heap.ToGraalList(items);
    built := list.To?;
    ghost var payloads := if built then Payloads(heap.codec, taken) else [];
    back := heap.FromList(list, payloads);
    heap.FreeList(list, payloads);
  }
}
