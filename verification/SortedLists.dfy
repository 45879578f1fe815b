/** Strictly sorted lists: what a comparator-ordered set holds, in iteration order. */
module SortedLists {

  const SIZE_MAX: nat := 0xFFFF_FFFF_FFFF_FFFF

  // ---------------------------------------------------------------- order relations

  /** The demand that a comparator-ordered set makes of its comparator. */
  ghost predicate StrictWeakOrder<T(!new)>(less: (T, T) -> bool) {
    && (forall a, b :: less(a, b) ==> !less(b, a))
    && (forall a, b, c :: less(a, c) ==> less(a, b) || less(b, c))
  }

  ghost predicate Sorted<T>(less: (T, T) -> bool, s: seq<T>) {
    forall i, j :: 0 <= i < j < |s| ==> less(s[i], s[j])
  }

  /** Two sorted lists of the same elements are the same list. */
  lemma {:induction false} ListingIsUnique<T(!new)>(less: (T, T) -> bool, s: seq<T>, t: seq<T>)
    requires StrictWeakOrder(less)
    requires Sorted(less, s) && Sorted(less, t)
    requires forall x :: x in s <==> x in t
    ensures s == t
  {
    assert s != [] ==> s[0] in t;
    assert t != [] ==> t[0] in s;
    if s != [] {
      HeadIsLeast(less, s, t[0]);
      HeadIsLeast(less, t, s[0]);
      assert s[0] == t[0];
      forall x ensures x in s[1..] <==> x in t[1..] {
        TailMembers(less, s, x);
        TailMembers(less, t, x);
      }
      ListingIsUnique(less, s[1..], t[1..]);
    }
  }

  lemma HeadIsLeast<T(!new)>(less: (T, T) -> bool, s: seq<T>, x: T)
    requires s != [] && Sorted(less, s) && x in s
    ensures x == s[0] || less(s[0], x)
  {
  }

  lemma TailMembers<T(!new)>(less: (T, T) -> bool, s: seq<T>, x: T)
    requires StrictWeakOrder(less) && s != [] && Sorted(less, s)
    ensures x in s[1..] <==> x in s && x != s[0]
  {
  }

  // ---------------------------------------------------------------- insert and erase

  /** The position of the first element that is not less than x. */
  function LowerBound<T>(less: (T, T) -> bool, s: seq<T>, x: T): (p: nat)
    ensures p <= |s|
  {
    if s == [] || !less(s[0], x) then 0 else 1 + LowerBound(less, s[1..], x)
  }

  lemma {:induction false} LowerBoundSplits<T(!new)>(less: (T, T) -> bool, s: seq<T>, x: T)
    requires StrictWeakOrder(less) && Sorted(less, s)
    ensures forall i :: 0 <= i < |s| ==> (less(s[i], x) <==> i < LowerBound(less, s, x))
  {
    if s != [] && less(s[0], x) {
      LowerBoundSplits(less, s[1..], x);
      forall i | 0 <= i < |s| ensures less(s[i], x) <==> i < LowerBound(less, s, x) {
        if i > 0 { assert s[i] == s[1..][i - 1]; }
      }
    } else if s != [] {
      forall i | 0 <= i < |s| ensures !less(s[i], x) {
        assert i == 0 || less(s[0], s[i]);
      }
    }
  }

  /** The list has an element that the comparator cannot tell from x. */
  predicate Holds<T>(less: (T, T) -> bool, s: seq<T>, x: T) {
    var p := LowerBound(less, s, x);
    p < |s| && !less(x, s[p])
  }

  /** `std::set::insert`: an element that is already there keeps its place. */
  function Inserted<T>(less: (T, T) -> bool, s: seq<T>, x: T): seq<T> {
    var p := LowerBound(less, s, x);
    if Holds(less, s, x) then s else s[..p] + [x] + s[p..]
  }

  /** `std::set::erase` by key. */
  function Erased<T>(less: (T, T) -> bool, s: seq<T>, x: T): seq<T> {
    var p := LowerBound(less, s, x);
    if Holds(less, s, x) then s[..p] + s[p + 1..] else s
  }

  lemma HoldsTheEquivalent<T(!new)>(less: (T, T) -> bool, s: seq<T>, x: T, i: nat)
    requires StrictWeakOrder(less) && Sorted(less, s)
    requires i < |s| && !less(s[i], x) && !less(x, s[i])
    ensures Holds(less, s, x) && i == LowerBound(less, s, x)
  {
    LowerBoundSplits(less, s, x);
    forall k | 0 <= k < i ensures less(s[k], x) {
      assert less(s[k], s[i]);
    }
  }

  /** Inserting keeps the list sorted and adds the element, and only it, unless an equivalent one is present. */
  lemma InsertedContents<T(!new)>(less: (T, T) -> bool, s: seq<T>, x: T)
    requires StrictWeakOrder(less) && Sorted(less, s)
    ensures Sorted(less, Inserted(less, s, x))
    ensures !Holds(less, s, x) ==> forall y :: y in Inserted(less, s, x) <==> y in s || y == x
    ensures (exists y :: y in s && !less(x, y) && !less(y, x)) ==> Inserted(less, s, x) == s
  {
    if y :| y in s && !less(x, y) && !less(y, x) {
      var i :| 0 <= i < |s| && s[i] == y;
      HoldsTheEquivalent(less, s, x, i);
    }
    if !Holds(less, s, x) {
      var p := LowerBound(less, s, x);
      LowerBoundSplits(less, s, x);
      forall i | p <= i < |s| ensures less(x, s[i]) {
        if i > p { assert less(s[p], s[i]); }
      }
      SplicedIsSorted(less, s, x, p);
      assert s == s[..p] + s[p..];
    }
  }

  lemma SplicedIsSorted<T>(less: (T, T) -> bool, s: seq<T>, x: T, p: nat)
    requires Sorted(less, s) && p <= |s|
    requires forall i :: 0 <= i < p ==> less(s[i], x)
    requires forall i :: p <= i < |s| ==> less(x, s[i])
    ensures Sorted(less, s[..p] + [x] + s[p..])
  {
  }

  /** Erasing keeps the list sorted and takes away the one equivalent element, and only it. */
  lemma ErasedContents<T(!new)>(less: (T, T) -> bool, s: seq<T>, x: T)
    requires StrictWeakOrder(less) && Sorted(less, s)
    ensures Sorted(less, Erased(less, s, x))
    ensures forall y :: y in Erased(less, s, x) <==> y in s && (less(y, x) || less(x, y))
  {
    var p := LowerBound(less, s, x);
    LowerBoundSplits(less, s, x);
    forall k | 0 <= k < |s| ensures less(s[k], x) || less(x, s[k]) <==> !(Holds(less, s, x) && k == p) {
      if !less(s[k], x) && !less(x, s[k]) { HoldsTheEquivalent(less, s, x, k); }
    }
    if Holds(less, s, x) {
      CutIsSorted(less, s, p);
      forall y ensures y in Erased(less, s, x) <==> exists k :: 0 <= k < |s| && k != p && s[k] == y {
        CutMembers(s, p, y);
      }
    }
  }

  lemma CutIsSorted<T>(less: (T, T) -> bool, s: seq<T>, p: nat)
    requires Sorted(less, s) && p < |s|
    ensures Sorted(less, s[..p] + s[p + 1..])
  {
  }

  lemma CutMembers<T>(s: seq<T>, p: nat, y: T)
    requires p < |s|
    ensures y in s[..p] + s[p + 1..] <==> exists k :: 0 <= k < |s| && k != p && s[k] == y
  {
  }

  // ---------------------------------------------------------------- the top of a list

  /** The limits 0 and SIZE_MAX stand for "no limit". */
  predicate Unbounded(limit: nat) {
    limit == 0 || limit == SIZE_MAX
  }

  /** The best `limit` elements. */
  function Top<T>(s: seq<T>, limit: nat): seq<T> {
    var n := if Unbounded(limit) then SIZE_MAX else limit;
    if |s| <= n then s else s[..n]
  }

  /** What is visible: the beginning of the list, all of it for limit 0 and for the greatest value of the size type (as
      far as that type can count), and otherwise as many elements as the limit allows. */
  lemma TopIsPrefix<T>(s: seq<T>, limit: nat)
    ensures Top(s, limit) <= s
    ensures limit == 0 || limit == 0xFFFF_FFFF_FFFF_FFFF ==>
              |Top(s, limit)| == if |s| <= 0xFFFF_FFFF_FFFF_FFFF then |s| else 0xFFFF_FFFF_FFFF_FFFF
    ensures 0 < limit < 0xFFFF_FFFF_FFFF_FFFF ==> |Top(s, limit)| == if |s| <= limit then |s| else limit
  {
  }

  /** A change behind the last element shown is invisible, whether the list shown is the top or not: it is the
      top after the change if and only if it was before. */
  lemma InsertBelowTop<T(!new)>(less: (T, T) -> bool, s: seq<T>, x: T, limit: nat, shown: seq<T>)
    requires StrictWeakOrder(less) && Sorted(less, s) && !Holds(less, s, x)
    requires !Unbounded(limit) && |Inserted(less, s, x)| > limit
    requires shown != [] && less(shown[|shown| - 1], x)
    ensures shown == Top(Inserted(less, s, x), limit) <==> shown == Top(s, limit)
  {
    var p, t := LowerBound(less, s, x), Inserted(less, s, x);
    LowerBoundSplits(less, s, x);
    InsertedContents(less, s, x);
    if p < limit {
      assert t[p] == x;
      assert p < limit - 1 ==> less(t[p], t[limit - 1]);
      assert shown != Top(t, limit);
    } else {
      assert t[..limit] == s[..limit];
    }
  }

  lemma EraseBelowTop<T(!new)>(less: (T, T) -> bool, s: seq<T>, x: T, limit: nat, shown: seq<T>)
    requires StrictWeakOrder(less) && Sorted(less, s) && Holds(less, s, x)
    requires !Unbounded(limit) && |Erased(less, s, x)| > limit
    requires shown != [] && less(shown[|shown| - 1], x)
    ensures shown == Top(Erased(less, s, x), limit) <==> shown == Top(s, limit)
  {
    var p, t := LowerBound(less, s, x), Erased(less, s, x);
    LowerBoundSplits(less, s, x);
    if p < limit {
      assert t[limit - 1] == s[limit];
      assert !less(s[limit - 1], x) && !less(s[limit], x);
    } else {
      assert t[..limit] == s[..limit];
    }
  }

  // ---------------------------------------------------------------- removing by a property

  /** What remains when every match is removed. */
  function Without<T>(s: seq<T>, matches: T -> bool): seq<T> {
    if s == [] then [] else (if matches(s[0]) then [] else [s[0]]) + Without(s[1..], matches)
  }

  lemma {:induction false} WithoutContents<T(!new)>(s: seq<T>, matches: T -> bool)
    ensures forall x :: x in Without(s, matches) <==> x in s && !matches(x)
  {
    if s != [] {
      assert s == [s[0]] + s[1..];
      WithoutContents(s[1..], matches);
    }
  }

  /** The outcome of an iterator loop that may step past the end. */
  datatype Cleared<T> = Cleared(kept: seq<T>, defined: bool)

  /** A loop that erases the matches and advances after every element, also after an erase that has
      already advanced: the successor of each erased element is passed over without being looked at,
      and advancing from the end is undefined. */
  function ClearSkipping<T>(s: seq<T>, matches: T -> bool): Cleared<T> {
    if s == [] then Cleared([], true)
    else if !matches(s[0]) then
      var rest := ClearSkipping(s[1..], matches);
      Cleared([s[0]] + rest.kept, rest.defined)
    else if |s| == 1 then Cleared([], false)
    else
      var rest := ClearSkipping(s[2..], matches);
      Cleared([s[1]] + rest.kept, rest.defined)
  }

  /** Every match has a successor, and that one is no match. */
  predicate ClearIsSafe<T>(s: seq<T>, matches: T -> bool) {
    forall i :: 0 <= i < |s| && matches(s[i]) ==> i + 1 < |s| && !matches(s[i + 1])
  }

  /** The loop removes exactly the matches, with no undefined step, if and only if every match is
      followed by an element that does not match. */
  lemma {:induction false} ClearSkippingIsExact<T(!new)>(s: seq<T>, matches: T -> bool)
    ensures ClearSkipping(s, matches) == Cleared(Without(s, matches), true) <==> ClearIsSafe(s, matches)
  {
    if s == [] {
    } else if !matches(s[0]) {
      ClearSkippingIsExact(s[1..], matches);
      var rest := ClearSkipping(s[1..], matches);
      assert ([s[0]] + rest.kept)[1..] == rest.kept;
      assert ([s[0]] + Without(s[1..], matches))[1..] == Without(s[1..], matches);
      SafeTail(s, matches);
    } else if |s| == 1 {
    } else {
      ClearSkippingIsExact(s[2..], matches);
      var rest := ClearSkipping(s[2..], matches);
      assert s[1..][1..] == s[2..];
      if matches(s[1]) {
        WithoutContents(s, matches);
        assert s[1] in ClearSkipping(s, matches).kept;
        assert !ClearIsSafe(s, matches);
      } else {
        assert ([s[1]] + rest.kept)[1..] == rest.kept;
        assert Without(s, matches) == [s[1]] + Without(s[2..], matches);
        assert ([s[1]] + Without(s[2..], matches))[1..] == Without(s[2..], matches);
        SafeTail(s, matches);
        SafeTail(s[1..], matches);
      }
    }
  }

  lemma SafeTail<T(!new)>(s: seq<T>, matches: T -> bool)
    requires s != []
    ensures ClearIsSafe(s, matches) <==>
            ClearIsSafe(s[1..], matches) && (matches(s[0]) ==> |s| > 1 && !matches(s[1]))
  {
  }

  /** The length of the block of matches at the end. */
  function Trailing<T>(s: seq<T>, matches: T -> bool): nat {
    if s == [] || !matches(s[|s| - 1]) then 0 else 1 + Trailing(s[..|s| - 1], matches)
  }

  lemma {:induction false} TrailingOfTail<T(!new)>(s: seq<T>, matches: T -> bool)
    requires s != []
    ensures Trailing(s[1..], matches) < |s|
    ensures Trailing(s, matches) ==
            Trailing(s[1..], matches) + if Trailing(s[1..], matches) == |s| - 1 && matches(s[0]) then 1 else 0
    decreases |s|
  {
    var n := |s| - 1;
    if n > 0 && matches(s[n]) {
      TrailingOfTail(s[..n], matches);
      assert s[1..][..n - 1] == s[..n][1..];
    } else if n == 0 {
      assert s[..0] == [];
    }
  }

  /** The loop stays inside the list if and only if the number of matches at its very end is even. */
  lemma {:induction false} ClearSkippingIsDefinedIff<T(!new)>(s: seq<T>, matches: T -> bool)
    ensures ClearSkipping(s, matches).defined <==> Trailing(s, matches) % 2 == 0
  {
    if s != [] {
      TrailingOfTail(s, matches);
      if !matches(s[0]) {
        ClearSkippingIsDefinedIff(s[1..], matches);
      } else if |s| > 1 {
        assert s[1..][1..] == s[2..];
        TrailingOfTail(s[1..], matches);
        ClearSkippingIsDefinedIff(s[2..], matches);
      }
    }
  }

  /** How many matches stand directly before position i, when some stand directly before the list. */
  function Offset<T>(before: nat, s: seq<T>, matches: T -> bool, i: nat): nat
    requires i < |s|
  {
    if i == 0 then before else if matches(s[i - 1]) then 1 + Offset(before, s, matches, i - 1) else 0
  }

  /** The loop leaves the element at position i: it is no match, or at an odd offset in its block of matches. */
  predicate Survives<T>(before: nat, s: seq<T>, matches: T -> bool, i: nat)
    requires i < |s|
  {
    !matches(s[i]) || Offset(before, s, matches, i) % 2 == 1
  }

  lemma {:induction false} OffsetInTail<T(!new)>(before: nat, s: seq<T>, matches: T -> bool, i: nat)
    requires 0 < i < |s|
    ensures Offset(before, s, matches, i) == Offset(if matches(s[0]) then before + 1 else 0, s[1..], matches, i - 1)
    decreases i
  {
    if i > 1 {
      OffsetInTail(before, s, matches, i - 1);
    }
  }

  /** The elements at the positions that survive. */
  function Survivors<T>(before: nat, s: seq<T>, matches: T -> bool): seq<T>
    decreases |s|
  {
    if s == [] then []
    else
      (if Survives(before, s, matches, 0) then [s[0]] else [])
      + Survivors(if matches(s[0]) then before + 1 else 0, s[1..], matches)
  }

  /** Of every block of adjacent matches the loop erases the first, the third and so on. */
  lemma {:induction false} ClearSkippingLeavesSurvivors<T(!new)>(before: nat, s: seq<T>, matches: T -> bool)
    requires before % 2 == 0
    ensures ClearSkipping(s, matches).kept == Survivors(before, s, matches)
    decreases |s|
  {
    if s != [] {
      if !matches(s[0]) {
        ClearSkippingLeavesSurvivors(0, s[1..], matches);
      } else if |s| > 1 {
        assert s[1..][1..] == s[2..];
        ClearSkippingLeavesSurvivors(if matches(s[1]) then before + 2 else 0, s[2..], matches);
      }
    }
  }

  lemma {:induction false} SurvivorsByPosition<T(!new)>(before: nat, s: seq<T>, matches: T -> bool, x: T)
    ensures x in Survivors(before, s, matches) <==>
            exists i :: 0 <= i < |s| && s[i] == x && Survives(before, s, matches, i)
    decreases |s|
  {
    if s != [] {
      var next := if matches(s[0]) then before + 1 else 0;
      SurvivorsByPosition(next, s[1..], matches, x);
      forall i | 0 < i < |s| ensures Survives(before, s, matches, i) == Survives(next, s[1..], matches, i - 1) {
        OffsetInTail(before, s, matches, i);
      }
      if i :| 0 <= i < |s[1..]| && s[1..][i] == x && Survives(next, s[1..], matches, i) {
        assert s[i + 1] == x && Survives(before, s, matches, i + 1);
      }
      if i :| 0 <= i < |s| && s[i] == x && Survives(before, s, matches, i) {
        assert i > 0 ==> s[1..][i - 1] == x && Survives(next, s[1..], matches, i - 1);
      }
    }
  }

  /** What the loop leaves are exactly the elements that do not match and, of each block of adjacent matches, those
      at odd offsets. */
  lemma BlocksLoseEveryOther<T(!new)>(s: seq<T>, matches: T -> bool, x: T)
    ensures x in ClearSkipping(s, matches).kept <==>
            exists i :: 0 <= i < |s| && s[i] == x && Survives(0, s, matches, i)
  {
    ClearSkippingLeavesSurvivors(0, s, matches);
    SurvivorsByPosition(0, s, matches, x);
  }

  /** Whatever the loop leaves behind has lost only matches, and is shorter exactly when there was a match. */
  lemma {:induction false} ClearSkippingContents<T(!new)>(s: seq<T>, matches: T -> bool)
    ensures forall x :: x in ClearSkipping(s, matches).kept ==> x in s
    ensures forall x :: x in s && !matches(x) ==> x in ClearSkipping(s, matches).kept
    ensures |ClearSkipping(s, matches).kept| <= |s|
    ensures |ClearSkipping(s, matches).kept| < |s| <==> exists x :: x in s && matches(x)
  {
    if s != [] {
      var n := if matches(s[0]) && |s| > 1 then 2 else 1;
      ClearSkippingContents(s[n..], matches);
      assert s == s[..n] + s[n..];
      assert matches(s[0]) ==> exists x :: x in s && matches(x);
    }
  }

  lemma {:induction false} ClearSkippingIsSorted<T(!new)>(less: (T, T) -> bool, s: seq<T>, matches: T -> bool)
    requires Sorted(less, s)
    ensures Sorted(less, ClearSkipping(s, matches).kept)
  {
    if s != [] && !(matches(s[0]) && |s| == 1) {
      var n := if matches(s[0]) then 2 else 1;
      var rest := ClearSkipping(s[n..], matches).kept;
      ClearSkippingIsSorted(less, s[n..], matches);
      ClearSkippingContents(s[n..], matches);
      forall j | 0 <= j < |rest| ensures less(s[n - 1], rest[j]) {
        assert rest[j] in s[n..];
        var k :| 0 <= k < |s[n..]| && s[n..][k] == rest[j];
        assert s[n..][k] == s[n + k];
      }
      HeadThenRestIsSorted(less, s[n - 1], rest);
    }
  }

  lemma HeadThenRestIsSorted<T>(less: (T, T) -> bool, x: T, s: seq<T>)
    requires Sorted(less, s) && forall j :: 0 <= j < |s| ==> less(x, s[j])
    ensures Sorted(less, [x] + s)
  {
  }

  /** Filtering keeps a list sorted. */
  lemma {:induction false} WithoutIsSorted<T(!new)>(less: (T, T) -> bool, s: seq<T>, matches: T -> bool)
    requires Sorted(less, s)
    ensures Sorted(less, Without(s, matches))
  {
    if s != [] {
      WithoutIsSorted(less, s[1..], matches);
      WithoutContents(s[1..], matches);
      var rest := Without(s[1..], matches);
      forall j | 0 <= j < |rest| ensures less(s[0], rest[j]) {
        assert rest[j] in s[1..];
        var k :| 0 <= k < |s[1..]| && s[1..][k] == rest[j];
        assert s[1..][k] == s[k + 1];
      }
      HeadThenRestIsSorted(less, s[0], rest);
    }
  }
}
