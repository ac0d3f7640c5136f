/** The display order of the "My Trips" list: the `.sort` comparator
    (frontend/screens/MySessions.js, lines 53-61), the in-place sort itself, and the
    in-place `reverse()` the list applies before rendering (line 107). */
module SessionOrder {
  import opened SessionRecords

  /** `a` belongs strictly before `b` in ascending order: a non-active session before an
      active one, an earlier start among active ones, an earlier end among the others. */
  predicate Precedes(a: Session, b: Session) {
    || (!IsActive(a) && IsActive(b))
    || (IsActive(a) && IsActive(b) && a.startDate < b.startDate)
    || (!IsActive(a) && !IsActive(b) && a.endDate < b.endDate)
  }

  /** The comparator handed to `.sort`: a negative result puts `a` first. Active
      sessions go last; two active sessions compare by start, any other two by end. */
  function Compare(a: Session, b: Session): (r: int)
    ensures r < 0 <==> Precedes(a, b)
    ensures r > 0 <==> Precedes(b, a)
  {
    if IsActive(a) && !IsActive(b) then 1
    else if !IsActive(a) && IsActive(b) then -1
    else if IsActive(a) && IsActive(b) then a.startDate - b.startDate
    else a.endDate - b.endDate
  }

  /** `a` may stand before `b` in the sorted array. */
  predicate Le(a: Session, b: Session) {
    Compare(a, b) <= 0
  }

  lemma CompareAntisymmetric(a: Session, b: Session)
    ensures Compare(a, b) == -Compare(b, a)
  {
  }

  lemma CompareReflexive(a: Session)
    ensures Compare(a, a) == 0
  {
  }

  lemma LeTotal(a: Session, b: Session)
    ensures Le(a, b) || Le(b, a)
  {
  }

  lemma LeTransitive(a: Session, b: Session, c: Session)
    requires Le(a, b) && Le(b, c)
    ensures Le(a, c)
  {
  }

  /** Two sessions the comparator ranks equal keep the same status class and the same key. */
  lemma CompareZero(a: Session, b: Session)
    requires Compare(a, b) == 0
    ensures IsActive(a) <==> IsActive(b)
    ensures IsActive(a) ==> a.startDate == b.startDate
    ensures !IsActive(a) ==> a.endDate == b.endDate
  {
  }

  /** Ascending order under the comparator: what `.sort` promises about its result. */
  ghost predicate Sorted(s: seq<Session>) {
    forall i, j :: 0 <= i < j < |s| ==> Le(s[i], s[j])
  }

  function Reversed<T>(s: seq<T>): (r: seq<T>)
    ensures |r| == |s|
    ensures forall k :: 0 <= k < |s| ==> r[k] == s[|s| - 1 - k]
  {
    if s == [] then [] else Reversed(s[1..]) + [s[0]]
  }

  /** Reversal drops and adds nothing. */
  lemma {:induction false} ReversedPermutes<T>(s: seq<T>)
    ensures multiset(Reversed(s)) == multiset(s)
  {
    if s != [] {
      ReversedPermutes(s[1..]);
      assert s == [s[0]] + s[1..];
    }
  }

  /** Reversing twice restores the order. Since each render reverses the state array in
      place, a second render puts it back in sorted order: consecutive renders flip the
      displayed order. */
  lemma ReversedInvolutive<T>(s: seq<T>)
    ensures Reversed(Reversed(s)) == s
  {
    var r := Reversed(Reversed(s));
    assert |r| == |s|;
    forall k | 0 <= k < |s| ensures r[k] == s[k] {
    }
  }

  /** The order the user sees, stated directly: active sessions first, active sessions by
      latest start first, the others by latest end first. */
  predicate DisplayBefore(x: Session, y: Session) {
    && (IsActive(y) ==> IsActive(x))
    && (IsActive(x) && IsActive(y) ==> x.startDate >= y.startDate)
    && (!IsActive(x) && !IsActive(y) ==> x.endDate >= y.endDate)
  }

  ghost predicate DisplayOrdered(d: seq<Session>) {
    forall i, j :: 0 <= i < j < |d| ==> DisplayBefore(d[i], d[j])
  }

  /** The display relation is exactly the comparator read backwards. */
  lemma DisplayBeforeIsReversedLe(x: Session, y: Session)
    ensures DisplayBefore(x, y) <==> Le(y, x)
  {
  }

  /** Sorting ascending and then reversing yields the direct display order, and only a
      sorted array reverses into it. */
  lemma SortedIffDisplayOrdered(s: seq<Session>)
    ensures Sorted(s) <==> DisplayOrdered(Reversed(s))
  {
    var d := Reversed(s);
    var n := |s|;
    if Sorted(s) {
      forall i, j | 0 <= i < j < n ensures DisplayBefore(d[i], d[j]) {
        assert Le(s[n - 1 - j], s[n - 1 - i]);
        DisplayBeforeIsReversedLe(d[i], d[j]);
      }
    }
    if DisplayOrdered(d) {
      forall i, j | 0 <= i < j < n ensures Le(s[i], s[j]) {
        assert DisplayBefore(d[n - 1 - j], d[n - 1 - i]);
        DisplayBeforeIsReversedLe(d[n - 1 - j], d[n - 1 - i]);
      }
    }
  }

  /** No two different records of `s` compare equal: the comparator decides every pair. */
  ghost predicate NoTies(s: seq<Session>) {
    forall i, j :: 0 <= i < |s| && 0 <= j < |s| && Compare(s[i], s[j]) == 0 ==> s[i] == s[j]
  }

  /** The first record of a sorted sequence may stand before any of its records. */
  lemma SortedHeadFirst(r: seq<Session>, y: Session)
    requires Sorted(r) && y in r
    ensures Le(r[0], y)
  {
    var k :| 0 <= k < |r| && r[k] == y;
    if k == 0 {
      CompareReflexive(y);
    }
  }

  /** Removing the same head from two equal multisets leaves equal multisets. */
  lemma TailsPermute(r1: seq<Session>, r2: seq<Session>)
    requires |r1| > 0 && |r2| > 0 && r1[0] == r2[0]
    requires multiset(r1) == multiset(r2)
    ensures multiset(r1[1..]) == multiset(r2[1..])
  {
    assert r1 == [r1[0]] + r1[1..];
    assert r2 == [r2[0]] + r2[1..];
    calc {
      multiset(r1[1..]);
      multiset(r1) - multiset{r1[0]};
      multiset(r2) - multiset{r2[0]};
      multiset(r2[1..]);
    }
  }

  /** Without ties, the sorted order of a set of records is unique, whatever algorithm sorts. */
  lemma {:induction false} SortedUnique(r1: seq<Session>, r2: seq<Session>)
    requires Sorted(r1) && Sorted(r2)
    requires multiset(r1) == multiset(r2)
    requires NoTies(r1)
    ensures r1 == r2
    decreases |r1|
  {
    assert |r1| == |multiset(r1)| == |multiset(r2)| == |r2|;
    if |r1| > 0 {
      var x, y := r1[0], r2[0];
      assert y in multiset(r1) && x in multiset(r2);
      SortedHeadFirst(r1, y);
      SortedHeadFirst(r2, x);
      CompareAntisymmetric(x, y);
      var k :| 0 <= k < |r1| && r1[k] == y;
      assert Compare(r1[0], r1[k]) == 0;
      TailsPermute(r1, r2);
      SortedUnique(r1[1..], r2[1..]);
      assert r1 == [x] + r1[1..];
      assert r2 == [y] + r2[1..];
    }
  }

  // The worked example of the screen's ordering policy: A and B are active (A started at
  // 10:00, B at 9:00 the same day), C and D are completed (C ended on Monday, D on Tuesday).
  // Instants are milliseconds since the epoch, in January 2024.
  const ExampleA: Session := SessionOf("a.png", 1704276000000, 0, "ACTIVE", 0, map[])
  const ExampleB: Session := SessionOf("b.png", 1704272400000, 0, "ACTIVE", 1, map[])
  const ExampleC: Session := SessionOf("c.png", 1704096000000, 1704103200000, "COMPLETED", 2, map[])
  const ExampleD: Session := SessionOf("d.png", 1704182400000, 1704189600000, "COMPLETED", 3, map[])

  /** The example in ascending comparator order. */
  const ExampleAscending: seq<Session> := [ExampleC, ExampleD, ExampleB, ExampleA]

  /** The ascending order of the example is sorted and free of ties. */
  lemma ExampleAscendingSorted()
    ensures Sorted(ExampleAscending) && NoTies(ExampleAscending)
  {
    var r := ExampleAscending;
    forall i, j | 0 <= i < j < 4 ensures Compare(r[i], r[j]) < 0 {
      assert i == 0 || i == 1 || i == 2;
    }
    forall i, j | 0 <= i < 4 && 0 <= j < 4 && Compare(r[i], r[j]) == 0 ensures r[i] == r[j] {
      assert !(i < j) && !(j < i);
    }
  }

  lemma ExamplePermutes()
    ensures multiset(ExampleAscending) == multiset([ExampleA, ExampleB, ExampleC, ExampleD])
  {
    var r := ExampleAscending;
    var a, b, c, d := ExampleA, ExampleB, ExampleC, ExampleD;
    calc {
      multiset(r);
      multiset{c} + multiset{d} + multiset{b} + multiset{a};
      multiset{a} + multiset{b} + multiset{c} + multiset{d};
      multiset([a, b, c, d]);
    }
  }

  /** However the engine sorts the example, the user sees A, B, D, C. */
  lemma ExampleDisplayOrder(r: seq<Session>)
    requires Sorted(r)
    requires multiset(r) == multiset([ExampleA, ExampleB, ExampleC, ExampleD])
    ensures Reversed(r) == [ExampleA, ExampleB, ExampleD, ExampleC]
  {
    ExampleAscendingSorted();
    ExamplePermutes();
    SortedUnique(ExampleAscending, r);
    var d := Reversed(r);
    assert d[0] == ExampleA && d[1] == ExampleB && d[2] == ExampleD && d[3] == ExampleC;
  }

  /** Sorts `a` in place with the comparator (insertion sort, stable like the engine's sort). */
  method SortInPlace(a: array<Session>)
    modifies a
    ensures Sorted(a[..])
    ensures multiset(a[..]) == old(multiset(a[..]))
  {
    var i := 0;
    while i < a.Length
      invariant 0 <= i <= a.Length
      invariant forall k, l :: 0 <= k < l < i ==> Le(a[k], a[l])
      invariant multiset(a[..]) == old(multiset(a[..]))
    {
      InsertInto(a, i);
      i := i + 1;
    }
  }

  /** One insertion step: moves `a[i]` left past every record it strictly precedes, so that
      the first `i + 1` records are sorted. */
  method InsertInto(a: array<Session>, i: nat)
    requires i < a.Length
    requires forall k, l :: 0 <= k < l < i ==> Le(a[k], a[l])
    modifies a
    ensures forall k, l :: 0 <= k < l <= i ==> Le(a[k], a[l])
    ensures multiset(a[..]) == old(multiset(a[..]))
    ensures a[i + 1..] == old(a[i + 1..])
  {
    var j := i;
    while j > 0 && Compare(a[j - 1], a[j]) > 0
      invariant 0 <= j <= i
      invariant forall k, l :: 0 <= k < l <= i && k != j && l != j ==> Le(a[k], a[l])
      invariant forall l :: j < l <= i ==> Le(a[j], a[l])
      invariant multiset(a[..]) == old(multiset(a[..]))
      invariant a[i + 1..] == old(a[i + 1..])
    {
      CompareAntisymmetric(a[j - 1], a[j]);
      a[j - 1], a[j] := a[j], a[j - 1];
      j := j - 1;
    }
    forall k | 0 <= k < j ensures Le(a[k], a[j]) {
      if k < j - 1 {
        LeTransitive(a[k], a[j - 1], a[j]);
      }
    }
  }

  /** `array.reverse()`: reverses `a` in place. */
  method ReverseInPlace(a: array<Session>)
    modifies a
    ensures a[..] == Reversed(old(a[..]))
  {
    var lo, hi := 0, a.Length;
    while lo + 1 < hi
      invariant 0 <= lo && lo + hi == a.Length && lo <= hi + 1
      invariant forall k :: 0 <= k < lo ==> a[k] == old(a[a.Length - 1 - k])
      invariant forall k :: hi <= k < a.Length ==> a[k] == old(a[a.Length - 1 - k])
      invariant forall k :: lo <= k < hi ==> a[k] == old(a[k])
    {
      a[lo], a[hi - 1] := a[hi - 1], a[lo];
      lo, hi := lo + 1, hi - 1;
    }
    assert a[..] == Reversed(old(a[..]));
  }
}
