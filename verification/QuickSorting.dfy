/** Quick sort with unguarded scans, and insertion sort for short ranges. */
module QuickSorting {
  import opened Orders
  import opened Ranges

  ghost predicate SortedIn<T>(lt: (T, T) -> bool, s: seq<T>, first: nat, last: nat) {
    last <= |s| && forall i, j | first <= i < j < last :: !lt(s[j], s[i])
  }

  // No element of the range comes before x; none comes after it.
  ghost predicate NoneBefore<T>(lt: (T, T) -> bool, s: seq<T>, first: nat, last: nat, x: T) {
    last <= |s| && forall k | first <= k < last :: !lt(s[k], x)
  }

  ghost predicate NoneAfter<T>(lt: (T, T) -> bool, s: seq<T>, first: nat, last: nat, x: T) {
    last <= |s| && forall k | first <= k < last :: !lt(x, s[k])
  }

  // ----- insertion sort

  // The array as it is when temp fills the hole at p1: sorted up to current except at p1,
  // and temp before everything that was moved up.
  ghost predicate Inserting<T>(lt: (T, T) -> bool, s: seq<T>, first: nat, current: nat, p1: nat) {
    first <= p1 <= current < |s|
    && (forall i, j | first <= i < j <= current && i != p1 && j != p1 :: !lt(s[j], s[i]))
    && (forall k | p1 < k <= current :: lt(s[p1], s[k]))
  }

  lemma {:induction false} InsertingLower<T(!new)>(lt: (T, T) -> bool, s: seq<T>, first: nat, current: nat, p1: nat)
    requires StrictWeakOrder(lt) && Inserting(lt, s, first, current, p1) && p1 > first && lt(s[p1], s[p1 - 1])
    ensures Inserting(lt, Swapped(s, p1, p1 - 1), first, current, p1 - 1)
  {
  }

  lemma {:induction false} InsertingDone<T(!new)>(lt: (T, T) -> bool, s: seq<T>, first: nat, current: nat, p1: nat)
    requires StrictWeakOrder(lt) && Inserting(lt, s, first, current, p1) && (p1 > first ==> !lt(s[p1], s[p1 - 1]))
    ensures SortedIn(lt, s, first, current + 1)
  {
    forall i, j | first <= i < j < current + 1 ensures !lt(s[j], s[i]) {
      if j == p1 && i < p1 - 1 {
        assert !lt(s[p1 - 1], s[i]);
      }
    }
  }

  // `now` is the array, `filled` the array with temp in the hole.
  ghost predicate Hole<T>(lt: (T, T) -> bool, was: seq<T>, now: seq<T>, filled: seq<T>, temp: T, first: nat,
                          current: nat, p1: nat)
  {
    Inserting(lt, filled, first, current, p1) && Rearranged(was, filled, first, current + 1)
    && |now| == |filled| && filled[p1] == temp && now[p1 := temp] == filled
  }

  lemma {:induction false} HoleLower<T(!new)>(lt: (T, T) -> bool, was: seq<T>, now: seq<T>, filled: seq<T>, temp: T,
                                              first: nat, current: nat, p1: nat)
    requires StrictWeakOrder(lt) && Hole(lt, was, now, filled, temp, first, current, p1) && p1 > first
    requires lt(temp, now[p1 - 1])
    ensures Hole(lt, was, now[p1 := now[p1 - 1]], Swapped(filled, p1, p1 - 1), temp, first, current, p1 - 1)
  {
    assert filled[p1 - 1] == now[p1 := temp][p1 - 1];
    InsertingLower(lt, filled, first, current, p1);
    SwappedRearranged(filled, p1, p1 - 1, first, current + 1);
    RearrangedTwice(was, filled, Swapped(filled, p1, p1 - 1), first, current + 1);
    assert now[p1 := now[p1 - 1]][p1 - 1 := temp] == Swapped(filled, p1, p1 - 1);
  }

  lemma {:induction false} HoleAtEnd<T>(lt: (T, T) -> bool, s: seq<T>, first: nat, current: nat)
    requires first <= current < |s| && SortedIn(lt, s, first, current)
    ensures Hole(lt, s, s, s, s[current], first, current, current)
  {
    assert s[current := s[current]] == s;
  }

  method Insert<T(!new)>(a: array<T>, first: nat, current: nat, comp: (T, T) -> bool)
    requires StrictWeakOrder(comp) && first < current < a.Length && SortedIn(comp, a[..], first, current)
    modifies a
    ensures SortedIn(comp, a[..], first, current + 1) && Rearranged(old(a[..]), a[..], first, current + 1)
  {
    ghost var was, filled := a[..], a[..];
    var temp := a[current];
    var p1, p2 := current, current - 1;
    HoleAtEnd(comp, was, first, current);
    while comp(temp, a[p2])
      invariant first <= p2 < p1 <= current && p2 == p1 - 1
      invariant Hole(comp, was, a[..], filled, temp, first, current, p1)
      decreases p1
    {
      HoleLower(comp, was, a[..], filled, temp, first, current, p1);
      filled := Swapped(filled, p1, p2);
      a[p1] := a[p2];
      if p2 == first {
        p1 := p1 - 1;
        break;
      }
      p1 := p1 - 1;
      p2 := p2 - 1;
    }
    assert p1 > first ==> filled[p1 - 1] == a[..][p1 := temp][p1 - 1];
    InsertingDone(comp, filled, first, current, p1);
    a[p1] := temp;
  }

  method InsertionSort<T(!new)>(a: array<T>, first: nat, last: nat, comp: (T, T) -> bool)
    requires StrictWeakOrder(comp) && first <= last <= a.Length
    modifies a
    ensures SortedIn(comp, a[..], first, last) && Rearranged(old(a[..]), a[..], first, last)
  {
    if first == last {
      return;
    }
    var current := first + 1;
    while current != last
      invariant first < current <= last && SortedIn(comp, a[..], first, current)
      invariant Rearranged(old(a[..]), a[..], first, last)
      decreases last - current
    {
      ghost var was := a[..];
      Insert(a, first, current, comp);
      RearrangedWider(was, a[..], first, current + 1, first, last);
      RearrangedTwice(old(a[..]), was, a[..], first, last);
      current := current + 1;
    }
  }

  // ----- the pivot

  // The two ends hold what stops the scans: nothing after the pivot on the left, nothing
  // before it on the right, and the pivot itself next to the right end.
  ghost predicate Guarded<T>(lt: (T, T) -> bool, s: seq<T>, left: nat, right: nat) {
    left + 1 < right < |s| && !lt(s[right - 1], s[left]) && !lt(s[right], s[right - 1])
  }

  // Two places put in order.
  function Ordered<T>(lt: (T, T) -> bool, s: seq<T>, i: nat, j: nat): (r: seq<T>)
    requires i < |s| && j < |s|
    ensures |r| == |s|
  {
    if lt(s[j], s[i]) then Swapped(s, i, j) else s
  }

  function MedianOrdered<T>(lt: (T, T) -> bool, s: seq<T>, left: nat, middle: nat, right: nat): (r: seq<T>)
    requires left < |s| && middle < |s| && right < |s|
    ensures |r| == |s|
  {
    Ordered(lt, Ordered(lt, Ordered(lt, s, left, middle), left, right), middle, right)
  }

  lemma {:induction false} MedianInMiddle<T(!new)>(lt: (T, T) -> bool, s: seq<T>, left: nat, middle: nat, right: nat)
    requires StrictWeakOrder(lt) && left < middle < right < |s|
    ensures var t := MedianOrdered(lt, s, left, middle, right); !lt(t[middle], t[left]) && !lt(t[right], t[middle])
  {
  }

  lemma {:induction false} OrderedRearranged<T>(lt: (T, T) -> bool, s: seq<T>, t: seq<T>, i: nat, j: nat, first: nat,
                                                last: nat)
    requires first <= i < last && first <= j < last && Rearranged(s, t, first, last)
    ensures Rearranged(s, Ordered(lt, t, i, j), first, last)
  {
    SwappedRearranged(t, i, j, first, last);
    if lt(t[j], t[i]) {
      RearrangedTwice(s, t, Swapped(t, i, j), first, last);
    }
  }

  lemma {:induction false} MedianRearranged<T>(lt: (T, T) -> bool, s: seq<T>, left: nat, middle: nat, right: nat)
    requires left < middle < right < |s|
    ensures Rearranged(s, MedianOrdered(lt, s, left, middle, right), left, right + 1)
  {
    var s1 := Ordered(lt, s, left, middle);
    OrderedRearranged(lt, s, s, left, middle, left, right + 1);
    OrderedRearranged(lt, s, s1, left, right, left, right + 1);
    OrderedRearranged(lt, s, Ordered(lt, s1, left, right), middle, right, left, right + 1);
  }

  lemma {:induction false} MedianGuards<T(!new)>(lt: (T, T) -> bool, s: seq<T>, left: nat, middle: nat, right: nat)
    requires StrictWeakOrder(lt) && left < middle < right - 1 && right < |s|
    ensures var t := Swapped(MedianOrdered(lt, s, left, middle, right), middle, right - 1);
      Rearranged(s, t, left, right + 1) && Guarded(lt, t, left, right)
  {
    var ordered := MedianOrdered(lt, s, left, middle, right);
    MedianRearranged(lt, s, left, middle, right);
    MedianInMiddle(lt, s, left, middle, right);
    SwappedRearranged(ordered, middle, right - 1, left, right + 1);
    RearrangedTwice(s, ordered, Swapped(ordered, middle, right - 1), left, right + 1);
  }

  method Order<T>(a: array<T>, i: nat, j: nat, comp: (T, T) -> bool)
    requires i < a.Length && j < a.Length
    modifies a
    ensures a[..] == Ordered(comp, old(a[..]), i, j)
  {
    if comp(a[j], a[i]) {
      Swap(a, i, j);
    }
  }

  method Med3<T(!new)>(a: array<T>, left: nat, right: nat, comp: (T, T) -> bool) returns (pivot: T)
    requires StrictWeakOrder(comp) && left + 2 < right < a.Length
    modifies a
    ensures Rearranged(old(a[..]), a[..], left, right + 1) && Guarded(comp, a[..], left, right) && pivot == a[right - 1]
  {
    ghost var was := a[..];
    var middle := (left + right) / 2;
    assert left < middle < right - 1;
    Order(a, left, middle, comp);
    Order(a, left, right, comp);
    Order(a, middle, right, comp);
    Swap(a, middle, right - 1);
    pivot := a[right - 1];
    assert a[..] == Swapped(MedianOrdered(comp, was, left, middle, right), middle, right - 1);
    MedianGuards(comp, was, left, middle, right);
  }

  // ----- partition

  // The state of a partition between two exchanges.
  ghost predicate Split<T>(lt: (T, T) -> bool, s: seq<T>, left: nat, right: nat, i: nat, j: nat, pivot: T) {
    left + 1 < right < |s| && left <= i < j < right && s[right - 1] == pivot
    && NoneAfter(lt, s, left, i + 1, pivot) && NoneBefore(lt, s, j, right + 1, pivot)
  }

  // Where a pair of scans stopped.
  ghost predicate Stopped<T>(lt: (T, T) -> bool, s: seq<T>, left: nat, right: nat, i: nat, j: nat, pivot: T) {
    left < i < right < |s| && left <= j < right - 1 && s[right - 1] == pivot
    && NoneAfter(lt, s, left, i, pivot) && !lt(s[i], pivot) && NoneBefore(lt, s, j + 1, right + 1, pivot)
    && !lt(pivot, s[j])
  }

  // The scans need no bounds: the pivot stops the first, and what is at the left end the second.
  method Scan<T(!new)>(a: array<T>, left: nat, right: nat, i0: nat, j0: nat, pivot: T, comp: (T, T) -> bool)
    returns (i: nat, j: nat)
    requires StrictWeakOrder(comp) && right < a.Length && Split(comp, a[..], left, right, i0, j0, pivot)
    ensures i0 < i && j < j0 && Stopped(comp, a[..], left, right, i, j, pivot)
  {
    i := i0 + 1;
    while comp(a[i], pivot)
      invariant i0 < i < right && NoneAfter(comp, a[..], left, i, pivot)
      decreases right - i
    {
      i := i + 1;
    }
    j := j0 - 1;
    while comp(pivot, a[j])
      invariant left <= j < j0 && NoneBefore(comp, a[..], j + 1, right + 1, pivot)
      decreases j
    {
      j := j - 1;
    }
  }

  // Every element of the range is now on its side of the pivot.
  ghost predicate Parted<T>(lt: (T, T) -> bool, s: seq<T>, left: nat, right: nat, i: nat) {
    left < i < right < |s| && NoneAfter(lt, s, left, i, s[i]) && NoneBefore(lt, s, i + 1, right + 1, s[i])
  }

  lemma {:induction false} ExchangeKeepsSplit<T(!new)>(lt: (T, T) -> bool, s: seq<T>, left: nat, right: nat, i: nat,
                                                       j: nat, pivot: T)
    requires StrictWeakOrder(lt) && left < i < j < right - 1 && right < |s| && s[right - 1] == pivot
    requires NoneAfter(lt, s, left, i, pivot) && !lt(s[i], pivot) && NoneBefore(lt, s, j + 1, right + 1, pivot)
    requires !lt(pivot, s[j])
    ensures Split(lt, Swapped(s, i, j), left, right, i, j, pivot)
  {
  }

  lemma {:induction false} LastExchangeParts<T(!new)>(lt: (T, T) -> bool, s: seq<T>, left: nat, right: nat, i: nat,
                                                      j: nat, pivot: T)
    requires StrictWeakOrder(lt) && left < i < right < |s| && j <= i && s[right - 1] == pivot
    requires NoneAfter(lt, s, left, i, pivot) && !lt(s[i], pivot) && NoneBefore(lt, s, j + 1, right + 1, pivot)
    ensures Parted(lt, Swapped(s, i, right - 1), left, right, i)
  {
  }

  ghost predicate Partitioning<T>(lt: (T, T) -> bool, was: seq<T>, s: seq<T>, left: nat, right: nat, i: nat, j: nat,
                                  pivot: T)
  {
    Rearranged(was, s, left, right + 1) && Split(lt, s, left, right, i, j, pivot)
  }

  lemma {:induction false} Exchange<T(!new)>(lt: (T, T) -> bool, was: seq<T>, s: seq<T>, left: nat, right: nat, i: nat,
                                             j: nat, pivot: T)
    requires StrictWeakOrder(lt) && Rearranged(was, s, left, right + 1) && Stopped(lt, s, left, right, i, j, pivot)
    requires i < j
    ensures Partitioning(lt, was, Swapped(s, i, j), left, right, i, j, pivot)
  {
    ExchangeKeepsSplit(lt, s, left, right, i, j, pivot);
    SwappedRearranged(s, i, j, left, right + 1);
    RearrangedTwice(was, s, Swapped(s, i, j), left, right + 1);
  }

  lemma {:induction false} LastExchange<T(!new)>(lt: (T, T) -> bool, was: seq<T>, s: seq<T>, left: nat, right: nat,
                                                 i: nat, j: nat, pivot: T)
    requires StrictWeakOrder(lt) && Rearranged(was, s, left, right + 1) && Stopped(lt, s, left, right, i, j, pivot)
    requires j <= i
    ensures var t := Swapped(s, i, right - 1); Rearranged(was, t, left, right + 1) && Parted(lt, t, left, right, i)
  {
    LastExchangeParts(lt, s, left, right, i, j, pivot);
    SwappedRearranged(s, i, right - 1, left, right + 1);
    RearrangedTwice(was, s, Swapped(s, i, right - 1), left, right + 1);
  }

  // Pairs on the wrong sides are exchanged until the scans cross.
  method Cross<T(!new)>(a: array<T>, left: nat, right: nat, pivot: T, comp: (T, T) -> bool) returns (i: nat, j: nat)
    requires StrictWeakOrder(comp) && left + 2 < right < a.Length && Guarded(comp, a[..], left, right)
    requires pivot == a[right - 1]
    modifies a
    ensures Rearranged(old(a[..]), a[..], left, right + 1) && Stopped(comp, a[..], left, right, i, j, pivot) && j <= i
  {
    ghost var was := a[..];
    i, j := left, right - 1;
    while true
      invariant Partitioning(comp, was, a[..], left, right, i, j, pivot)
      decreases j - i
    {
      i, j := Scan(a, left, right, i, j, pivot, comp);
      if i >= j {
        break;
      }
      Exchange(comp, was, a[..], left, right, i, j, pivot);
      Swap(a, i, j);
    }
  }

  method Partition<T(!new)>(a: array<T>, left: nat, right: nat, comp: (T, T) -> bool) returns (i: nat)
    requires StrictWeakOrder(comp) && left + 2 < right < a.Length
    modifies a
    ensures Rearranged(old(a[..]), a[..], left, right + 1) && Parted(comp, a[..], left, right, i)
  {
    ghost var was := a[..];
    var pivot := Med3(a, left, right, comp);
    ghost var guarded := a[..];
    var j;
    i, j := Cross(a, left, right, pivot, comp);
    RearrangedTwice(was, guarded, a[..], left, right + 1);
    LastExchange(comp, was, a[..], left, right, i, j, pivot);
    Swap(a, i, right - 1);
  }

  // ----- the sort

  lemma {:induction false} NoneAfterKept<T>(lt: (T, T) -> bool, s: seq<T>, t: seq<T>, first: nat, last: nat, x: T)
    requires Rearranged(s, t, first, last) && NoneAfter(lt, s, first, last, x)
    ensures NoneAfter(lt, t, first, last, x)
  {
    forall k | first <= k < last ensures !lt(x, t[k]) {
      var m := RearrangedFrom(s, t, first, last, k);
    }
  }

  lemma {:induction false} NoneBeforeKept<T>(lt: (T, T) -> bool, s: seq<T>, t: seq<T>, first: nat, last: nat, x: T)
    requires Rearranged(s, t, first, last) && NoneBefore(lt, s, first, last, x)
    ensures NoneBefore(lt, t, first, last, x)
  {
    forall k | first <= k < last ensures !lt(t[k], x) {
      var m := RearrangedFrom(s, t, first, last, k);
    }
  }

  lemma {:induction false} SortedKept<T>(lt: (T, T) -> bool, s: seq<T>, t: seq<T>, first: nat, last: nat, from: nat,
                                         to: nat)
    requires Rearranged(s, t, first, last) && SortedIn(lt, s, from, to) && (to <= first || last <= from)
    ensures SortedIn(lt, t, from, to)
  {
    forall i, j | from <= i < j < to ensures !lt(t[j], t[i]) {
      RearrangedOutside(s, t, first, last, i);
      RearrangedOutside(s, t, first, last, j);
    }
  }

  // The left side sorted, with s1 then s2: the parts stay parted.
  lemma {:induction false} LeftSorted<T>(lt: (T, T) -> bool, s: seq<T>, t: seq<T>, left: nat, right: nat, i: nat)
    requires Parted(lt, s, left, right, i) && Rearranged(s, t, left, i)
    ensures Parted(lt, t, left, right, i)
  {
    NoneAfterKept(lt, s, t, left, i, s[i]);
    RearrangedOutside(s, t, left, i, i);
    forall k | i + 1 <= k < right + 1 ensures !lt(t[k], t[i]) {
      RearrangedOutside(s, t, left, i, k);
    }
  }

  lemma {:induction false} RightSorted<T>(lt: (T, T) -> bool, s: seq<T>, t: seq<T>, left: nat, right: nat, i: nat)
    requires Parted(lt, s, left, right, i) && Rearranged(s, t, i + 1, right + 1)
    ensures Parted(lt, t, left, right, i)
  {
    NoneBeforeKept(lt, s, t, i + 1, right + 1, s[i]);
    RearrangedOutside(s, t, i + 1, right + 1, i);
    forall k | left <= k < i ensures !lt(t[i], t[k]) {
      RearrangedOutside(s, t, i + 1, right + 1, k);
    }
  }

  lemma {:induction false} PartsSorted<T(!new)>(lt: (T, T) -> bool, s: seq<T>, left: nat, right: nat, i: nat)
    requires StrictWeakOrder(lt) && Parted(lt, s, left, right, i)
    requires SortedIn(lt, s, left, i) && SortedIn(lt, s, i + 1, right + 1)
    ensures SortedIn(lt, s, left, right + 1)
  {
    forall m, n | left <= m < n < right + 1 ensures !lt(s[n], s[m]) {
      if m < i < n {
        assert !lt(s[i], s[m]) && !lt(s[n], s[i]);
      }
    }
  }

  // Both recursive ranges are strictly inside, whatever the comparison says.
  method QuickSort<T(!new)>(a: array<T>, left: nat, right: int, comp: (T, T) -> bool)
    requires StrictWeakOrder(comp) && left <= right + 1 <= a.Length
    modifies a
    ensures SortedIn(comp, a[..], left, right + 1) && Rearranged(old(a[..]), a[..], left, right + 1)
    decreases right - left + 1
  {
    if right - left < 10 {
      InsertionSort(a, left, right + 1, comp);
    } else {
      ghost var s0 := a[..];
      var i := Partition(a, left, right, comp);
      ghost var s1 := a[..];
      QuickSort(a, left, i - 1, comp);
      ghost var s2 := a[..];
      QuickSort(a, i + 1, right, comp);
      HalvesSorted(comp, s0, s1, s2, a[..], left, right, i);
    }
  }

  // What sorting the two sides in turn makes of the range.
  lemma {:induction false} HalvesSorted<T(!new)>(lt: (T, T) -> bool, s0: seq<T>, s1: seq<T>, s2: seq<T>, s3: seq<T>,
                                                 left: nat, right: nat, i: nat)
    requires StrictWeakOrder(lt) && Rearranged(s0, s1, left, right + 1) && Parted(lt, s1, left, right, i)
    requires Rearranged(s1, s2, left, i) && SortedIn(lt, s2, left, i)
    requires Rearranged(s2, s3, i + 1, right + 1) && SortedIn(lt, s3, i + 1, right + 1)
    ensures SortedIn(lt, s3, left, right + 1) && Rearranged(s0, s3, left, right + 1)
  {
    LeftSorted(lt, s1, s2, left, right, i);
    RearrangedWider(s1, s2, left, i, left, right + 1);
    RightSorted(lt, s2, s3, left, right, i);
    RearrangedWider(s2, s3, i + 1, right + 1, left, right + 1);
    RearrangedTwice(s0, s1, s2, left, right + 1);
    RearrangedTwice(s0, s2, s3, left, right + 1);
    SortedKept(lt, s2, s3, i + 1, right + 1, left, i);
    PartsSorted(lt, s3, left, right, i);
  }

  // A range is sorted, its elements kept, and everything outside is as it was.
  method Sort<T(!new)>(a: array<T>, first: nat, last: nat, comp: (T, T) -> bool)
    requires StrictWeakOrder(comp) && first <= last <= a.Length
    modifies a
    ensures SortedIn(comp, a[..], first, last) && Rearranged(old(a[..]), a[..], first, last)
  {
    if first == last {
      return;
    }
    QuickSort(a, first, last - 1, comp);
  }
}
