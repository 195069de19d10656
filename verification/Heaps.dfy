/** Heaps in the first n places of an array, and searching a sorted range. */
module Heaps {
  import opened Orders
  import opened Ranges
  import opened QuickSorting

  function Parent(k: nat): (p: nat)
    requires k > 0
    ensures p < k
  {
    (k - 1) / 2
  }

  // An element does not come after its parent.
  predicate InPlace<T>(lt: (T, T) -> bool, s: seq<T>, k: nat)
    requires k < |s|
  {
    k > 0 ==> !lt(s[Parent(k)], s[k])
  }

  // Every element whose parent is at m or beyond is in place; a heap when m is 0.
  ghost predicate HeapFrom<T>(lt: (T, T) -> bool, s: seq<T>, n: nat, m: nat) {
    n <= |s| && forall k | 0 < k < n && Parent(k) >= m :: InPlace(lt, s, k)
  }

  // The same, except that the element at index may come before its children, which are
  // still in order with its parent.
  ghost predicate BrokenAt<T>(lt: (T, T) -> bool, s: seq<T>, n: nat, m: nat, index: nat) {
    m <= index < n <= |s|
    && (forall k | 0 < k < n && Parent(k) >= m && Parent(k) != index :: InPlace(lt, s, k))
    && (forall k | 0 < k < n && Parent(k) == index && index > 0 && Parent(index) >= m :: !lt(s[Parent(index)], s[k]))
  }

  // The latest of an element and its children.
  ghost predicate Latest<T>(lt: (T, T) -> bool, s: seq<T>, n: nat, index: nat, latest: nat) {
    index <= latest < n <= |s| && (latest == index || (Parent(latest) == index && lt(s[index], s[latest])))
    && forall k | 0 < k < n && Parent(k) == index :: !lt(s[latest], s[k])
  }

  lemma {:induction false} SinkStep<T(!new)>(lt: (T, T) -> bool, s: seq<T>, n: nat, m: nat, index: nat, latest: nat)
    requires StrictWeakOrder(lt) && BrokenAt(lt, s, n, m, index) && Latest(lt, s, n, index, latest) && latest != index
    ensures BrokenAt(lt, Swapped(s, index, latest), n, m, latest)
  {
    var t := Swapped(s, index, latest);
    forall k | 0 < k < n && Parent(k) >= m && Parent(k) != latest ensures InPlace(lt, t, k) {
      if k != latest && Parent(k) != index {
        assert InPlace(lt, s, k);
      }
    }
    forall k | 0 < k < n && Parent(k) == latest ensures !lt(t[Parent(latest)], t[k]) {
      assert InPlace(lt, s, k);
    }
  }

  // A broken root is repaired, whatever the rest of the array is like before m.
  method Heapify<T(!new)>(a: array<T>, n: nat, index: nat, ghost m: nat, comp: (T, T) -> bool)
    requires StrictWeakOrder(comp) && n <= a.Length && BrokenAt(comp, a[..], n, m, index)
    modifies a
    ensures HeapFrom(comp, a[..], n, m) && Rearranged(old(a[..]), a[..], index, n)
    decreases n - index
  {
    var L, R := 2 * index + 1, 2 * index + 2;
    var latest := index;
    if L < n && comp(a[latest], a[L]) {
      latest := L;
    }
    if R < n && comp(a[latest], a[R]) {
      latest := R;
    }
    ghost var s := a[..];
    assert forall k | 0 < k < n && Parent(k) == index :: k == L || k == R;
    assert Latest(comp, s, n, index, latest);
    if latest != index {
      SinkStep(comp, s, n, m, index, latest);
      SwappedRearranged(s, index, latest, index, n);
      Swap(a, index, latest);
      ghost var t := a[..];
      Heapify(a, n, latest, m, comp);
      RearrangedWider(t, a[..], latest, n, index, n);
      RearrangedTwice(s, t, a[..], index, n);
    }
  }

  // ----- adding the last element

  // A heap except that the element at index may come after its parent.
  ghost predicate RisingAt<T>(lt: (T, T) -> bool, s: seq<T>, n: nat, index: nat) {
    index < n <= |s|
    && (forall k | 0 < k < n && k != index :: InPlace(lt, s, k))
    && (forall k | 0 < k < n && Parent(k) == index && index > 0 :: !lt(s[Parent(index)], s[k]))
  }

  lemma {:induction false} RiseStep<T(!new)>(lt: (T, T) -> bool, s: seq<T>, n: nat, index: nat)
    requires StrictWeakOrder(lt) && RisingAt(lt, s, n, index) && index > 0 && lt(s[Parent(index)], s[index])
    ensures RisingAt(lt, Swapped(s, Parent(index), index), n, Parent(index))
  {
    var p := Parent(index);
    var t := Swapped(s, p, index);
    forall k | 0 < k < n && k != p ensures InPlace(lt, t, k) {
      if k != index {
        assert InPlace(lt, s, k);
      }
    }
    forall k | 0 < k < n && Parent(k) == p && p > 0 ensures !lt(t[Parent(p)], t[k]) {
      assert InPlace(lt, s, p);
      if k != index {
        assert InPlace(lt, s, k);
      }
    }
  }

  // The last element joins the heap before it; on an empty range the source throws.
  method PushHeap<T(!new)>(a: array<T>, n: nat, comp: (T, T) -> bool) returns (ok: bool)
    requires StrictWeakOrder(comp) && n <= a.Length && (n > 0 ==> HeapFrom(comp, a[..], n - 1, 0))
    modifies a
    ensures ok == (n > 0) && HeapFrom(comp, a[..], n, 0) && Rearranged(old(a[..]), a[..], 0, n)
  {
    if n == 0 {
      return false;
    }
    var index: nat := n - 1;
    while index > 0 && comp(a[Parent(index)], a[index])
      invariant RisingAt(comp, a[..], n, index) && Rearranged(old(a[..]), a[..], 0, n)
      decreases index
    {
      ghost var s := a[..];
      RiseStep(comp, s, n, index);
      SwappedRearranged(s, Parent(index), index, 0, n);
      Swap(a, Parent(index), index);
      RearrangedTwice(old(a[..]), s, a[..], 0, n);
      index := Parent(index);
    }
    ok := true;
  }

  // ----- taking the first element

  lemma {:induction false} RootLast<T(!new)>(lt: (T, T) -> bool, s: seq<T>, n: nat, k: nat)
    requires StrictWeakOrder(lt) && HeapFrom(lt, s, n, 0) && k < n
    ensures !lt(s[0], s[k])
    decreases k
  {
    if k > 0 {
      RootLast(lt, s, n, Parent(k));
      assert InPlace(lt, s, k);
    }
  }

  lemma {:induction false} RootTaken<T(!new)>(lt: (T, T) -> bool, s: seq<T>, n: nat)
    requires StrictWeakOrder(lt) && HeapFrom(lt, s, n, 0) && n > 1
    ensures BrokenAt(lt, Swapped(s, 0, n - 1), n - 1, 0, 0) && NoneAfter(lt, Swapped(s, 0, n - 1), 0, n, s[0])
  {
    var t := Swapped(s, 0, n - 1);
    forall k | 0 < k < n - 1 && Parent(k) != 0 ensures InPlace(lt, t, k) {
      assert InPlace(lt, s, k);
    }
    forall k | 0 <= k < n ensures !lt(s[0], t[k]) {
      RootLast(lt, s, n, k);
      RootLast(lt, s, n, n - 1);
    }
  }

  // A last element moves to the end and the rest is a heap again.
  method TakeRoot<T(!new)>(a: array<T>, n: nat, comp: (T, T) -> bool)
    requires StrictWeakOrder(comp) && 1 < n <= a.Length && HeapFrom(comp, a[..], n, 0)
    modifies a
    ensures HeapFrom(comp, a[..], n - 1, 0) && Rearranged(old(a[..]), a[..], 0, n)
    ensures NoneAfter(comp, a[..], 0, n, a[n - 1])
    ensures a[n - 1] == old(a[0])
  {
    ghost var s := a[..];
    RootTaken(comp, s, n);
    SwappedRearranged(s, 0, n - 1, 0, n);
    Swap(a, 0, n - 1);
    ghost var t := a[..];
    Heapify(a, n - 1, 0, 0, comp);
    RearrangedOutside(t, a[..], 0, n - 1, n - 1);
    RearrangedWider(t, a[..], 0, n - 1, 0, n);
    NoneAfterKept(comp, t, a[..], 0, n, s[0]);
    RearrangedTwice(s, t, a[..], 0, n);
  }

  method PopHeap<T(!new)>(a: array<T>, n: nat, comp: (T, T) -> bool) returns (ok: bool)
    requires StrictWeakOrder(comp) && n <= a.Length && HeapFrom(comp, a[..], n, 0)
    modifies a
    ensures ok == (n > 0) && Rearranged(old(a[..]), a[..], 0, n)
    ensures ok ==> HeapFrom(comp, a[..], n - 1, 0) && a[n - 1] == old(a[0]) && NoneAfter(comp, a[..], 0, n, a[n - 1])
  {
    if n == 0 {
      return false;
    }
    if n - 1 != 0 {
      TakeRoot(a, n, comp);
    }
    ok := true;
  }

  // ----- the whole range

  method MakeHeap<T(!new)>(a: array<T>, n: nat, comp: (T, T) -> bool)
    requires StrictWeakOrder(comp) && n <= a.Length
    modifies a
    ensures HeapFrom(comp, a[..], n, 0) && Rearranged(old(a[..]), a[..], 0, n)
  {
    if n <= 1 {
      return;
    }
    var index := n / 2 - 1;
    while index >= 0
      invariant -1 <= index < n / 2 && HeapFrom(comp, a[..], n, index + 1) && Rearranged(old(a[..]), a[..], 0, n)
      decreases index
    {
      ghost var s := a[..];
      assert BrokenAt(comp, s, n, index, index);
      Heapify(a, n, index, index, comp);
      RearrangedWider(s, a[..], index, n, 0, n);
      RearrangedTwice(old(a[..]), s, a[..], 0, n);
      index := index - 1;
    }
  }

  // Behind the heap the range is sorted, and comes after all of it.
  ghost predicate SortedFrom<T>(lt: (T, T) -> bool, s: seq<T>, m: nat, n: nat) {
    m <= n <= |s| && SortedIn(lt, s, m, n) && forall i, j | 0 <= i < m <= j < n :: !lt(s[j], s[i])
  }

  lemma {:induction false} SortedFromMore<T(!new)>(lt: (T, T) -> bool, s: seq<T>, t: seq<T>, m: nat, n: nat)
    requires SortedFrom(lt, s, m, n) && m > 1 && Rearranged(s, t, 0, m) && NoneAfter(lt, t, 0, m, t[m - 1])
    ensures SortedFrom(lt, t, m - 1, n)
  {
    forall i, j | 0 <= i < j < n && j >= m - 1 ensures !lt(t[j], t[i]) {
      if j >= m {
        RearrangedOutside(s, t, 0, m, j);
        if i < m {
          var k := RearrangedFrom(s, t, 0, m, i);
        } else {
          RearrangedOutside(s, t, 0, m, i);
        }
      }
    }
  }

  // A heap becomes a sorted range.
  method SortHeap<T(!new)>(a: array<T>, n: nat, comp: (T, T) -> bool)
    requires StrictWeakOrder(comp) && n <= a.Length && HeapFrom(comp, a[..], n, 0)
    modifies a
    ensures SortedIn(comp, a[..], 0, n) && Rearranged(old(a[..]), a[..], 0, n)
  {
    if n <= 1 {
      return;
    }
    var index := n - 1;
    while index > 0
      invariant 0 <= index < n && HeapFrom(comp, a[..], index + 1, 0)
      invariant SortedFrom(comp, a[..], index + 1, n) && Rearranged(old(a[..]), a[..], 0, n)
    {
      ghost var s := a[..];
      TakeRoot(a, index + 1, comp);
      SortedFromMore(comp, s, a[..], index + 1, n);
      RearrangedWider(s, a[..], 0, index + 1, 0, n);
      RearrangedTwice(old(a[..]), s, a[..], 0, n);
      index := index - 1;
    }
  }

  // ----- searching

  method BinarySearch<T(!new)>(a: array<T>, first: nat, last: nat, value: T, comp: (T, T) -> bool) returns (found: bool)
    requires StrictWeakOrder(comp) && first <= last <= a.Length && SortedIn(comp, a[..], first, last)
    ensures found <==> exists k | first <= k < last :: Equivalent(comp, a[k], value)
  {
    var p1, len := first, last - first;
    var mid := len / 2;
    var p2 := p1 + mid;
    while len > 0
      invariant first <= p1 && 0 <= len && p1 + len <= last && mid == len / 2 && p2 == p1 + mid
      invariant forall k | first <= k < p1 :: comp(a[k], value)
      invariant forall k | p1 + len <= k < last :: comp(value, a[k])
      decreases len
    {
      if comp(value, a[p2]) {
        assert forall k | p2 <= k < last :: k == p2 || !comp(a[..][k], a[..][p2]);
        len := mid;
        mid := len / 2;
        p2 := p1 + mid;
      } else if comp(a[p2], value) {
        assert forall k | first <= k <= p2 :: k == p2 || !comp(a[..][p2], a[..][k]);
        len := mid + (if len % 2 == 0 then 0 else 1) - 1;
        mid := len / 2;
        p2 := p2 + 1;
        p1 := p2;
        p2 := p2 + mid;
      } else {
        return true;
      }
    }
    found := false;
  }
}
