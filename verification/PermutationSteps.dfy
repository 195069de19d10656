/** Stepping through the permutations of a range of an array, in place. */
module PermutationSteps {
  import opened Ranges
  import opened Permutations

  // s with t in place of the elements from first to last.
  function Replaced<T>(s: seq<T>, first: nat, last: nat, t: seq<T>): (r: seq<T>)
    requires first <= last <= |s| && |t| == last - first
    ensures |r| == |s|
  {
    s[..first] + t + s[last..]
  }

  method Reverse<T>(a: array<T>, first: nat, last: nat)
    requires first <= last <= a.Length
    modifies a
    ensures a[..] == Replaced(old(a[..]), first, last, Reversed(old(a[first..last])))
  {
    ghost var was := a[..];
    if first == last {
      assert a[..] == Replaced(was, first, last, Reversed(was[first..last]));
      return;
    }
    var i, j := first, last - 1;
    MirroredNone(was, first, last);
    while i != j
      invariant first <= i <= j < last && i - first == last - 1 - j
      invariant a[..] == Mirrored(was, first, last, i)
      decreases j - i
    {
      MirroredMore(was, first, last, i);
      Swap(a, i, j);
      i := i + 1;
      if i == j {
        break;
      }
      j := j - 1;
    }
    MirroredAll(was, first, last, i);
    assert a[first..last] == a[..][first..last];
  }

  // The outermost pairs of the range exchanged, up to i.
  function Mirrored<T>(s: seq<T>, first: nat, last: nat, i: nat): (r: seq<T>)
    requires first <= i <= last <= |s|
    ensures |r| == |s|
  {
    seq(|s|, k requires 0 <= k < |s| =>
      if first <= k < i || last - (i - first) <= k < last then s[first + last - 1 - k] else s[k])
  }

  lemma {:induction false} MirroredNone<T>(s: seq<T>, first: nat, last: nat)
    requires first <= last <= |s|
    ensures Mirrored(s, first, last, first) == s
  {
  }

  lemma {:induction false} MirroredMore<T>(s: seq<T>, first: nat, last: nat, i: nat)
    requires first <= i <= last <= |s| && i < first + last - 1 - i
    ensures Mirrored(s, first, last, i + 1) == Swapped(Mirrored(s, first, last, i), i, first + last - 1 - i)
  {
  }

  lemma {:induction false} MirroredAll<T>(s: seq<T>, first: nat, last: nat, i: nat)
    requires first <= i < last <= |s| && first + last - 1 - i <= i
    ensures Mirrored(s, first, last, i) == Replaced(s, first, last, Reversed(s[first..last]))
  {
  }

  // The exchange and the reversal of a step, on the whole array.
  lemma {:induction false} RangeStep<T>(was: seq<T>, first: nat, last: nat, i: nat, j: nat)
    requires first <= i < j < last <= |was|
    ensures var swapped := Swapped(was, i, j);
      Replaced(swapped, i + 1, last, Reversed(swapped[i + 1..last]))
      == Replaced(was, first, last, TailReversed(Swapped(was[first..last], i - first, j - first), i + 1 - first))
  {
    var swapped, s := Swapped(was, i, j), Swapped(was[first..last], i - first, j - first);
    assert swapped[first..last] == s;
    assert swapped[i + 1..last] == s[i + 1 - first..];
    assert swapped[..i + 1] == was[..first] + s[..i + 1 - first];
    assert swapped[last..] == was[last..];
  }

  method FinishStep<T>(a: array<T>, first: nat, last: nat, i: nat, j: nat)
    requires first <= i < j < last <= a.Length
    modifies a
    ensures var swapped := Swapped(old(a[first..last]), i - first, j - first);
      a[..] == Replaced(old(a[..]), first, last, TailReversed(swapped, i + 1 - first))
  {
    ghost var was := a[..];
    assert a[first..last] == was[first..last];
    Swap(a, i, j);
    assert a[i + 1..last] == a[..][i + 1..last];
    Reverse(a, i + 1, last);
    RangeStep(was, first, last, i, j);
  }

  lemma {:induction false} StepFound<T>(lt: (T, T) -> bool, was: seq<T>, first: nat, last: nat, i: nat, j: nat)
    requires first <= i < j < last <= |was| && lt(was[i], was[i + 1]) && lt(was[i], was[j])
    requires forall m | i + 1 < m < last :: !lt(was[m - 1], was[m])
    requires forall m | j < m < last :: !lt(was[i], was[m])
    ensures Next(lt, was[first..last])
      == (true, TailReversed(Swapped(was[first..last], i - first, j - first), i + 1 - first))
  {
    var s := was[first..last];
    forall m | i + 1 - first < m < |s| ensures !lt(s[m - 1], s[m]) {
      assert s[m - 1] == was[first + m - 1] && s[m] == was[first + m];
    }
    forall m | j - first < m < |s| ensures !lt(s[i - first], s[m]) {
      assert s[m] == was[first + m];
    }
    NextIs(lt, s, i + 1 - first, j - first);
  }

  lemma {:induction false} NoStepFound<T>(lt: (T, T) -> bool, was: seq<T>, first: nat, last: nat)
    requires first + 1 < last <= |was| && forall m | first < m < last :: !lt(was[m - 1], was[m])
    ensures Next(lt, was[first..last]) == (false, Reversed(was[first..last]))
  {
    var s := was[first..last];
    forall m | 0 < m < |s| ensures !lt(s[m - 1], s[m]) {
      assert s[m - 1] == was[first + m - 1] && s[m] == was[first + m];
    }
    DescentIs(lt, s, |s| - 1, 0);
  }

  // The range becomes its next permutation; after the last one, the first.
  method NextPermutation<T>(a: array<T>, first: nat, last: nat, comp: (T, T) -> bool) returns (more: bool)
    requires first <= last <= a.Length
    modifies a
    ensures var r := Next(comp, old(a[first..last])); more == r.0 && a[..] == Replaced(old(a[..]), first, last, r.1)
  {
    ghost var s := a[first..last];
    assert a[..] == Replaced(a[..], first, last, s);
    if first == last {
      return false;
    }
    var i := first + 1;
    if i == last {
      return false;
    }
    i := last - 1;
    while true
      invariant first < i < last && a[..] == old(a[..])
      invariant forall m | i < m < last :: !comp(a[m - 1], a[m])
      decreases i
    {
      var ii := i;
      i := i - 1;
      if comp(a[i], a[ii]) {
        var j := last - 1;
        while !comp(a[i], a[j])
          invariant ii <= j < last && forall m | j < m < last :: !comp(a[i], a[m])
          decreases j
        {
          j := j - 1;
        }
        StepFound(comp, a[..], first, last, i, j);
        FinishStep(a, first, last, i, j);
        return true;
      }
      if i == first {
        NoStepFound(comp, a[..], first, last);
        Reverse(a, first, last);
        return false;
      }
    }
  }

  // The range becomes the permutation before it.
  method PrevPermutation<T>(a: array<T>, first: nat, last: nat, comp: (T, T) -> bool) returns (more: bool)
    requires first <= last <= a.Length
    modifies a
    ensures var r := Next(Flip(comp), old(a[first..last]));
      more == r.0 && a[..] == Replaced(old(a[..]), first, last, r.1)
  {
    ghost var s := a[first..last];
    assert a[..] == Replaced(a[..], first, last, s);
    if first == last {
      return false;
    }
    var i := first + 1;
    if i == last {
      return false;
    }
    i := last - 1;
    while true
      invariant first < i < last && a[..] == old(a[..])
      invariant forall m | i < m < last :: !comp(a[m], a[m - 1])
      decreases i
    {
      var ii := i;
      i := i - 1;
      if comp(a[ii], a[i]) {
        var j := last - 1;
        while !comp(a[j], a[i])
          invariant ii <= j < last && forall m | j < m < last :: !comp(a[m], a[i])
          decreases j
        {
          j := j - 1;
        }
        StepFound(Flip(comp), a[..], first, last, i, j);
        FinishStep(a, first, last, i, j);
        return true;
      }
      if i == first {
        NoStepFound(Flip(comp), a[..], first, last);
        Reverse(a, first, last);
        return false;
      }
    }
  }
}
