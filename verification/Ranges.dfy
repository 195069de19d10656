/** Ranges of an array: exchanging two elements, and rearranging a range and nothing else. */
module Ranges {

  function Swapped<T>(s: seq<T>, i: nat, j: nat): (r: seq<T>)
    requires i < |s| && j < |s|
    ensures |r| == |s|
  {
    s[i := s[j]][j := s[i]]
  }

  method Swap<T>(a: array<T>, i: nat, j: nat)
    requires i < a.Length && j < a.Length
    modifies a
    ensures a[..] == Swapped(old(a[..]), i, j)
  {
    a[i], a[j] := a[j], a[i];
  }

  // t has the elements of s, each in its place outside first to last.
  ghost predicate Rearranged<T>(s: seq<T>, t: seq<T>, first: nat, last: nat) {
    first <= last <= |s| == |t| && s[..first] == t[..first] && s[last..] == t[last..] && multiset(s) == multiset(t)
  }

  lemma {:induction false} RearrangedTwice<T>(s: seq<T>, t: seq<T>, u: seq<T>, first: nat, last: nat)
    requires Rearranged(s, t, first, last) && Rearranged(t, u, first, last)
    ensures Rearranged(s, u, first, last)
  {
  }

  lemma {:induction false} RearrangedWider<T>(s: seq<T>, t: seq<T>, first: nat, last: nat, first': nat, last': nat)
    requires Rearranged(s, t, first, last) && first' <= first && last <= last' <= |s|
    ensures Rearranged(s, t, first', last')
  {
    assert s[..first'] == s[..first][..first'] && t[..first'] == t[..first][..first'];
    assert s[last'..] == s[last..][last' - last..] && t[last'..] == t[last..][last' - last..];
  }

  lemma {:induction false} SwappedRearranged<T>(s: seq<T>, i: nat, j: nat, first: nat, last: nat)
    requires first <= i < last <= |s| && first <= j < last
    ensures Rearranged(s, Swapped(s, i, j), first, last)
  {
  }

  lemma {:induction false} RearrangedOutside<T>(s: seq<T>, t: seq<T>, first: nat, last: nat, k: nat)
    requires Rearranged(s, t, first, last) && k < |s| && !(first <= k < last)
    ensures s[k] == t[k]
  {
    if k < first {
      assert s[..first][k] == t[..first][k];
    } else {
      assert s[last..][k - last] == t[last..][k - last];
    }
  }

  lemma {:induction false} MiddleOf<T>(s: seq<T>, first: nat, last: nat)
    requires first <= last <= |s|
    ensures multiset(s[first..last]) == multiset(s) - multiset(s[..first]) - multiset(s[last..])
  {
    assert s == s[..first] + (s[first..last] + s[last..]);
  }

  lemma {:induction false} RearrangedParts<T>(s: seq<T>, t: seq<T>, first: nat, last: nat)
    requires Rearranged(s, t, first, last)
    ensures multiset(s[first..last]) == multiset(t[first..last])
  {
    MiddleOf(s, first, last);
    MiddleOf(t, first, last);
  }

  // An element of the rearranged range was in the range before.
  lemma {:induction false} RearrangedFrom<T>(s: seq<T>, t: seq<T>, first: nat, last: nat, k: nat) returns (m: nat)
    requires Rearranged(s, t, first, last) && first <= k < last
    ensures first <= m < last && s[m] == t[k]
  {
    RearrangedParts(s, t, first, last);
    assert t[first..last][k - first] in multiset(t[first..last]);
    assert t[k] in multiset(s[first..last]);
    var i :| 0 <= i < |s[first..last]| && s[first..last][i] == t[k];
    m := first + i;
  }
}
