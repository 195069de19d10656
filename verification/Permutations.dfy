/** The next and the previous permutation, as functions on sequences, and what they mean. */
module Permutations {
  import opened Orders
  import opened Ranges

  function Reversed<T>(s: seq<T>): (r: seq<T>)
    ensures |r| == |s| && forall k | 0 <= k < |s| :: r[k] == s[|s| - 1 - k]
  {
    seq(|s|, k requires 0 <= k < |s| => s[|s| - 1 - k])
  }

  // The start of the longest suffix of s[..k + 1] whose elements do not rise.
  function Descent<T>(lt: (T, T) -> bool, s: seq<T>, k: nat): (i: nat)
    requires k < |s|
    ensures i <= k
    ensures i > 0 ==> lt(s[i - 1], s[i])
    ensures forall m | i < m <= k :: !lt(s[m - 1], s[m])
  {
    if k == 0 || lt(s[k - 1], s[k]) then k else Descent(lt, s, k - 1)
  }

  // The last place below k that holds something after x; k when there is none.
  function LastAbove<T>(lt: (T, T) -> bool, s: seq<T>, x: T, k: nat): (j: nat)
    requires k <= |s|
    ensures j < k ==> lt(x, s[j])
    ensures j <= k && (forall m | j < m < k :: !lt(x, s[m])) && (j == k ==> forall m | 0 <= m < k :: !lt(x, s[m]))
  {
    if k == 0 then k
    else if lt(x, s[k - 1]) then k - 1
    else
      var j := LastAbove(lt, s, x, k - 1);
      if j == k - 1 then k else j
  }

  // The next permutation, and whether there was one; after the last comes the first.
  function Next<T>(lt: (T, T) -> bool, s: seq<T>): (r: (bool, seq<T>))
    ensures |r.1| == |s|
  {
    if |s| <= 1 then (false, s) else
      var ii := Descent(lt, s, |s| - 1);
      if ii == 0 then (false, Reversed(s)) else
        var j := LastAbove(lt, s, s[ii - 1], |s|);
        assert lt(s[ii - 1], s[ii]);
        var t := Swapped(s, ii - 1, j);
        (true, t[..ii] + Reversed(t[ii..]))
  }

  function Flip<T>(lt: (T, T) -> bool): (T, T) -> bool {
    (x, y) => lt(y, x)
  }

  // ----- sortedness and lexicographic order, up to equivalence

  ghost predicate Sorted<T>(lt: (T, T) -> bool, s: seq<T>) {
    forall i, j | 0 <= i < j < |s| :: !lt(s[j], s[i])
  }

  // The first k elements are pairwise equivalent.
  ghost predicate Agree<T>(lt: (T, T) -> bool, s: seq<T>, t: seq<T>, k: nat) {
    k <= |s| && k <= |t| && forall i | 0 <= i < k :: Equivalent(lt, s[i], t[i])
  }

  ghost predicate LessAt<T>(lt: (T, T) -> bool, s: seq<T>, t: seq<T>, k: nat) {
    Agree(lt, s, t, k) && k < |s| && k < |t| && lt(s[k], t[k])
  }

  // Lexicographically less, for sequences of one length.
  ghost predicate LexLess<T>(lt: (T, T) -> bool, s: seq<T>, t: seq<T>) {
    exists k: nat :: LessAt(lt, s, t, k)
  }

  // ----- counting the elements before a bound: equal for all bounds when the elements
  // ----- are the same up to order and equivalence

  function Below<T>(lt: (T, T) -> bool, z: T, s: seq<T>): nat {
    if s == [] then 0 else (if lt(s[0], z) then 1 else 0) + Below(lt, z, s[1..])
  }

  lemma {:induction false} BelowJoin<T>(lt: (T, T) -> bool, z: T, s: seq<T>, t: seq<T>)
    ensures Below(lt, z, s + t) == Below(lt, z, s) + Below(lt, z, t)
    decreases |s|
  {
    if s == [] {
      assert s + t == t;
    } else {
      assert (s + t)[1..] == s[1..] + t;
      BelowJoin(lt, z, s[1..], t);
    }
  }

  lemma {:induction false} BelowNone<T>(lt: (T, T) -> bool, z: T, s: seq<T>)
    ensures Below(lt, z, s) == 0 <==> forall i | 0 <= i < |s| :: !lt(s[i], z)
    decreases |s|
  {
    if s != [] {
      BelowNone(lt, z, s[1..]);
      assert forall i | 1 <= i < |s| :: s[i] == s[1..][i - 1];
    }
  }

  lemma {:induction false} OneLess<T>(s: seq<T>, t: seq<T>, i: nat)
    requires s != [] && i < |t| && t[i] == s[0] && multiset(s) == multiset(t)
    ensures multiset(s[1..]) == multiset(t[..i] + t[i + 1..])
  {
    assert s == [s[0]] + s[1..];
    assert t == t[..i] + ([t[i]] + t[i + 1..]);
    assert multiset(s[1..]) == multiset(s) - multiset{s[0]};
    assert multiset(t[..i] + t[i + 1..]) == multiset(t) - multiset{s[0]};
  }

  lemma {:induction false} BelowSame<T>(lt: (T, T) -> bool, z: T, s: seq<T>, t: seq<T>)
    requires multiset(s) == multiset(t)
    ensures Below(lt, z, s) == Below(lt, z, t)
    decreases |s|
  {
    if s == [] {
      assert |multiset(t)| == 0;
    } else {
      assert s[0] in multiset(t);
      var i :| 0 <= i < |t| && t[i] == s[0];
      var rest := t[..i] + t[i + 1..];
      assert s == [s[0]] + s[1..];
      assert t == t[..i] + ([t[i]] + t[i + 1..]);
      OneLess(s, t, i);
      BelowSame(lt, z, s[1..], rest);
      BelowJoin(lt, z, t[..i], [t[i]] + t[i + 1..]);
      BelowJoin(lt, z, t[..i], t[i + 1..]);
    }
  }

  lemma {:induction false} BelowAgree<T(!new)>(lt: (T, T) -> bool, z: T, s: seq<T>, t: seq<T>, k: nat)
    requires StrictWeakOrder(lt) && Agree(lt, s, t, k)
    ensures Below(lt, z, s[..k]) == Below(lt, z, t[..k])
  {
    if k > 0 {
      BelowAgree(lt, z, s, t, k - 1);
      assert s[..k] == s[..k - 1] + [s[k - 1]] && t[..k] == t[..k - 1] + [t[k - 1]];
      BelowJoin(lt, z, s[..k - 1], [s[k - 1]]);
      BelowJoin(lt, z, t[..k - 1], [t[k - 1]]);
      assert Equivalent(lt, s[k - 1], t[k - 1]);
    }
  }

  // With the same elements and equivalent beginnings, the rests have as many elements
  // before any bound.
  lemma {:induction false} BelowRest<T(!new)>(lt: (T, T) -> bool, z: T, s: seq<T>, t: seq<T>, k: nat)
    requires StrictWeakOrder(lt) && multiset(s) == multiset(t) && Agree(lt, s, t, k)
    ensures Below(lt, z, s[k..]) == Below(lt, z, t[k..])
  {
    BelowSame(lt, z, s, t);
    BelowAgree(lt, z, s, t, k);
    BelowSplit(lt, z, s, k);
    BelowSplit(lt, z, t, k);
  }

  lemma {:induction false} BelowSplit<T>(lt: (T, T) -> bool, z: T, s: seq<T>, k: nat)
    requires k <= |s|
    ensures Below(lt, z, s) == Below(lt, z, s[..k]) + Below(lt, z, s[k..])
  {
    BelowJoin(lt, z, s[..k], s[k..]);
    assert s == s[..k] + s[k..];
  }

  // A sequence whose tail from k0 is sorted comes before every other with the same elements
  // that agrees up to k0.
  lemma {:induction false} SortedTailLeast<T(!new)>(lt: (T, T) -> bool, s: seq<T>, u: seq<T>, k0: nat, k: nat)
    requires StrictWeakOrder(lt) && multiset(s) == multiset(u) && |s| == |u| && k0 <= k
    requires forall i, j | k0 <= i < j < |s| :: !lt(s[j], s[i])
    ensures !LessAt(lt, u, s, k)
  {
    if LessAt(lt, u, s, k) {
      AgreeFlips(lt, u, s, k);
      BelowRest(lt, s[k], s, u, k);
      assert u[k..][0] == u[k];
      BelowNone(lt, s[k], u[k..]);
      BelowNone(lt, s[k], s[k..]);
    }
  }

  lemma {:induction false} AgreeFlips<T>(lt: (T, T) -> bool, s: seq<T>, t: seq<T>, k: nat)
    ensures Agree(lt, s, t, k) <==> Agree(lt, t, s, k)
    ensures Agree(lt, s, t, k) <==> Agree(Flip(lt), s, t, k)
  {
  }

  // ----- the shape of the next permutation

  lemma {:induction false} ReversedSame<T>(s: seq<T>)
    ensures multiset(Reversed(s)) == multiset(s)
    decreases |s|
  {
    if s != [] {
      ReversedSame(s[1..]);
      assert Reversed(s) == Reversed(s[1..]) + [s[0]];
      assert s == [s[0]] + s[1..];
    }
  }

  lemma {:induction false} DescentSorted<T(!new)>(lt: (T, T) -> bool, s: seq<T>, i: nat, m: nat, n: nat)
    requires StrictWeakOrder(lt) && i <= m <= n < |s| && forall k | i < k < |s| :: !lt(s[k - 1], s[k])
    ensures !lt(s[m], s[n])
    decreases n
  {
    if m < n {
      DescentSorted(lt, s, i, m, n - 1);
    }
  }

  // What the step from s to t is: the element before the longest falling tail gives way to
  // the least greater one of the tail, and the tail becomes rising.
  ghost predicate Stepped<T>(lt: (T, T) -> bool, s: seq<T>, t: seq<T>, i: nat) {
    i < |s| == |t| && t[..i] == s[..i] && lt(s[i], t[i]) && multiset(t) == multiset(s)
    && (forall m, n | i < m < n < |s| :: !lt(s[m], s[n]))
    && (forall m, n | i < m < n < |t| :: !lt(t[n], t[m]))
    && (forall m | i < m < |s| && lt(s[i], s[m]) :: !lt(s[m], t[i]))
  }

  function TailReversed<T>(s: seq<T>, ii: nat): (t: seq<T>)
    requires ii <= |s|
    ensures |t| == |s|
  {
    s[..ii] + Reversed(s[ii..])
  }

  lemma {:induction false} TailReversedAt<T>(s: seq<T>, ii: nat)
    requires ii <= |s|
    ensures TailReversed(s, ii)[..ii] == s[..ii]
    ensures forall m | 0 <= m < |s| :: TailReversed(s, ii)[m] == if m < ii then s[m] else s[ii + (|s| - 1 - m)]
  {
  }

  lemma {:induction false} TailReversedSame<T>(s: seq<T>, ii: nat)
    requires ii <= |s|
    ensures multiset(TailReversed(s, ii)) == multiset(s)
  {
    ReversedSame(s[ii..]);
    assert s == s[..ii] + s[ii..];
  }

  // Where the falling tail of s starts, and the element of it that x = s[ii - 1] changes places with.
  ghost predicate Parts<T>(lt: (T, T) -> bool, s: seq<T>, ii: nat, j: nat) {
    0 < ii <= j < |s| && lt(s[ii - 1], s[j])
    && (forall m | j < m < |s| :: !lt(s[ii - 1], s[m]))
    && (forall m, n | ii <= m < n < |s| :: !lt(s[m], s[n]))
  }

  lemma {:induction false} NextParts<T(!new)>(lt: (T, T) -> bool, s: seq<T>) returns (ii: nat, j: nat)
    requires StrictWeakOrder(lt) && Next(lt, s).0
    ensures Parts(lt, s, ii, j)
    ensures Next(lt, s).1 == TailReversed(Swapped(s, ii - 1, j), ii)
  {
    ii := Descent(lt, s, |s| - 1);
    j := LastAbove(lt, s, s[ii - 1], |s|);
    assert lt(s[ii - 1], s[ii]);
    forall m, n | ii <= m < n < |s| ensures !lt(s[m], s[n]) {
      DescentSorted(lt, s, ii, m, n);
    }
  }

  lemma {:induction false} NextStepped<T(!new)>(lt: (T, T) -> bool, s: seq<T>) returns (ii: nat, j: nat)
    requires StrictWeakOrder(lt) && Next(lt, s).0
    ensures Parts(lt, s, ii, j) && Stepped(lt, s, Next(lt, s).1, ii - 1)
    ensures Next(lt, s).1 == TailReversed(Swapped(s, ii - 1, j), ii)
  {
    ii, j := NextParts(lt, s);
    var swapped := Swapped(s, ii - 1, j);
    TailFalls(lt, s, ii, j);
    TailReversedSame(swapped, ii);
    SwappedSame(s, ii - 1, j);
    SwappedStepped(lt, s, ii, j);
  }

  lemma {:induction false} SwappedSame<T>(s: seq<T>, i: nat, j: nat)
    requires i < |s| && j < |s|
    ensures multiset(Swapped(s, i, j)) == multiset(s)
  {
  }

  lemma {:induction false} SwappedStepped<T(!new)>(lt: (T, T) -> bool, s: seq<T>, ii: nat, j: nat)
    requires StrictWeakOrder(lt) && Parts(lt, s, ii, j)
    requires var swapped := Swapped(s, ii - 1, j); forall m, n | ii <= m < n < |s| :: !lt(swapped[m], swapped[n])
    requires multiset(TailReversed(Swapped(s, ii - 1, j), ii)) == multiset(s)
    ensures Stepped(lt, s, TailReversed(Swapped(s, ii - 1, j), ii), ii - 1)
  {
    var swapped := Swapped(s, ii - 1, j);
    var t := TailReversed(swapped, ii);
    TailReversedAt(swapped, ii);
    SwappedAt(s, ii - 1, j);
    assert t[..ii - 1] == s[..ii - 1];
    assert t[ii - 1] == s[j];
    forall m | ii - 1 < m < |s| && lt(s[ii - 1], s[m]) ensures !lt(s[m], s[j]) {
      assert m <= j;
    }
    forall m, n | ii <= m < n < |t| ensures !lt(t[n], t[m]) {
      TailReversedPlace(swapped, ii, m);
      TailReversedPlace(swapped, ii, n);
    }
  }

  lemma {:induction false} TailFalls<T(!new)>(lt: (T, T) -> bool, s: seq<T>, ii: nat, j: nat)
    requires StrictWeakOrder(lt) && Parts(lt, s, ii, j)
    ensures var swapped := Swapped(s, ii - 1, j); forall m, n | ii <= m < n < |s| :: !lt(swapped[m], swapped[n])
  {
    var x := s[ii - 1];
    forall m | ii <= m < j ensures !lt(s[m], x) {
      assert !lt(s[m], s[j]);
    }
  }

  // ----- nothing lies between

  // The elements before y and those after x cover everything, and overlap exactly when
  // something lies between.
  lemma {:induction false} NothingBetween<T(!new)>(lt: (T, T) -> bool, x: T, y: T, s: seq<T>)
    requires StrictWeakOrder(lt) && lt(x, y)
    ensures Below(lt, y, s) + Below(Flip(lt), x, s) >= |s|
    ensures Below(lt, y, s) + Below(Flip(lt), x, s) == |s| <==> forall i | 0 <= i < |s| :: !(lt(x, s[i]) && lt(s[i], y))
    decreases |s|
  {
    if s != [] {
      NothingBetween(lt, x, y, s[1..]);
      assert forall i | 1 <= i < |s| :: s[i] == s[1..][i - 1];
    }
  }

  lemma {:induction false} FlipOrder<T(!new)>(lt: (T, T) -> bool)
    requires StrictWeakOrder(lt)
    ensures StrictWeakOrder(Flip(lt))
  {
    var gt := Flip(lt);
    assert forall x, y {:trigger gt(x, y)} :: gt(x, y) == lt(y, x);
  }

  // The result is greater, has the same elements, and no arrangement of the elements lies
  // strictly between.
  lemma {:induction false} NextImmediate<T(!new)>(lt: (T, T) -> bool, s: seq<T>, u: seq<T>)
    requires StrictWeakOrder(lt) && Next(lt, s).0 && multiset(u) == multiset(s)
    ensures multiset(Next(lt, s).1) == multiset(s)
    ensures LexLess(lt, s, Next(lt, s).1)
    ensures !(LexLess(lt, s, u) && LexLess(lt, u, Next(lt, s).1))
  {
    var t := Next(lt, s).1;
    var ii, j := NextStepped(lt, s);
    var i := ii - 1;
    assert LessAt(lt, s, t, i) by {
      assert forall m | 0 <= m < i :: s[m] == s[..i][m] == t[..i][m] == t[m];
    }
    assert |u| == |multiset(u)| == |multiset(s)| == |s|;
    forall k: nat, m: nat ensures !(LessAt(lt, s, u, k) && LessAt(lt, u, t, m)) {
      NotBetween(lt, s, t, u, i, k, m);
    }
  }

  // And with a falling tail it comes after every other.
  lemma {:induction false} FallingTailGreatest<T(!new)>(lt: (T, T) -> bool, s: seq<T>, u: seq<T>, k0: nat, k: nat)
    requires StrictWeakOrder(lt) && multiset(s) == multiset(u) && |s| == |u| && k0 <= k
    requires forall i, j | k0 <= i < j < |s| :: !lt(s[i], s[j])
    ensures !LessAt(lt, s, u, k)
  {
    var gt := Flip(lt);
    FlipOrder(lt);
    AgreeFlips(lt, s, u, k);
    AgreeFlips(lt, u, s, k);
    assert forall i, j | k0 <= i < j < |s| :: !gt(s[j], s[i]);
    SortedTailLeast(gt, s, u, k0, k);
    assert k < |s| ==> gt(u[k], s[k]) == lt(s[k], u[k]);
  }

  lemma {:induction false} NotBetween<T(!new)>(lt: (T, T) -> bool, s: seq<T>, t: seq<T>, u: seq<T>, i: nat, k: nat,
                                               m: nat)
    requires StrictWeakOrder(lt) && Stepped(lt, s, t, i) && multiset(u) == multiset(s) && |u| == |s|
    ensures !(LessAt(lt, s, u, k) && LessAt(lt, u, t, m))
  {
    if k > i {
      FallingTailGreatest(lt, s, u, i + 1, k);
    } else if m > i {
      SortedTailLeast(lt, t, u, i + 1, m);
    } else if LessAt(lt, s, u, k) {
      if k < i || m < i {
        BeforeStep(lt, s, t, u, i, k, m);
      } else {
        AtStep(lt, s, t, u, i);
      }
    }
  }

  lemma {:induction false} SamePrefix<T>(s: seq<T>, t: seq<T>, i: nat, m: nat)
    requires i <= |s| && i <= |t| && s[..i] == t[..i]
    ensures m < i ==> s[m] == t[m]
  {
    assert m < i ==> s[..i][m] == s[m] && t[..i][m] == t[m];
  }

  lemma {:induction false} BeforeStep<T(!new)>(lt: (T, T) -> bool, s: seq<T>, t: seq<T>, u: seq<T>, i: nat, k: nat,
                                               m: nat)
    requires StrictWeakOrder(lt) && Stepped(lt, s, t, i)
    requires LessAt(lt, s, u, k) && (k < i || (k == i && m < i))
    ensures !LessAt(lt, u, t, m)
  {
    SamePrefix(s, t, i, m);
    SamePrefix(s, t, i, k);
    assert m < k ==> Equivalent(lt, s[m], u[m]);
    assert LessAt(lt, u, t, m) && k < m ==> Equivalent(lt, u[k], t[k]);
  }

  lemma {:induction false} AtStep<T(!new)>(lt: (T, T) -> bool, s: seq<T>, t: seq<T>, u: seq<T>, i: nat)
    requires StrictWeakOrder(lt) && Stepped(lt, s, t, i) && multiset(u) == multiset(s) && |u| == |s|
    requires LessAt(lt, s, u, i)
    ensures !LessAt(lt, u, t, i)
  {
    var x, y := s[i], t[i];
    FlipOrder(lt);
    AgreeFlips(lt, s, u, i);
    BelowRest(lt, y, s, u, i);
    BelowRest(Flip(lt), x, s, u, i);
    forall m | 0 <= m < |s[i..]| ensures !(lt(x, s[i..][m]) && lt(s[i..][m], y)) {
      assert s[i..][m] == s[i + m];
    }
    NothingBetween(lt, x, y, s[i..]);
    NothingBetween(lt, x, y, u[i..]);
    assert u[i..][0] == u[i];
  }

  // There is a next permutation exactly when some arrangement is greater; the others are
  // sorted when there is none.
  lemma {:induction false} NextExists<T(!new)>(lt: (T, T) -> bool, s: seq<T>)
    requires StrictWeakOrder(lt)
    ensures Next(lt, s).0 <==> exists u :: multiset(u) == multiset(s) && LexLess(lt, s, u)
    ensures !Next(lt, s).0 ==> Sorted(lt, Next(lt, s).1) && multiset(Next(lt, s).1) == multiset(s)
  {
    if Next(lt, s).0 {
      NextImmediate(lt, s, s);
    } else {
      ReversedSame(s);
      forall m, n | 0 <= m < n < |s| ensures !lt(s[m], s[n]) {
        DescentSorted(lt, s, 0, m, n);
      }
      forall u | multiset(u) == multiset(s) ensures !LexLess(lt, s, u) {
        NoneGreater(lt, s, u);
      }
    }
  }

  lemma {:induction false} NoneGreater<T(!new)>(lt: (T, T) -> bool, s: seq<T>, u: seq<T>)
    requires StrictWeakOrder(lt) && multiset(u) == multiset(s) && forall m, n | 0 <= m < n < |s| :: !lt(s[m], s[n])
    ensures !LexLess(lt, s, u)
  {
    assert |u| == |multiset(u)| == |multiset(s)| == |s|;
    forall k: nat ensures !LessAt(lt, s, u, k) {
      FallingTailGreatest(lt, s, u, 0, k);
    }
  }

  // ----- going back

  lemma {:induction false} DescentIs<T>(lt: (T, T) -> bool, s: seq<T>, k: nat, i: nat)
    requires i <= k < |s| && (i > 0 ==> lt(s[i - 1], s[i])) && forall m | i < m <= k :: !lt(s[m - 1], s[m])
    ensures Descent(lt, s, k) == i
  {
    if i < k {
      DescentIs(lt, s, k - 1, i);
    }
  }

  lemma {:induction false} LastAboveIs<T>(lt: (T, T) -> bool, s: seq<T>, x: T, k: nat, j: nat)
    requires j < k <= |s| && lt(x, s[j]) && forall m | j < m < k :: !lt(x, s[m])
    ensures LastAbove(lt, s, x, k) == j
  {
    if j < k - 1 {
      LastAboveIs(lt, s, x, k - 1, j);
    }
  }

  lemma {:induction false} NextIs<T>(lt: (T, T) -> bool, s: seq<T>, ii: nat, j: nat)
    requires 0 < ii < |s| && lt(s[ii - 1], s[ii]) && forall m | ii < m < |s| :: !lt(s[m - 1], s[m])
    requires j < |s| && lt(s[ii - 1], s[j]) && forall m | j < m < |s| :: !lt(s[ii - 1], s[m])
    ensures Next(lt, s) == (true, TailReversed(Swapped(s, ii - 1, j), ii))
  {
    DescentIs(lt, s, |s| - 1, ii);
    LastAboveIs(lt, s, s[ii - 1], |s|, j);
  }

  // The previous permutation is the next one of the opposite order, and takes a step back.
  lemma {:induction false} PreviousInverts<T(!new)>(lt: (T, T) -> bool, s: seq<T>)
    requires StrictWeakOrder(lt) && Next(lt, s).0
    ensures Next(Flip(lt), Next(lt, s).1) == (true, s)
  {
    var ii, j := NextStepped(lt, s);
    PreviousFound(lt, s, Next(lt, s).1, ii, j);
    SwappedBack(s, Swapped(s, ii - 1, j), Next(lt, s).1, ii, j);
    ReversedTwice(s, ii);
  }

  lemma {:induction false} PreviousFound<T(!new)>(lt: (T, T) -> bool, s: seq<T>, t: seq<T>, ii: nat, j: nat)
    requires StrictWeakOrder(lt) && Parts(lt, s, ii, j) && Stepped(lt, s, t, ii - 1)
    requires t == TailReversed(Swapped(s, ii - 1, j), ii)
    ensures var back := ii + (|s| - 1 - j);
      Next(Flip(lt), t) == (true, TailReversed(Swapped(t, ii - 1, back), ii))
  {
    PreviousFacts(lt, s, t, ii, j);
    NextIs(Flip(lt), t, ii, ii + (|s| - 1 - j));
  }

  // The places of t, told by s.
  lemma {:induction false} SteppedPlaces<T>(s: seq<T>, ii: nat, j: nat)
    requires 0 < ii <= j < |s|
    ensures var t := TailReversed(Swapped(s, ii - 1, j), ii); var back := ii + (|s| - 1 - j);
      t[ii - 1] == s[j] && t[back] == s[ii - 1] && forall m | back < m < |s| :: t[m] == s[ii + (|s| - 1 - m)]
  {
    TailReversedAt(Swapped(s, ii - 1, j), ii);
  }

  lemma {:induction false} PreviousFacts<T(!new)>(lt: (T, T) -> bool, s: seq<T>, t: seq<T>, ii: nat, j: nat)
    requires StrictWeakOrder(lt) && Parts(lt, s, ii, j) && Stepped(lt, s, t, ii - 1)
    requires t == TailReversed(Swapped(s, ii - 1, j), ii)
    ensures var back := ii + (|s| - 1 - j);
      lt(t[back], t[ii - 1]) && lt(t[ii], t[ii - 1])
      && (forall m | back < m < |t| :: !lt(t[m], t[ii - 1])) && (forall m | ii < m < |t| :: !lt(t[m], t[m - 1]))
  {
    var back := ii + (|s| - 1 - j);
    SteppedPlaces(s, ii, j);
    assert back > ii ==> !lt(t[back], t[ii]);
  }

  lemma {:induction false} SwappedBack<T>(s: seq<T>, swapped: seq<T>, t: seq<T>, ii: nat, j: nat)
    requires 0 < ii <= j < |s| && swapped == Swapped(s, ii - 1, j) && t == TailReversed(swapped, ii)
    ensures Swapped(t, ii - 1, ii + (|s| - 1 - j)) == TailReversed(s, ii)
  {
    SwapThenReverse(swapped, ii, j);
    SwappedTwice(s, swapped, ii - 1, j);
  }

  lemma {:induction false} SwappedTwice<T>(s: seq<T>, swapped: seq<T>, i: nat, j: nat)
    requires i < |s| && j < |s| && swapped == Swapped(s, i, j)
    ensures Swapped(swapped, i, j) == s
  {
  }

  lemma {:induction false} SwapThenReverse<T>(s: seq<T>, ii: nat, j: nat)
    requires 0 < ii <= j < |s|
    ensures Swapped(TailReversed(s, ii), ii - 1, ii + (|s| - 1 - j)) == TailReversed(Swapped(s, ii - 1, j), ii)
  {
    var back := ii + (|s| - 1 - j);
    var swapped, reversed := Swapped(s, ii - 1, j), TailReversed(s, ii);
    forall m | 0 <= m < |s| ensures Swapped(reversed, ii - 1, back)[m] == TailReversed(swapped, ii)[m] {
      var there := if m < ii then m else ii + (|s| - 1 - m);
      TailReversedPlace(swapped, ii, m);
      SwappedPlace(s, ii - 1, j, there);
      SwappedPlace(reversed, ii - 1, back, m);
      TailReversedPlace(s, ii, m);
      TailReversedPlace(s, ii, ii - 1);
      TailReversedPlace(s, ii, back);
    }
  }

  lemma {:induction false} SwappedAt<T>(s: seq<T>, i: nat, j: nat)
    requires i < |s| && j < |s|
    ensures forall m | 0 <= m < |s| :: Swapped(s, i, j)[m] == if m == i then s[j] else if m == j then s[i] else s[m]
  {
  }

  lemma {:induction false} TailReversedPlace<T>(s: seq<T>, ii: nat, m: nat)
    requires ii <= |s| && m < |s|
    ensures TailReversed(s, ii)[m] == s[if m < ii then m else ii + (|s| - 1 - m)]
  {
  }

  lemma {:induction false} SwappedPlace<T>(s: seq<T>, i: nat, j: nat, m: nat)
    requires i < |s| && j < |s| && m < |s|
    ensures Swapped(s, i, j)[m] == s[if m == i then j else if m == j then i else m]
  {
  }

  lemma {:induction false} ReversedTwice<T>(s: seq<T>, ii: nat)
    requires ii <= |s|
    ensures TailReversed(TailReversed(s, ii), ii) == s
  {
    TailReversedAt(s, ii);
    TailReversedAt(TailReversed(s, ii), ii);
  }
}
