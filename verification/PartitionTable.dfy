/**
  Sorting the entries of a partition table by a bubble sort of their indices.
 */
module PartitionTable {
  import opened Bytes
  import opened Ranges

  // An unsigned int of the source.
  type word = x: int | 0 <= x < 0x1_0000

  datatype Entry = Entry(sysId: byte, start: word, end: word)

  predicate Used(e: Entry) { e.sysId != 0 }

  type Table = seq<Entry>

  // The indices in `order` are those of the table.
  ghost predicate Indices(table: Table, order: seq<nat>) {
    forall i | 0 <= i < |order| :: order[i] < |table|
  }

  // The entry at `cur` is moved before the one at `prev`.
  predicate Moves(table: Table, cur: nat, prev: nat)
    requires cur < |table| && prev < |table|
  {
    table[cur].end < table[prev].end || (!Used(table[cur]) && Used(table[prev]))
  }

  // ----- one pass, as a function

  // The exchanges of a pass from index i on, and whether there were any.
  function PassFrom(table: Table, order: seq<nat>, i: nat): (r: (seq<nat>, bool))
    requires Indices(table, order) && 1 <= i
    ensures |r.0| == |order| && Indices(table, r.0)
    decreases |order| - i
  {
    if i >= |order| then (order, false)
    else if Moves(table, order[i], order[i - 1]) then (PassFrom(table, Swapped(order, i - 1, i), i + 1).0, true)
    else PassFrom(table, order, i + 1)
  }

  function Pass(table: Table, order: seq<nat>): (r: (seq<nat>, bool))
    requires Indices(table, order)
    ensures |r.0| == |order| && Indices(table, r.0)
  {
    PassFrom(table, order, 1)
  }

  // The order after n passes.
  function Passes(table: Table, order: seq<nat>, n: nat): (r: seq<nat>)
    requires Indices(table, order)
    ensures |r| == |order| && Indices(table, r)
  {
    if n == 0 then order else Pass(table, Passes(table, order, n - 1)).0
  }

  // No exchange is left to do.
  ghost predicate Settled(table: Table, order: seq<nat>)
    requires Indices(table, order)
  {
    forall i | 1 <= i < |order| :: !Moves(table, order[i], order[i - 1])
  }

  lemma {:induction false} PassSettled(table: Table, order: seq<nat>, i: nat)
    requires Indices(table, order) && 1 <= i
    ensures !PassFrom(table, order, i).1 <==> forall k | i <= k < |order| :: !Moves(table, order[k], order[k - 1])
    ensures !PassFrom(table, order, i).1 ==> PassFrom(table, order, i).0 == order
    decreases |order| - i
  {
    if i < |order| && !Moves(table, order[i], order[i - 1]) {
      PassSettled(table, order, i + 1);
    }
  }

  lemma {:induction false} PassKeeps(table: Table, order: seq<nat>, i: nat)
    requires Indices(table, order) && 1 <= i
    ensures multiset(PassFrom(table, order, i).0) == multiset(order)
    decreases |order| - i
  {
    if i < |order| {
      if Moves(table, order[i], order[i - 1]) {
        PassKeeps(table, Swapped(order, i - 1, i), i + 1);
        SwappedRearranged(order, i - 1, i, 0, |order|);
      } else {
        PassKeeps(table, order, i + 1);
      }
    }
  }

  // ----- when the sort ends

  // No unused entry claims to end behind a used one.
  ghost predicate Compatible(table: Table, order: seq<nat>)
    requires Indices(table, order)
  {
    forall i, j | 0 <= i < |order| && 0 <= j < |order| && !Used(table[order[i]]) && Used(table[order[j]]) ::
      table[order[i]].end <= table[order[j]].end
  }

  lemma {:induction false} SameEntries(order: seq<nat>, other: seq<nat>, k: nat) returns (m: nat)
    requires multiset(order) == multiset(other) && k < |order|
    ensures m < |other| && other[m] == order[k]
  {
    assert order[k] in multiset(other);
    m :| m < |other| && other[m] == order[k];
  }

  lemma {:induction false} CompatibleKept(table: Table, order: seq<nat>, other: seq<nat>)
    requires Indices(table, order) && Indices(table, other) && multiset(order) == multiset(other)
    ensures Compatible(table, order) <==> Compatible(table, other)
  {
    if Compatible(table, order) {
      OneCompatible(table, order, other);
    }
    if Compatible(table, other) {
      OneCompatible(table, other, order);
    }
  }

  lemma {:induction false} OneCompatible(table: Table, order: seq<nat>, other: seq<nat>)
    requires Indices(table, order) && Indices(table, other) && multiset(order) == multiset(other)
    requires Compatible(table, order)
    ensures Compatible(table, other)
  {
    forall i, j | 0 <= i < |other| && 0 <= j < |other| && !Used(table[other[i]]) && Used(table[other[j]])
      ensures table[other[i]].end <= table[other[j]].end
    {
      var m := SameEntries(other, order, i);
      var n := SameEntries(other, order, j);
    }
  }

  // The ends do not fall along a settled order, and unused entries come first.
  lemma {:induction false} SettledSorted(table: Table, order: seq<nat>, i: nat, j: nat)
    requires Indices(table, order) && Settled(table, order) && i <= j < |order|
    ensures table[order[i]].end <= table[order[j]].end
    ensures Used(table[order[i]]) ==> Used(table[order[j]])
    decreases j
  {
    if i < j {
      SettledSorted(table, order, i, j - 1);
      assert !Moves(table, order[j], order[j - 1]);
    }
  }

  // With incompatible entries no order whatever is settled.
  lemma {:induction false} SettledCompatible(table: Table, order: seq<nat>)
    requires Indices(table, order) && Settled(table, order)
    ensures Compatible(table, order)
  {
    forall i, j | 0 <= i < |order| && 0 <= j < |order| && !Used(table[order[i]]) && Used(table[order[j]])
      ensures table[order[i]].end <= table[order[j]].end
    {
      if i <= j {
        SettledSorted(table, order, i, j);
      } else {
        SettledSorted(table, order, j, i);
      }
    }
  }

  lemma {:induction false} PassesKeep(table: Table, order: seq<nat>, n: nat)
    requires Indices(table, order)
    ensures multiset(Passes(table, order, n)) == multiset(order)
  {
    if n > 0 {
      PassesKeep(table, order, n - 1);
      PassKeeps(table, Passes(table, order, n - 1), 1);
    }
  }

  // Then every pass makes an exchange, and the sort never ends.
  lemma {:induction false} NeverEnds(table: Table, order: seq<nat>, n: nat)
    requires Indices(table, order) && !Compatible(table, order)
    ensures Pass(table, Passes(table, order, n)).1
  {
    var now := Passes(table, order, n);
    PassesKeep(table, order, n);
    CompatibleKept(table, order, now);
    PassSettled(table, now, 1);
    if !Pass(table, now).1 {
      SettledCompatible(table, now);
    }
  }

  // An entry as it stands in the boot record: the cylinders have two bits in the sector byte.
  function Unpacked(record: seq<byte>): (e: Entry)
    requires |record| == 16
    ensures e.start < 1024 && e.end < 1024
  {
    Entry(record[4], record[2] as nat / 64 * 256 + record[3] as nat, record[6] as nat / 64 * 256 + record[7] as nat)
  }

  // An entry whose type was cleared but whose other bytes were left, before a partition
  // that ends at a lower cylinder: the sort does not end.
  lemma {:induction false} StaleEntry(n: nat)
    ensures var cleared := [0, 0, 1, 10, 0, 0, 1, 20, 0, 0, 0, 0, 0, 0, 0, 0];
      var partition := [0x80, 1, 1, 0, 6, 0, 1, 9, 0, 0, 0, 0, 0, 0, 0, 0];
      var table := [Unpacked(cleared), Unpacked(partition), Unpacked(seq(16, _ => 0)), Unpacked(seq(16, _ => 0))];
      Indices(table, Identity(4)) && !Compatible(table, Identity(4)) && Pass(table, Passes(table, Identity(4), n)).1
  {
    var cleared := [0, 0, 1, 10, 0, 0, 1, 20, 0, 0, 0, 0, 0, 0, 0, 0];
    var partition := [0x80, 1, 1, 0, 6, 0, 1, 9, 0, 0, 0, 0, 0, 0, 0, 0];
    var table := [Unpacked(cleared), Unpacked(partition), Unpacked(seq(16, _ => 0)), Unpacked(seq(16, _ => 0))];
    var order := Identity(4);
    assert !Used(table[order[0]]) && Used(table[order[1]]) && table[order[0]].end == 20 && table[order[1]].end == 9;
    NeverEnds(table, order, n);
  }

  // ----- inversions

  // How many of the first n entries the entry x would be moved before.
  function Over(table: Table, order: seq<nat>, x: nat, n: nat): nat
    requires Indices(table, order) && x < |table| && n <= |order|
  {
    if n == 0 then 0 else Over(table, order, x, n - 1) + (if Moves(table, x, order[n - 1]) then 1 else 0)
  }

  function Inversions(table: Table, order: seq<nat>, n: nat): nat
    requires Indices(table, order) && n <= |order|
  {
    if n == 0 then 0 else Inversions(table, order, n - 1) + Over(table, order, order[n - 1], n - 1)
  }

  lemma {:induction false} OverSwapped(table: Table, order: seq<nat>, i: nat, x: nat, n: nat)
    requires Indices(table, order) && 1 <= i < |order| && x < |table| && n <= |order| && n != i
    ensures Over(table, Swapped(order, i - 1, i), x, n) == Over(table, order, x, n)
  {
    if n > i + 1 {
      OverSwapped(table, order, i, x, n - 1);
    } else if n == i + 1 {
      OverSwapped(table, order, i, x, i - 1);
      var swapped := Swapped(order, i - 1, i);
      assert Over(table, order, x, i)
        == Over(table, order, x, i - 1) + (if Moves(table, x, order[i - 1]) then 1 else 0);
      assert Over(table, swapped, x, i)
        == Over(table, swapped, x, i - 1) + (if Moves(table, x, order[i]) then 1 else 0);
    } else if n > 0 {
      OverSwapped(table, order, i, x, n - 1);
    }
  }

  // An exchange removes one inversion and adds none.
  lemma {:induction false} InversionsSwapped(table: Table, order: seq<nat>, i: nat, n: nat)
    requires Indices(table, order) && 1 <= i < |order| && n <= |order| && n != i
    requires Moves(table, order[i], order[i - 1]) && !Moves(table, order[i - 1], order[i])
    ensures Inversions(table, order, n) == Inversions(table, Swapped(order, i - 1, i), n) + (if n > i then 1 else 0)
  {
    var swapped := Swapped(order, i - 1, i);
    if n > i + 1 {
      InversionsSwapped(table, order, i, n - 1);
      OverSwapped(table, order, i, order[n - 1], n - 1);
    } else if n == i + 1 {
      InversionsSwapped(table, order, i, i - 1);
      OverSwapped(table, order, i, order[i], i - 1);
      OverSwapped(table, order, i, order[i - 1], i - 1);
      assert Inversions(table, order, i) == Inversions(table, order, i - 1) + Over(table, order, order[i - 1], i - 1);
      assert Inversions(table, swapped, i) == Inversions(table, swapped, i - 1) + Over(table, swapped, order[i], i - 1);
      assert Over(table, order, order[i], i) == Over(table, order, order[i], i - 1) + 1;
      assert Over(table, swapped, order[i - 1], i) == Over(table, swapped, order[i - 1], i - 1);
    } else if n > 0 {
      InversionsSwapped(table, order, i, n - 1);
      OverSwapped(table, order, i, order[n - 1], n - 1);
    }
  }

  lemma {:induction false} PassSorts(table: Table, order: seq<nat>, i: nat)
    requires Indices(table, order) && 1 <= i && Compatible(table, order)
    ensures var r := PassFrom(table, order, i);
      Inversions(table, r.0, |order|) <= Inversions(table, order, |order|) - (if r.1 then 1 else 0)
    decreases |order| - i
  {
    if i < |order| {
      if Moves(table, order[i], order[i - 1]) {
        var swapped := Swapped(order, i - 1, i);
        InversionsSwapped(table, order, i, |order|);
        SwappedRearranged(order, i - 1, i, 0, |order|);
        CompatibleKept(table, order, swapped);
        PassSorts(table, swapped, i + 1);
      } else {
        PassSorts(table, order, i + 1);
      }
    }
  }

  lemma {:induction false} PassesShift(table: Table, order: seq<nat>, n: nat)
    requires Indices(table, order)
    ensures Passes(table, Pass(table, order).0, n) == Passes(table, order, n + 1)
  {
    if n > 0 {
      PassesShift(table, order, n - 1);
    } else {
      assert Passes(table, order, 0) == order;
    }
  }

  lemma {:induction false} Ends(table: Table, order: seq<nat>) returns (n: nat)
    requires Indices(table, order) && Compatible(table, order)
    ensures !Pass(table, Passes(table, order, n)).1
    decreases Inversions(table, order, |order|)
  {
    if Pass(table, order).1 {
      var after := Pass(table, order).0;
      PassSorts(table, order, 1);
      PassKeeps(table, order, 1);
      CompatibleKept(table, order, after);
      n := Ends(table, after);
      PassesShift(table, order, n);
      n := n + 1;
    } else {
      n := 0;
      assert Passes(table, order, 0) == order;
    }
  }

  // Some pass makes no exchange exactly when the entries are compatible.
  lemma {:induction false} EndsExactly(table: Table, order: seq<nat>)
    requires Indices(table, order)
    ensures Compatible(table, order) <==> exists n :: !Pass(table, Passes(table, order, n)).1
  {
    if Compatible(table, order) {
      var n := Ends(table, order);
    } else {
      forall n: nat ensures Pass(table, Passes(table, order, n)).1 {
        NeverEnds(table, order, n);
      }
    }
  }

  // ----- the sort

  function Identity(n: nat): (r: seq<nat>)
    ensures |r| == n && forall i | 0 <= i < n :: r[i] == i
  {
    seq(n, i requires 0 <= i => i)
  }

  // One pass in place, over the first `size` indices.
  method BubblePass(table: Table, sort: array<nat>, size: nat) returns (changed: bool)
    requires size <= sort.Length && Indices(table, sort[..size])
    modifies sort
    ensures Pass(table, old(sort[..size])) == (sort[..size], changed)
    ensures sort[size..] == old(sort[size..])
  {
    changed := false;
    ghost var was, goal := sort[..size], Pass(table, sort[..size]);
    var i := 1;
    while i < size
      invariant 1 <= i && Indices(table, sort[..size]) && sort[size..] == old(sort[size..])
      invariant goal.0 == PassFrom(table, sort[..size], i).0
      invariant goal.1 == (changed || PassFrom(table, sort[..size], i).1)
      decreases size - i
    {
      ghost var now := sort[..size];
      if table[sort[i]].end < table[sort[i - 1]].end || (table[sort[i]].sysId == 0 && table[sort[i - 1]].sysId != 0) {
        var temp := sort[i - 1];
        sort[i - 1] := sort[i];
        sort[i] := temp;
        assert sort[..size] == Swapped(now, i - 1, i);
        changed := true;
      }
      i := i + 1;
    }
  }

  // The indices sorted; with incompatible entries the source does not return.
  method SortPartTable(table: Table, sort: array<nat>, size: nat)
    requires size <= sort.Length && size <= |table|
    requires Compatible(table, Identity(size))
    modifies sort
    ensures Indices(table, sort[..size]) && Settled(table, sort[..size])
    ensures multiset(sort[..size]) == multiset(Identity(size))
    ensures sort[size..] == old(sort[size..])
  {
    for i := 0 to size
      invariant sort[..i] == Identity(i) && sort[size..] == old(sort[size..])
    {
      sort[i] := i;
    }
    var changed := true;
    while changed
      invariant Indices(table, sort[..size]) && sort[size..] == old(sort[size..])
      invariant multiset(sort[..size]) == multiset(Identity(size)) && Compatible(table, sort[..size])
      invariant !changed ==> Settled(table, sort[..size])
      decreases Inversions(table, sort[..size], size), if changed then 1 else 0
    {
      ghost var now := sort[..size];
      changed := BubblePass(table, sort, size);
      PassKeeps(table, now, 1);
      PassSorts(table, now, 1);
      PassSettled(table, now, 1);
      CompatibleKept(table, now, sort[..size]);
    }
  }
}
