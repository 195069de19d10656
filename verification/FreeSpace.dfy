/**
  The table of the free space between the partitions of a disk, and its largest entry.
 */
module FreeSpace {
  import opened Wrappers
  import opened Bytes
  import opened PartitionTable

  // ----- sizes

  // Sectors to a track, heads, and cylinders of a disk.
  datatype Geometry = Geometry(sectors: byte, heads: byte, total: word)

  function Word(x: int): word { x % 0x1_0000 }

  // The size of some cylinders; the tracks are counted in 16 bits, the bytes in 32.
  function Megabytes(cylinders: word, disk: Geometry): word {
    var tracks := Word(cylinders * disk.heads as int);
    TrackBytes(tracks, disk.sectors);
    tracks * disk.sectors as int * 512 % 0x1_0000_0000 / 0x10_0000
  }

  lemma {:induction false} TrackBytes(tracks: word, sectors: byte)
    ensures 0 <= tracks * sectors as int < 0x1_0000_0000
    ensures tracks * sectors as int * 512 % 0x1_0000_0000 / 0x10_0000 < 0x1000
  {
    Product(tracks, sectors as int, 0x1_0000, 0x100);
  }

  lemma {:induction false} Product(a: int, b: int, m: int, n: int)
    requires 0 <= a < m && 0 <= b < n
    ensures 0 <= a * b < m * n
  {
    assert a * b <= a * n;
    assert a * n < m * n;
  }

  // The size is right exactly when neither count overflows.
  lemma {:induction false} MegabytesExactly(cylinders: word, disk: Geometry)
    ensures var tracks, sectors := cylinders * disk.heads as int, disk.sectors as int;
      Megabytes(cylinders, disk) == tracks * sectors * 512 / 0x10_0000
      <==> sectors == 0 || (tracks < 0x1_0000 && tracks * sectors < 0x80_0000)
  {
    var tracks, sectors := cylinders * disk.heads as int, disk.sectors as int;
    var low, high := tracks % 0x1_0000, tracks / 0x1_0000;
    assert tracks == low + 0x1_0000 * high && high >= 0;
    Distributed(low, high, sectors);
    var over := low * sectors;
    Product(low, sectors, 0x1_0000, 0x100);
    Cut(over);
    assert tracks * sectors == over + 0x1_0000 * (high * sectors);
    assert tracks * sectors * 512 / 0x10_0000 == over * 512 / 0x10_0000 + 32 * (high * sectors);
    if sectors > 0 && high > 0 {
      assert high * sectors >= 1;
    }
  }

  lemma {:induction false} Distributed(low: int, high: int, sectors: int)
    ensures (low + 0x1_0000 * high) * sectors == low * sectors + 0x1_0000 * (high * sectors)
  {
  }

  lemma {:induction false} Cut(x: nat)
    ensures x * 512 % 0x1_0000_0000 / 0x10_0000 == x * 512 / 0x10_0000 - 0x1000 * (x / 0x80_0000)
  {
  }

  // A disk of two gigabytes that is taken for an empty one.
  lemma {:induction false} MegabytesLost(disk: Geometry)
    requires disk == Geometry(63, 64, 1024)
    ensures Megabytes(disk.total, disk) == 0 && disk.total * 64 * 63 * 512 / 0x10_0000 == 2016
  {
  }

  // ----- gaps

  datatype Gap = Gap(start: word, end: word, space: word, mbytes: word)

  function Sized(start: word, end: word, space: word, disk: Geometry): Gap {
    Gap(start, end, space, Megabytes(space, disk))
  }

  function Before(e: Entry, disk: Geometry): Gap {
    Sized(0, if e.start > 0 then e.start - 1 else 0, e.start, disk)
  }

  function Between(last: Entry, e: Entry, disk: Geometry): Gap {
    var space := if e.start == last.end then 0 else Word(e.start - last.end - 1);
    Sized(Word(last.end + 1), Word(e.start - 1), space, disk)
  }

  function After(last: Entry, disk: Geometry): Gap {
    Sized(Word(last.end + 1), Word(disk.total - 1), Word(disk.total - last.end - 1), disk)
  }

  // The used entries among the first n, in order.
  function UsedIn(table: Table, order: seq<nat>, n: nat): (r: seq<Entry>)
    requires Indices(table, order) && n <= |order|
    ensures |r| <= n && forall i | 0 <= i < |r| :: Used(r[i])
  {
    if n == 0 then []
    else UsedIn(table, order, n - 1) + (if Used(table[order[n - 1]]) then [table[order[n - 1]]] else [])
  }

  // The gap before entry i; after the last one when there are i.
  function GapAt(used: seq<Entry>, disk: Geometry, i: nat): Gap
    requires i <= |used|
  {
    if used == [] then Sized(0, Word(disk.total - 1), disk.total, disk)
    else if i == 0 then Before(used[0], disk)
    else if i < |used| then Between(used[i - 1], used[i], disk)
    else After(used[i - 1], disk)
  }

  function Gaps(used: seq<Entry>, disk: Geometry): (r: seq<Gap>)
    ensures |r| == |used| + 1 && forall i | 0 <= i <= |used| :: r[i] == GapAt(used, disk, i)
  {
    seq(|used| + 1, i requires 0 <= i <= |used| => GapAt(used, disk, i))
  }

  predicate InGap(g: Gap, c: int) { g.start <= c < g.start + g.space }

  predicate InEntry(e: Entry, c: int) { e.start <= c <= e.end }

  // The entries lie on the disk, one behind the other.
  ghost predicate Placed(used: seq<Entry>, disk: Geometry) {
    (forall i | 0 <= i < |used| :: used[i].start <= used[i].end < disk.total)
    && (forall i, j | 0 <= i < j < |used| :: used[i].end < used[j].start)
  }

  // Where gap i starts, and where it stops.
  function GapStart(used: seq<Entry>, i: nat): int
    requires i <= |used|
  {
    if i == 0 then 0 else used[i - 1].end + 1
  }

  function GapStop(used: seq<Entry>, disk: Geometry, i: nat): int
    requires i <= |used|
  {
    if i == |used| then disk.total else used[i].start
  }

  // Every cylinder is in exactly one gap or partition.
  lemma {:induction false} GapsTile(used: seq<Entry>, disk: Geometry, c: nat)
    requires Placed(used, disk) && c < disk.total
    ensures (exists i | 0 <= i < |Gaps(used, disk)| :: InGap(Gaps(used, disk)[i], c))
      <==> !exists j | 0 <= j < |used| :: InEntry(used[j], c)
    ensures forall i, j | 0 <= i < j < |Gaps(used, disk)| && InGap(Gaps(used, disk)[i], c) ::
      !InGap(Gaps(used, disk)[j], c)
    ensures forall i, j | 0 <= i < j < |used| && InEntry(used[i], c) :: !InEntry(used[j], c)
  {
    var gaps := Gaps(used, disk);
    var k := Behind(used, c, |used|, disk);
    forall i | 0 <= i < |gaps| ensures InGap(gaps[i], c) <==> i == k && c < GapStop(used, disk, k) {
      GapPlace(used, disk, i);
      GapHolds(used, disk, c, k, i);
    }
    forall j | 0 <= j < |used| ensures InEntry(used[j], c) <==> j == k && used[k].start <= c {
    }
    if c < GapStop(used, disk, k) {
      assert InGap(gaps[k], c);
    } else {
      assert InEntry(used[k], c);
    }
  }

  lemma {:induction false} GapHolds(used: seq<Entry>, disk: Geometry, c: nat, k: nat, i: nat)
    requires Placed(used, disk) && c < disk.total && k <= |used| && i <= |used|
    requires (forall m | 0 <= m < k :: used[m].end < c) && (k < |used| ==> c <= used[k].end)
    ensures GapStart(used, i) <= c < GapStop(used, disk, i) <==> i == k && c < GapStop(used, disk, k)
  {
    if i < k {
      assert used[i].start <= used[i].end < c;
    } else if i > k {
      assert c <= used[k].end;
      assert i - 1 > k ==> used[k].end < used[i - 1].start <= used[i - 1].end;
    } else if i > 0 {
      assert used[i - 1].end < c;
    }
  }

  // How many of the entries lie before the cylinder.
  lemma {:induction false} Behind(used: seq<Entry>, c: nat, n: nat, disk: Geometry) returns (k: nat)
    requires n <= |used| && Placed(used, disk)
    ensures k <= n && (forall i | 0 <= i < k :: used[i].end < c) && (k < n ==> c <= used[k].end)
  {
    if n == 0 || used[n - 1].end < c {
      k := n;
    } else {
      k := Behind(used, c, n - 1, disk);
    }
  }

  lemma {:induction false} BetweenPlace(last: Entry, e: Entry, disk: Geometry)
    requires last.end < e.start
    ensures var g := Between(last, e, disk); g.start == last.end + 1 && g.start + g.space == e.start
  {
  }

  lemma {:induction false} AfterPlace(last: Entry, disk: Geometry)
    requires last.end < disk.total
    ensures After(last, disk).start == last.end + 1 && After(last, disk).start + After(last, disk).space == disk.total
  {
  }

  lemma {:induction false} GapPlace(used: seq<Entry>, disk: Geometry, i: nat)
    requires Placed(used, disk) && i <= |used|
    ensures var g := Gaps(used, disk)[i]; g.start == GapStart(used, i) && g.start + g.space == GapStop(used, disk, i)
  {
    assert Gaps(used, disk)[i] == GapAt(used, disk, i);
    if 0 < i < |used| {
      BetweenPlace(used[i - 1], used[i], disk);
    } else if 0 < i {
      AfterPlace(used[i - 1], disk);
    }
  }

  // Every gap has the size of its own cylinders and ends where they end, counting in words.
  lemma {:induction false} GapFields(used: seq<Entry>, disk: Geometry, i: nat)
    requires i <= |used|
    ensures var g := Gaps(used, disk)[i];
      g.mbytes == Megabytes(g.space, disk) && (g.space > 0 ==> g.end == Word(g.start + g.space - 1))
  {
    assert Gaps(used, disk)[i] == GapAt(used, disk, i);
    if 0 < i < |used| {
      BetweenFields(used[i - 1], used[i], disk);
    } else if 0 < i {
      AfterFields(used[i - 1], disk);
    }
  }

  lemma {:induction false} BetweenFields(last: Entry, e: Entry, disk: Geometry)
    ensures var g := Between(last, e, disk);
      g.mbytes == Megabytes(g.space, disk) && (g.space > 0 ==> g.end == Word(g.start + g.space - 1))
  {
    WordsAdd(last.end + 1, e.start - last.end - 1);
  }

  lemma {:induction false} AfterFields(last: Entry, disk: Geometry)
    ensures var g := After(last, disk);
      g.mbytes == Megabytes(g.space, disk) && g.end == Word(g.start + g.space - 1)
  {
    WordsAdd(last.end + 1, disk.total - last.end - 1);
  }

  lemma {:induction false} WordsAdd(a: int, b: int)
    ensures Word(Word(a) + Word(b) - 1) == Word(a + b - 1)
  {
  }

  // With partitions that lie one behind the other the words do not overflow.
  lemma {:induction false} GapEnds(used: seq<Entry>, disk: Geometry, i: nat)
    requires Placed(used, disk) && i <= |used|
    ensures var g := Gaps(used, disk)[i]; g.space > 0 ==> g.end == g.start + g.space - 1
  {
    GapFields(used, disk, i);
    GapPlace(used, disk, i);
  }

  // ----- the table of free space

  function UsedEntries(table: Table, order: seq<nat>): seq<Entry>
    requires Indices(table, order)
  {
    UsedIn(table, order, |order|)
  }

  const NONE: Gap := Gap(0, 0, 0, 0)

  // The gaps stand at the start of the free space table, and nothing behind them.
  ghost predicate Shows(free: seq<Gap>, gaps: seq<Gap>) {
    |gaps| <= |free| && free[..|gaps|] == gaps && forall k | |gaps| <= k < |free| :: free[k] == NONE
  }

  // `temp` and `stray` are what two variables hold before anything is assigned to them.
  method FindFreeSpace(table: Table, sort: array<nat>, disk: Geometry, free: array<Gap>, temp: word, stray: int)
    returns (mbytes: Option<word>)
    requires |table| == 4 && sort.Length >= 4 && free.Length == 24 && Compatible(table, Identity(4))
    modifies sort, free
    ensures var order := sort[..4];
      Indices(table, order) && Settled(table, order) && multiset(order) == multiset(Identity(4))
      && Shows(free[..], Gaps(UsedEntries(table, order), disk))
      && mbytes == SizeAt(free[..], Larger(free[..], temp, LastUsed(table, order, 4, stray), 0))
  {
    SortPartTable(table, sort, 4);
    ghost var order := sort[..4];
    var last := FillTable(table, sort, disk, free, stray);
    var at := FindLarger(free, temp, last);
    mbytes := if 0 <= at < 24 then Some(free[at].mbytes) else None;
  }

  method FillTable(table: Table, sort: array<nat>, disk: Geometry, free: array<Gap>, stray: int) returns (last: int)
    requires |table| == 4 && sort.Length >= 4 && free.Length == 24 && Indices(table, sort[..4])
    modifies free
    ensures Shows(free[..], Gaps(UsedEntries(table, sort[..4]), disk)) && last == LastUsed(table, sort[..4], 4, stray)
  {
    for i := 0 to 24
      invariant forall k | 0 <= k < i :: free[k] == NONE
    {
      free[i] := NONE;
    }
    var first := FirstUsed(table, sort, 4);
    if first == 4 {
      last := stray;
      free[0] := Sized(0, Word(disk.total - 1), Word(Word(disk.total - 1) + 1), disk);
      assert free[..1] == Gaps([], disk);
      NoneUsed(table, sort[..4], 4, stray);
    } else {
      var partition := table[sort[first]];
      free[0] := Sized(0, if partition.start > 0 then partition.start - 1 else 0, partition.start, disk);
      last := FillBetween(table, sort, 4, first, disk, free, stray);
    }
  }

  // The table index of the last used entry among the first n in order.
  function LastUsed(table: Table, order: seq<nat>, n: nat, stray: int): int
    requires Indices(table, order) && n <= |order|
  {
    if n == 0 then stray
    else if Used(table[order[n - 1]]) then order[n - 1]
    else LastUsed(table, order, n - 1, stray)
  }

  lemma {:induction false} LastUsedAt(table: Table, order: seq<nat>, n: nat, stray: int, i: nat)
    requires Indices(table, order) && i < n <= |order| && Used(table[order[i]])
    requires forall j | i < j < n :: !Used(table[order[j]])
    ensures LastUsed(table, order, n, stray) == order[i]
  {
    if i < n - 1 {
      LastUsedAt(table, order, n - 1, stray, i);
    }
  }

  lemma {:induction false} NoneUsed(table: Table, order: seq<nat>, n: nat, stray: int)
    requires Indices(table, order) && n <= |order| && UsedIn(table, order, n) == []
    ensures LastUsed(table, order, n, stray) == stray
  {
    if n > 0 {
      NoneUsed(table, order, n - 1, stray);
    }
  }

  // ----- the largest entry

  // The index the search ends with: it goes on from `at` at entry i, past which entries
  // must have more space than `temp`.
  function Larger(free: seq<Gap>, temp: word, at: int, i: nat): int
    requires i <= |free|
    decreases |free| - i
  {
    if i == |free| then at
    else if free[i].space > temp then Larger(free, free[i].space, i, i + 1)
    else Larger(free, temp, at, i + 1)
  }

  function SizeAt(free: seq<Gap>, at: int): Option<word> {
    if 0 <= at < |free| then Some(free[at].mbytes) else None
  }

  method FindLarger(free: array<Gap>, temp0: word, at0: int) returns (at: int)
    ensures at == Larger(free[..], temp0, at0, 0)
  {
    var temp := temp0;
    at := at0;
    for i := 0 to free.Length
      invariant Larger(free[..], temp0, at0, 0) == Larger(free[..], temp, at, i)
    {
      if free[i].space > temp {
        temp := free[i].space;
        at := i;
      }
    }
  }

  // Entry k has the most space of entry i and those behind it, and is the first of them.
  ghost predicate FirstLargest(free: seq<Gap>, i: nat, k: nat) {
    i <= k < |free|
    && (forall j | i <= j < |free| :: free[j].space <= free[k].space)
    && (forall j | i <= j < k :: free[j].space < free[k].space)
  }

  // The search finds the first largest entry exactly when that is larger than what the
  // search starts with; otherwise it stays where it was.
  lemma {:induction false} LargerMeaning(free: seq<Gap>, temp: word, at: int, i: nat, k: nat)
    requires FirstLargest(free, i, k)
    ensures Larger(free, temp, at, i) == if free[k].space > temp then k else at
    decreases |free| - i
  {
    var (temp', at') := if free[i].space > temp then (free[i].space, i) else (temp, at);
    if i < k {
      LargerMeaning(free, temp', at', i + 1, k);
    } else {
      NoneLarger(free, temp', at', i + 1);
    }
  }

  lemma {:induction false} NoneLarger(free: seq<Gap>, temp: word, at: int, i: nat)
    requires i <= |free| && forall j | i <= j < |free| :: free[j].space <= temp
    ensures Larger(free, temp, at, i) == at
    decreases |free| - i
  {
    if i < |free| {
      NoneLarger(free, temp, at, i + 1);
    }
  }

  // The size reported is that of the first largest gap exactly when what the search starts
  // with is less, or the entry with the index of the last partition has that size too.
  lemma {:induction false} LargestReported(free: seq<Gap>, temp: word, at: int, k: nat)
    requires FirstLargest(free, 0, k)
    ensures SizeAt(free, Larger(free, temp, at, 0)) == Some(free[k].mbytes)
      <==> temp < free[k].space || (0 <= at < |free| && free[at].mbytes == free[k].mbytes)
  {
    LargerMeaning(free, temp, at, 0, k);
  }

  // One partition at the start of a disk of a hundred cylinders: 44 megabytes are free
  // behind it, and none are reported if `temp` happens to start at 90 or more.
  lemma {:induction false} StrayMaximum(table: Table, order: seq<nat>, disk: Geometry, free: seq<Gap>, temp: word,
                                        stray: int)
    requires table == [Entry(6, 0, 9), Entry(0, 0, 0), Entry(0, 0, 0), Entry(0, 0, 0)] && order == [1, 2, 3, 0]
    requires disk == Geometry(63, 16, 100) && |free| == 24 && Shows(free, Gaps(UsedEntries(table, order), disk))
    ensures Settled(table, order) && FirstLargest(free, 0, 1) && free[1].mbytes == 44
    ensures SizeAt(free, Larger(free, temp, LastUsed(table, order, 4, stray), 0)) == Some(if temp < 90 then 44 else 0)
  {
    OnlyFirst(table, order, stray);
    assert free[..2] == Gaps([table[0]], disk);
    assert free[0] == Before(table[0], disk) && free[1] == After(table[0], disk);
    LargerMeaning(free, temp, 0, 0, 1);
  }

  lemma {:induction false} OnlyFirst(table: Table, order: seq<nat>, stray: int)
    requires |table| == 4 && order == [1, 2, 3, 0] && Used(table[0])
    requires !Used(table[1]) && !Used(table[2]) && !Used(table[3])
    ensures UsedEntries(table, order) == [table[0]] && LastUsed(table, order, 4, stray) == 0
  {
    assert UsedIn(table, order, 1) == [];
    assert UsedIn(table, order, 2) == [];
    assert UsedIn(table, order, 3) == [];
  }

  // ----- filling the table

  // The first used entry in order.
  method FirstUsed(table: Table, sort: array<nat>, size: nat) returns (first: nat)
    requires sort.Length >= size && Indices(table, sort[..size])
    ensures first <= size && UsedIn(table, sort[..size], first) == []
    ensures first < size ==> Used(table[sort[first]]) && UsedIn(table, sort[..size], first + 1) == [table[sort[first]]]
  {
    first := 0;
    while first < size
      invariant first <= size && UsedIn(table, sort[..size], first) == []
    {
      if table[sort[first]].sysId != 0 {
        return;
      }
      first := first + 1;
    }
  }

  // The gaps before the used entries are in the table.
  ghost predicate Filled(free: seq<Gap>, used: seq<Entry>, disk: Geometry) {
    1 <= |used| < |free| && free[0] == Before(used[0], disk)
    && (forall k | 1 <= k < |used| :: free[k] == Between(used[k - 1], used[k], disk))
    && (forall k | |used| <= k < |free| :: free[k] == NONE)
  }

  lemma {:induction false} FilledMore(free: seq<Gap>, used: seq<Entry>, e: Entry, disk: Geometry)
    requires Filled(free, used, disk) && |used| + 1 < |free|
    ensures Filled(free[|used| := Between(used[|used| - 1], e, disk)], used + [e], disk)
  {
  }

  lemma {:induction false} FilledAll(free: seq<Gap>, used: seq<Entry>, disk: Geometry)
    requires Filled(free, used, disk)
    ensures Shows(free[|used| := After(used[|used| - 1], disk)], Gaps(used, disk))
  {
    var gaps, shown := Gaps(used, disk), free[|used| := After(used[|used| - 1], disk)];
    forall k | 0 <= k < |gaps| ensures shown[k] == gaps[k] {
      assert gaps[k] == GapAt(used, disk, k);
    }
  }

  method FillBetween(table: Table, sort: array<nat>, size: nat, first: nat, disk: Geometry, free: array<Gap>,
                     ghost stray: int)
    returns (last: nat)
    requires first < size <= sort.Length && Indices(table, sort[..size]) && size + 1 <= free.Length
    requires Used(table[sort[first]]) && UsedIn(table, sort[..size], first + 1) == [table[sort[first]]]
    requires free[0] == Before(table[sort[first]], disk) && forall k | 1 <= k < free.Length :: free[k] == NONE
    modifies free
    ensures Shows(free[..], Gaps(UsedEntries(table, sort[..size]), disk))
    ensures last == LastUsed(table, sort[..size], size, stray)
  {
    var count;
    last, count := FillBefore(table, sort, size, first, disk, free, stray);
    FilledAll(free[..], UsedEntries(table, sort[..size]), disk);
    SpaceAfter(table[last], disk);
    var space := Word(Word(disk.total - table[last].end) - 1);
    free[count] := Sized(Word(table[last].end + 1), Word(disk.total - 1), space, disk);
  }

  // The gaps before the first i entries are in the table.
  ghost predicate FilledTo(free: seq<Gap>, table: Table, order: seq<nat>, i: nat, last: nat, count: nat, disk: Geometry,
                           stray: int)
    requires Indices(table, order) && i <= |order|
  {
    var used := UsedIn(table, order, i);
    count == |used| && Filled(free, used, disk) && last < |table| && used[count - 1] == table[last]
    && last == LastUsed(table, order, i, stray)
  }

  lemma {:induction false} FilledFirst(free: seq<Gap>, table: Table, order: seq<nat>, first: nat, disk: Geometry,
                                       stray: int)
    requires Indices(table, order) && first < |order| && |free| > 1 && Used(table[order[first]])
    requires UsedIn(table, order, first + 1) == [table[order[first]]]
    requires free[0] == Before(table[order[first]], disk) && forall k | 1 <= k < |free| :: free[k] == NONE
    ensures FilledTo(free, table, order, first + 1, order[first], 1, disk, stray)
  {
  }

  lemma {:induction false} FilledNext(free: seq<Gap>, table: Table, order: seq<nat>, i: nat, last: nat, count: nat,
                                      disk: Geometry, stray: int)
    requires Indices(table, order) && i < |order| && FilledTo(free, table, order, i, last, count, disk, stray)
    requires |order| + 1 <= |free| && Used(table[order[i]])
    ensures var gap := Between(table[last], table[order[i]], disk);
      FilledTo(free[count := gap], table, order, i + 1, order[i], count + 1, disk, stray)
  {
    FilledMore(free, UsedIn(table, order, i), table[order[i]], disk);
  }

  lemma {:induction false} FilledPast(free: seq<Gap>, table: Table, order: seq<nat>, i: nat, last: nat, count: nat,
                                      disk: Geometry, stray: int)
    requires Indices(table, order) && i < |order| && FilledTo(free, table, order, i, last, count, disk, stray)
    requires !Used(table[order[i]])
    ensures FilledTo(free, table, order, i + 1, last, count, disk, stray)
  {
  }

  method FillBefore(table: Table, sort: array<nat>, size: nat, first: nat, disk: Geometry, free: array<Gap>,
                    ghost stray: int)
    returns (last: nat, count: nat)
    requires first < size <= sort.Length && Indices(table, sort[..size]) && size + 1 <= free.Length
    requires Used(table[sort[first]]) && UsedIn(table, sort[..size], first + 1) == [table[sort[first]]]
    requires free[0] == Before(table[sort[first]], disk) && forall k | 1 <= k < free.Length :: free[k] == NONE
    modifies free
    ensures FilledTo(free[..], table, sort[..size], size, last, count, disk, stray)
  {
    last, count := sort[first], 1;
    ghost var order := sort[..size];
    FilledFirst(free[..], table, order, first, disk, stray);
    var i := first + 1;
    while i < size
      invariant first < i <= size && sort[..size] == order
      invariant FilledTo(free[..], table, order, i, last, count, disk, stray)
    {
      last, count := FillNext(table, order, sort[i], i, last, count, disk, free, stray);
      i := i + 1;
    }
  }

  // One entry: when it is used, the gap before it is noted.
  method FillNext(table: Table, ghost order: seq<nat>, index: nat, ghost i: nat, last: nat, count: nat, disk: Geometry,
                  free: array<Gap>, ghost stray: int)
    returns (last': nat, count': nat)
    requires Indices(table, order) && i < |order| && index == order[i] && |order| + 1 <= free.Length
    requires FilledTo(free[..], table, order, i, last, count, disk, stray)
    modifies free
    ensures FilledTo(free[..], table, order, i + 1, last', count', disk, stray)
  {
    if table[index].sysId == 0 {
      FilledPast(free[..], table, order, i, last, count, disk, stray);
      return last, count;
    }
    FilledNext(free[..], table, order, i, last, count, disk, stray);
    free[count] := GapBetween(table[last], table[index], disk);
    last', count' := index, count + 1;
  }

  method GapBetween(last: Entry, e: Entry, disk: Geometry) returns (gap: Gap)
    ensures gap == Between(last, e, disk)
  {
    var space := 0;
    if e.start != last.end {
      space := Word(e.start - (last.end + 1));
      var temp_size := Word(e.start - last.end);
      if temp_size != 0 {
        space := Word(temp_size - 1);
      }
    }
    SpaceBetween(last, e);
    gap := Sized(Word(last.end + 1), Word(e.start - 1), space, disk);
  }

  lemma {:induction false} SpaceBetween(last: Entry, e: Entry)
    ensures Word(e.start - (last.end + 1)) == Word(e.start - last.end - 1)
    ensures Word(Word(e.start - last.end) - 1) == Word(e.start - last.end - 1)
  {
  }

  lemma {:induction false} SpaceAfter(last: Entry, disk: Geometry)
    ensures Word(Word(disk.total - last.end) - 1) == Word(disk.total - last.end - 1)
  {
  }

  // ----- the whole

  // The used entries lie on the disk, and no two share a cylinder.
  ghost predicate Disjoint(table: Table, disk: Geometry) {
    (forall i | 0 <= i < |table| && Used(table[i]) :: table[i].start <= table[i].end < disk.total)
    && (forall i, j | 0 <= i < j < |table| && Used(table[i]) && Used(table[j]) ::
          table[i].end < table[j].start || table[j].end < table[i].start)
  }

  lemma {:induction false} UsedFrom(table: Table, order: seq<nat>, n: nat, k: nat) returns (i: nat)
    requires Indices(table, order) && n <= |order| && k < |UsedIn(table, order, n)|
    ensures i < n && Used(table[order[i]]) && UsedIn(table, order, n)[k] == table[order[i]]
  {
    if k < |UsedIn(table, order, n - 1)| {
      i := UsedFrom(table, order, n - 1, k);
    } else {
      i := n - 1;
    }
  }

  lemma {:induction false} UsedInto(table: Table, order: seq<nat>, n: nat, i: nat) returns (k: nat)
    requires Indices(table, order) && i < n <= |order| && Used(table[order[i]])
    ensures k < |UsedIn(table, order, n)| && UsedIn(table, order, n)[k] == table[order[i]]
  {
    if i < n - 1 {
      k := UsedInto(table, order, n - 1, i);
    } else {
      k := |UsedIn(table, order, n - 1)|;
    }
  }

  // In a settled order, disjoint entries lie one behind the other.
  lemma {:induction false} UsedPlaced(table: Table, order: seq<nat>, disk: Geometry, n: nat)
    requires Indices(table, order) && Settled(table, order) && Disjoint(table, disk) && n <= |order|
    requires forall i, j | 0 <= i < j < |order| :: order[i] != order[j]
    ensures Placed(UsedIn(table, order, n), disk)
  {
    if n > 0 {
      UsedPlaced(table, order, disk, n - 1);
      var before, e := UsedIn(table, order, n - 1), table[order[n - 1]];
      if Used(e) {
        forall k | 0 <= k < |before| ensures before[k].end < e.start {
          var i := UsedFrom(table, order, n - 1, k);
          SettledSorted(table, order, i, n - 1);
          assert order[i] != order[n - 1];
        }
      }
    }
  }

  // An order of all indices has each of them, once.
  lemma {:induction false} AllIndices(order: seq<nat>, n: nat)
    requires multiset(order) == multiset(Identity(n))
    ensures |order| == n
    ensures forall i, j | 0 <= i < j < |order| :: order[i] != order[j]
    ensures forall i | 0 <= i < n :: i in order
  {
    assert |multiset(order)| == |multiset(Identity(n))|;
    IdentityOnce(n);
    forall i, j | 0 <= i < j < |order| ensures order[i] != order[j] {
      TwiceIn(order, i, j);
      assert multiset(order)[order[i]] == multiset(Identity(n))[order[i]] <= 1;
    }
    forall i | 0 <= i < n ensures i in order {
      assert Identity(n)[i] in multiset(order);
    }
  }

  lemma {:induction false} IdentityOnce(n: nat)
    ensures forall x :: multiset(Identity(n))[x] <= 1
  {
    if n > 0 {
      IdentityOnce(n - 1);
      assert Identity(n) == Identity(n - 1) + [n - 1];
      assert n - 1 !in Identity(n - 1);
    }
  }

  lemma {:induction false} TwiceIn(s: seq<nat>, i: nat, j: nat)
    requires i < j < |s|
    ensures s[i] == s[j] ==> multiset(s)[s[i]] >= 2
  {
    assert s == s[..i + 1] + s[i + 1..];
    assert s[i] in s[..i + 1];
    assert s[i + 1..][j - i - 1] == s[j];
  }

  // With disjoint partitions, every cylinder of the disk is in exactly one of the gaps found
  // or in exactly one partition.
  lemma {:induction false} CylindersTiled(table: Table, order: seq<nat>, disk: Geometry, c: nat)
    requires multiset(order) == multiset(Identity(|table|)) && Indices(table, order) && Settled(table, order)
    requires Disjoint(table, disk) && c < disk.total
    ensures var gaps := Gaps(UsedEntries(table, order), disk);
      (exists i | 0 <= i < |gaps| :: InGap(gaps[i], c))
      <==> !exists j | 0 <= j < |table| :: Used(table[j]) && InEntry(table[j], c)
    ensures var gaps := Gaps(UsedEntries(table, order), disk);
      forall i, j | 0 <= i < j < |gaps| && InGap(gaps[i], c) :: !InGap(gaps[j], c)
    ensures forall i, j | 0 <= i < j < |table| && Used(table[i]) && Used(table[j]) && InEntry(table[i], c) ::
      !InEntry(table[j], c)
  {
    var used := UsedEntries(table, order);
    AllIndices(order, |table|);
    UsedPlaced(table, order, disk, |order|);
    GapsTile(used, disk, c);
    if k :| 0 <= k < |used| && InEntry(used[k], c) {
      var i := UsedFrom(table, order, |order|, k);
      assert Used(table[order[i]]) && InEntry(table[order[i]], c);
    }
    if j :| 0 <= j < |table| && Used(table[j]) && InEntry(table[j], c) {
      assert j in order;
      var i :| 0 <= i < |order| && order[i] == j;
      var k := UsedInto(table, order, |order|, i);
      assert InEntry(used[k], c);
    }
  }
}
