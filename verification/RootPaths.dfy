/** Making a path argument full and simple, by editing one string buffer in place. */
module RootPaths {
  import opened Wrappers
  import opened Bytes
  import opened DbcsSearch
  import opened PathFold
  import opened PathText

  predicate NulFree(s: seq<byte>) { forall i | 0 <= i < |s| :: s[i] != 0 }

  // The buffer holds the text as a NUL-terminated string.
  ghost predicate Holds(buffer: seq<byte>, text: seq<byte>) {
    |text| < |buffer| && buffer[..|text|] == text && buffer[|text|] == 0 && NulFree(text)
  }

  lemma {:induction false} HoldsString(buffer: seq<byte>, text: seq<byte>, start: nat)
    requires Holds(buffer, text) && start <= |text|
    ensures StringAt(buffer, start, |text|) && buffer[start..|text|] == text[start..]
  {
    assert forall k | 0 <= k < |text| :: buffer[k] == buffer[..|text|][k];
  }

  // ----- string functions

  method StrLen(a: array<byte>, start: nat, ghost end: nat) returns (n: nat)
    requires StringAt(a[..], start, end)
    ensures n == end - start
  {
    n := 0;
    while a[start + n] != 0
      invariant start + n <= end
      decreases end - n
    {
      n := n + 1;
    }
  }

  method StrEq(a: array<byte>, start: nat, ghost end: nat, other: seq<byte>) returns (equal: bool)
    requires StringAt(a[..], start, end) && NulFree(other)
    ensures equal <==> a[..][start..end] == other
  {
    var k := 0;
    ghost var s := a[..][start..end];
    while k < |other| && a[start + k] == other[k]
      invariant k <= |other| && start + k <= end && s[..k] == other[..k]
    {
      k := k + 1;
    }
    equal := k == |other| && a[start + k] == 0;
    assert start + k < end && k < |other| ==> s[k] != other[k];
  }

  // strcpy and strcat of a text into the buffer, at the end of what it holds.
  method Append(a: array<byte>, at: nat, ghost held: seq<byte>, text: seq<byte>)
    requires |held| == at < a.Length && a[..at] == held && NulFree(held) && NulFree(text) && at + |text| < a.Length
    modifies a
    ensures Holds(a[..], held + text)
  {
    var k := 0;
    while k < |text|
      invariant k <= |text| && a[..at] == held && a[at..at + k] == text[..k]
    {
      a[at + k] := text[k];
      k := k + 1;
    }
    a[at + k] := 0;
    assert text[..k] == text;
    assert a[..][..at + k] == a[..at] + a[at..at + k];
  }

  // The buffer when k bytes from src on are copied to dst.
  ghost function Moved(was: seq<byte>, dst: nat, src: nat, k: nat): (r: seq<byte>)
    requires dst <= src && src + k <= |was|
    ensures |r| == |was|
  {
    was[..dst] + was[src..src + k] + was[dst + k..]
  }

  lemma {:induction false} MovedMore(was: seq<byte>, dst: nat, src: nat, k: nat)
    requires dst <= src && src + k < |was|
    ensures Moved(was, dst, src, k)[src + k] == was[src + k]
    ensures Moved(was, dst, src, k)[dst + k := was[src + k]] == Moved(was, dst, src, k + 1)
  {
  }

  lemma {:induction false} MovedText(was: seq<byte>, text: seq<byte>, dst: nat, src: nat)
    requires Holds(was, text) && dst <= src <= |text|
    ensures var k := |text| - src; Holds(Moved(was, dst, src, k)[dst + k := 0], text[..dst] + text[src..])
  {
    var k, r := |text| - src, text[..dst] + text[src..];
    var b := Moved(was, dst, src, k)[dst + k := 0];
    assert was[src..src + k] == was[..|text|][src..];
    assert was[..dst] == was[..|text|][..dst];
    assert b[..dst + k] == r;
  }

  // strcpy within the buffer, downwards: what lies between is removed.
  method Remove(a: array<byte>, dst: nat, src: nat, ghost text: seq<byte>)
    requires Holds(a[..], text) && dst <= src <= |text|
    modifies a
    ensures Holds(a[..], text[..dst] + text[src..])
  {
    var k := 0;
    ghost var was := a[..];
    HoldsString(was, text, src);
    assert Moved(was, dst, src, 0) == was;
    MovedMore(was, dst, src, k);
    while a[src + k] != 0
      invariant src + k <= |text| && a[..] == Moved(was, dst, src, k) && a[src + k] == was[src + k]
      decreases |text| - k
    {
      a[dst + k] := a[src + k];
      MovedMore(was, dst, src, k);
      k := k + 1;
      MovedMore(was, dst, src, k);
    }
    a[dst + k] := 0;
    MovedText(was, text, dst, src);
  }

  // ----- one segment

  // strbscan: the next separator, or the end of the string.
  method StrbScan(a: array<byte>, start: nat, ghost end: nat, lead: Lead) returns (p: nat)
    requires StringAt(a[..], start, end)
    ensures var r := FirstFrom(lead, a[..], start, end, SEPARATOR); p == if r == None then end else r.value
  {
    var r := ComSubstr(a, start, end, SEPARATOR, lead);
    if r == None {
      var n := StrLen(a, start, end);
      return start + n;
    }
    p := r.value;
  }

  // Where the scan from p ends, and where the last element from there on starts.
  ghost function EndFrom(lead: Lead, kept: seq<byte>, p: nat): nat
    requires p <= |kept|
  {
    p + SegmentEnd(lead, kept[p..])
  }

  ghost function LastFrom(lead: Lead, kept: seq<byte>, p: nat): nat
    requires p <= |kept|
  {
    p + LastElement(lead, kept[p..])
  }

  // The scan for the start of the last element, over the buffer cut off behind what is kept.
  method FindLastStart(a: array<byte>, ghost kept: seq<byte>, lead: Lead) returns (p1: nat)
    requires Holds(a[..], kept)
    ensures p1 == LastElement(lead, kept)
  {
    ghost var last := LastElement(lead, kept);
    assert kept[0..] == kept;
    p1 := 0;
    var p2 := ScanElement(a, p1, kept, lead);
    while a[p2] != 0
      invariant p1 <= |kept| && p2 < a.Length && LastFrom(lead, kept, p1) == last
      invariant if a[p2] == 0 then last == p1 else p1 <= p2 < |kept| && LastFrom(lead, kept, p2 + 1) == last
      decreases |kept| - p1
    {
      p1 := p2 + 1;
      p2 := ScanElement(a, p1, kept, lead);
    }
  }

  // One scan: it ends behind the last element, or the last element is further on.
  method ScanElement(a: array<byte>, p1: nat, ghost kept: seq<byte>, lead: Lead) returns (p2: nat)
    requires Holds(a[..], kept) && p1 <= |kept|
    ensures p1 <= p2 <= |kept| < a.Length
    ensures if a[p2] == 0 then LastFrom(lead, kept, p1) == p1
            else p2 < |kept| && LastFrom(lead, kept, p2 + 1) == LastFrom(lead, kept, p1)
  {
    ScanEnd(lead, a[..], kept, p1);
    p2 := StrbScan(a, p1, |kept|, lead);
  }

  // What one scan finds, and how far the last element is from there.
  lemma {:induction false} ScanEnd(lead: Lead, buffer: seq<byte>, kept: seq<byte>, start: nat)
    requires Holds(buffer, kept) && start <= |kept|
    ensures StringAt(buffer, start, |kept|)
    ensures var r := FirstFrom(lead, buffer, start, |kept|, SEPARATOR);
      EndFrom(lead, kept, start) == if r == None then |kept| else r.value
    ensures var end := EndFrom(lead, kept, start);
      start <= end <= |kept| && (buffer[end] == 0 <==> end == |kept|)
      && LastFrom(lead, kept, start) == if end == |kept| then start else LastFrom(lead, kept, end + 1)
  {
    var s, k := kept[start..], SegmentEnd(lead, kept[start..]);
    HoldsString(buffer, kept, start);
    SeparatorFound(lead, s);
    if k < |s| {
      assert s[k + 1..] == kept[start + k + 1..];
      assert buffer[..|kept|][start + k] == kept[start + k];
    }
  }

  lemma {:induction false} CutOff(buffer: seq<byte>, text: seq<byte>, at: nat)
    requires Holds(buffer, text) && at <= |text|
    ensures Holds(buffer[at := 0], text[..at])
    ensures buffer[at := 0][at := buffer[at]] == buffer
  {
    assert buffer[at := 0][..at] == buffer[..|text|][..at];
  }

  // strcmp of the segment from start to end, which is cut off from the rest for a moment.
  method SegmentIs(a: array<byte>, start: nat, end: nat, other: seq<byte>, ghost text: seq<byte>) returns (equal: bool)
    requires Holds(a[..], text) && start <= end <= |text| && NulFree(other)
    modifies a
    ensures a[..] == old(a[..]) && (equal <==> text[start..end] == other)
  {
    ghost var was := a[..];
    var tempchar := a[end];
    CutOff(was, text, end);
    a[end] := 0;
    HoldsString(a[..], text[..end], start);
    equal := StrEq(a, start, end, other);
    assert text[..end][start..] == text[start..end];
    a[end] := tempchar;
  }

  // ".." at follow: the last element kept is taken out with it.
  method DropLast(a: array<byte>, follow: nat, next: nat, ghost text: seq<byte>, lead: Lead)
    returns (failed: bool, now: nat)
    requires Holds(a[..], text) && follow <= next <= |text|
    modifies a
    ensures var p := LastElement(lead, text[..follow]);
      failed == (p == 0) && (!failed ==> now == p - 1 && Holds(a[..], text[..now] + text[next..]))
  {
    ghost var was, p := a[..], LastElement(lead, text[..follow]);
    var tempchar := a[follow];
    CutOff(was, text, follow);
    a[follow] := 0;
    var p1 := FindLastStart(a, text[..follow], lead);
    a[follow] := tempchar;
    if p1 == 0 {
      return true, 0;
    }
    assert text[..follow][..p1 - 1] == text[..p1 - 1];
    Remove(a, p1 - 1, next, text);
    failed, now := false, p1 - 1;
  }

  // Where a segment g stands: behind the text kept and a separator, the rest behind it.
  ghost predicate Stands(text: seq<byte>, follow: nat, next: nat, kept: seq<byte>, g: seq<byte>, rest: seq<byte>) {
    follow == |kept| && next == follow + 1 + |g| && text == kept + SEPARATOR + g + rest
  }

  // The segment is dropped, drops another, or is kept.
  method Treat(a: array<byte>, follow: nat, next: nat, ghost text: seq<byte>, ghost kept: seq<byte>, ghost g: seq<byte>,
               ghost rest: seq<byte>, lead: Lead)
    returns (failed: bool, now: nat)
    requires Holds(a[..], text) && Stands(text, follow, next, kept, g, rest)
    modifies a
    ensures failed == Treated(lead, kept, g).None?
    ensures var r := Treated(lead, kept, g); r.Some? ==> now == |r.value| && Holds(a[..], r.value + rest)
  {
    StandsParts(text, follow, next, kept, g, rest);
    var dot := SegmentIs(a, follow + 1, next, DOT, text);
    if dot {
      Remove(a, follow, next, text);
      return false, follow;
    }
    var dotdot := SegmentIs(a, follow + 1, next, DOTDOT, text);
    if dotdot {
      failed, now := DropLast(a, follow, next, text, lead);
      assert !failed ==> kept[..now] == text[..now];
    } else {
      failed, now := false, next;
    }
  }

  lemma {:induction false} StandsParts(text: seq<byte>, follow: nat, next: nat, kept: seq<byte>, g: seq<byte>,
                                       rest: seq<byte>)
    requires Stands(text, follow, next, kept, g, rest)
    ensures next <= |text| && text[..follow] == kept && text[follow + 1..next] == g && text[next..] == rest
  {
  }

  // ----- the whole path

  // The text that is still ahead: empty, or a separator and more.
  ghost predicate Ahead(tail: seq<byte>) { tail != [] ==> tail[0] == BACKSLASH }

  lemma {:induction false} SegmentAhead(lead: Lead, tail: seq<byte>)
    requires tail != [] && Ahead(tail)
    ensures var k := SegmentEnd(lead, tail[1..]); var segments := SegmentsOf(lead, tail);
      1 + k <= |tail| && segments[0] == tail[1..1 + k] && Ahead(tail[1 + k..])
      && segments[1..] == SegmentsOf(lead, tail[1 + k..])
  {
    var s, k := tail[1..], SegmentEnd(lead, tail[1..]);
    SeparatorFound(lead, s);
    assert s[..k] == tail[1..1 + k];
    if k < |s| {
      assert tail[1 + k..][1..] == s[k + 1..];
    } else {
      assert tail[1 + k..] == [];
    }
  }

  // The end of the segment behind follow.
  method NextSegment(a: array<byte>, follow: nat, ghost text: seq<byte>, ghost tail: seq<byte>, lead: Lead)
    returns (next: nat)
    requires Holds(a[..], text) && follow < |text| && text[follow..] == tail
    ensures next == follow + 1 + SegmentEnd(lead, tail[1..])
  {
    assert text[follow + 1..] == tail[1..];
    ScanEnd(lead, a[..], text, follow + 1);
    next := StrbScan(a, follow + 1, |text|, lead);
  }

  // One turn of the loop.
  method Turn(a: array<byte>, follow: nat, ghost kept: seq<byte>, ghost tail: seq<byte>, ghost k: nat, lead: Lead)
    returns (failed: bool, now: nat, ghost kept': seq<byte>)
    requires Holds(a[..], kept + tail) && follow == |kept| && tail != [] && Ahead(tail)
    requires k == SegmentEnd(lead, tail[1..])
    modifies a
    ensures var r := Treated(lead, kept, tail[1..1 + k]);
      failed == r.None? && (!failed ==> kept' == r.value && now == |kept'| && Holds(a[..], kept' + tail[1 + k..]))
  {
    Pieces(kept, tail, k);
    var next := NextSegment(a, follow, kept + tail, tail, lead);
    failed, now := Treat(a, follow, next, kept + tail, kept, tail[1..1 + k], tail[1 + k..], lead);
    kept' := if failed then [] else Treated(lead, kept, tail[1..1 + k]).value;
  }

  lemma {:induction false} Pieces(kept: seq<byte>, tail: seq<byte>, k: nat)
    requires 1 + k <= |tail| && tail[0] == BACKSLASH
    ensures var text, follow := kept + tail, |kept|;
      text[follow..] == tail && Stands(text, follow, follow + 1 + k, kept, tail[1..1 + k], tail[1 + k..])
  {
    assert tail == SEPARATOR + tail[1..1 + k] + tail[1 + k..];
  }

  lemma {:induction false} FoldStep(lead: Lead, kept: seq<byte>, tail: seq<byte>, k: nat)
    requires tail != [] && Ahead(tail) && k == SegmentEnd(lead, tail[1..])
    ensures var r := Treated(lead, kept, tail[1..1 + k]);
      FoldText(lead, kept, SegmentsOf(lead, tail))
      == if r == None then None else FoldText(lead, r.value, SegmentsOf(lead, tail[1 + k..]))
    ensures Ahead(tail[1 + k..])
  {
    SegmentAhead(lead, tail);
  }

  // All turns: the fold of the segments ahead over the text kept, in place.
  method Canonicalize(a: array<byte>, start: nat, ghost kept0: seq<byte>, ghost tail0: seq<byte>, lead: Lead)
    returns (failed: bool)
    requires Holds(a[..], kept0 + tail0) && start == |kept0| && Ahead(tail0)
    modifies a
    ensures var r := FoldText(lead, kept0, SegmentsOf(lead, tail0));
      failed == r.None? && (!failed ==> Holds(a[..], r.value))
  {
    var follow := start;
    ghost var kept, tail := kept0, tail0;
    AtEnd(a[..], kept, tail);
    while a[follow] != 0
      invariant Holds(a[..], kept + tail) && follow == |kept| && Ahead(tail)
      invariant FoldText(lead, kept0, SegmentsOf(lead, tail0)) == FoldText(lead, kept, SegmentsOf(lead, tail))
      invariant follow < a.Length && (a[follow] == 0 <==> tail == [])
      decreases |tail|
    {
      ghost var k := SegmentEnd(lead, tail[1..]);
      FoldStep(lead, kept, tail, k);
      failed, follow, kept := Turn(a, follow, kept, tail, k, lead);
      if failed {
        return;
      }
      tail := tail[1 + k..];
      AtEnd(a[..], kept, tail);
    }
    assert kept + tail == kept;
    failed := false;
  }

  lemma {:induction false} AtEnd(buffer: seq<byte>, kept: seq<byte>, tail: seq<byte>)
    requires Holds(buffer, kept + tail)
    ensures |kept| < |buffer| && (buffer[|kept|] == 0 <==> tail == [])
  {
    var text := kept + tail;
    if tail != [] {
      assert buffer[..|text|][|kept|] == text[|kept|];
    }
  }

  // ----- rootpath

  // The first turn of the loop walks over the drive and what the colon leads.
  method FirstTurn(a: array<byte>, ghost text: seq<byte>, lead: Lead) returns (next: nat)
    requires Holds(a[..], text) && |text| > 2 && text[1] == COLON
    modifies a
    ensures a[..] == old(a[..]) && next == 1 + SegmentEnd(lead, text[1..])
  {
    ScanEnd(lead, a[..], text, 1);
    FirstSegment(lead, text);
    next := StrbScan(a, 1, |text|, lead);
    var dot := SegmentIs(a, 1, next, DOT, text);
    var dotdot := SegmentIs(a, 1, next, DOTDOT, text);
    assert !dot && !dotdot;
  }

  lemma {:induction false} FirstSegment(lead: Lead, text: seq<byte>)
    requires |text| > 2 && text[1] == COLON
    ensures var k := SegmentEnd(lead, text[1..]); 0 < k && text[1..1 + k][0] == COLON
    ensures var k := SegmentEnd(lead, text[1..]); var segments := Split(lead, text[1..]);
      segments[0] == text[1..1 + k] && segments[1..] == SegmentsOf(lead, text[1 + k..]) && Ahead(text[1 + k..])
  {
    var tail := SEPARATOR + text[1..];
    assert tail[1..] == text[1..];
    SegmentAhead(lead, tail);
    SeparatorFound(lead, text[1..]);
    var k := SegmentEnd(lead, text[1..]);
    assert tail[1 + k..] == text[1 + k..];
    assert tail[1..1 + k] == text[1..1 + k];
  }

  // Everything before the loop: the drive, the base directory and the argument.
  method Fill(relpath: seq<byte>, current: byte, curdir: byte -> Option<seq<byte>>, a: array<byte>)
    returns (failed: bool)
    requires current < 26 && NulFree(relpath)
    requires var base := Base(relpath, current, curdir);
      base.Some? ==> NulFree(base.value.1) && |base.value.1| + 4 <= a.Length
    requires a.Length >= 4
    modifies a
    ensures failed == Base(relpath, current, curdir).None?
    ensures var base := Base(relpath, current, curdir);
      base.Some? ==> Holds(a[..], [base.value.0, COLON] + SEPARATOR + base.value.1)
  {
    var drive, rest := 0x41 + current, relpath;
    if |relpath| > 0 && |relpath| > 1 && relpath[1] == COLON {
      drive, rest := relpath[0], relpath[2..];
    }
    a[0], a[1] := drive, COLON;
    assert a[..2] == [drive, COLON];
    if |rest| > 0 && rest[0] == BACKSLASH {
      Append(a, 2, [drive, COLON], rest);
      assert rest == SEPARATOR + rest[1..];
      assert [drive, COLON] + rest == [drive, COLON] + SEPARATOR + rest[1..];
      return false;
    }
    var directory := curdir(drive);
    if directory.None? {
      return true;
    }
    var tail := directory.value + (if rest != [] && directory.value != [] then SEPARATOR else []) + rest;
    Append(a, 2, [drive, COLON], SEPARATOR + tail);
    assert [drive, COLON] + (SEPARATOR + tail) == [drive, COLON] + SEPARATOR + tail;
    failed := false;
  }

  // The full path in the buffer, or true for an error: no current directory, or a ".." too many.
  method RootPath(relpath: seq<byte>, current: byte, curdir: byte -> Option<seq<byte>>, a: array<byte>, lead: Lead)
    returns (error: bool)
    requires current < 26 && NulFree(relpath)
    requires var base := Base(relpath, current, curdir);
      base.Some? ==> NulFree(base.value.1) && |base.value.1| + 4 <= a.Length
    requires a.Length >= 4
    modifies a
    ensures error == FullPath(lead, relpath, current, curdir).None?
    ensures !error ==> Holds(a[..], FullPath(lead, relpath, current, curdir).value)
  {
    error := Fill(relpath, current, curdir, a);
    if error {
      return;
    }
    ghost var (drive, body) := Base(relpath, current, curdir).value;
    ghost var text := [drive, COLON] + SEPARATOR + body;
    FirstSegment(lead, text);
    var follow := FirstTurn(a, text, lead);
    assert text[..follow] + text[follow..] == text;
    assert text[..1] + text[1..follow] == text[..follow];
    error := Canonicalize(a, follow, text[..follow], text[follow..], lead);
    if error {
      return;
    }
    ghost var path := Walked(lead, text).value;
    HoldsString(a[..], path, 0);
    var n := StrLen(a, 0, |path|);
    if n == 2 {
      Append(a, 2, path, SEPARATOR);
    }
  }
}
