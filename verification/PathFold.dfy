/** Paths as sequences of segments between backslashes, and what "." and ".." do to them. */
module PathFold {
  import opened Wrappers
  import opened Bytes
  import opened DbcsSearch

  const BACKSLASH: byte := 0x5C
  const COLON: byte := 0x3A
  const SEPARATOR: seq<byte> := [BACKSLASH]
  const DOT: seq<byte> := [0x2E]
  const DOTDOT: seq<byte> := [0x2E, 0x2E]

  type Segments = seq<seq<byte>>

  // The end of the first segment.
  function SegmentEnd(lead: Lead, s: seq<byte>): (n: nat)
    ensures n <= |s|
  {
    var r := FindFirst(lead, s, SEPARATOR);
    SeparatorFound(lead, s);
    if r.Some? then r.value else |s|
  }

  lemma {:induction false} SeparatorFound(lead: Lead, s: seq<byte>)
    ensures var r := FindFirst(lead, s, SEPARATOR); r.Some? ==> r.value < |s| && s[r.value] == BACKSLASH
  {
    FirstFound(lead, s, SEPARATOR);
  }

  // The segments of the text behind a separator.
  function Split(lead: Lead, s: seq<byte>): (segments: Segments)
    ensures segments != []
    decreases |s|
  {
    var k := SegmentEnd(lead, s);
    if k == |s| then [s] else [s[..k]] + Split(lead, s[k + 1..])
  }

  // Every segment with the separator before it.
  function Joined(segments: Segments): seq<byte> {
    if segments == [] then [] else SEPARATOR + segments[0] + Joined(segments[1..])
  }

  // ".." drops the last segment kept so far, and fails when there is none.
  function Fold(segments: Segments, kept: Segments): Option<Segments>
    decreases |segments|
  {
    if segments == [] then Some(kept)
    else if segments[0] == DOT then Fold(segments[1..], kept)
    else if segments[0] == DOTDOT then
      if kept == [] then None else Fold(segments[1..], kept[..|kept| - 1])
    else Fold(segments[1..], kept + [segments[0]])
  }

  // The full path for the text behind the first separator of a drive.
  function Canonical(lead: Lead, drive: byte, body: seq<byte>): Option<seq<byte>> {
    match Fold(Split(lead, body), [])
    case None => None
    case Some(kept) => Some([drive, COLON] + (if kept == [] then SEPARATOR else Joined(kept)))
  }

  // ----- splitting and joining

  lemma {:induction false} JoinedMore(segments: Segments, g: seq<byte>)
    ensures Joined(segments + [g]) == Joined(segments) + SEPARATOR + g
    decreases |segments|
  {
    if segments == [] {
      assert segments + [g] == [g];
      assert Joined([g]) == SEPARATOR + g + Joined([]);
    } else {
      assert (segments + [g])[1..] == segments[1..] + [g];
      JoinedMore(segments[1..], g);
    }
  }

  lemma {:induction false} JoinedFirst(g: seq<byte>, rest: Segments)
    ensures Joined([g] + rest) == SEPARATOR + g + Joined(rest)
  {
    assert ([g] + rest)[1..] == rest;
  }

  lemma {:induction false} SplitJoined(lead: Lead, s: seq<byte>)
    ensures Joined(Split(lead, s)) == SEPARATOR + s
    decreases |s|
  {
    var k := SegmentEnd(lead, s);
    SeparatorFound(lead, s);
    if k == |s| {
      JoinedFirst(s, []);
      assert [s] + [] == [s];
    } else {
      SplitJoined(lead, s[k + 1..]);
      JoinedFirst(s[..k], Split(lead, s[k + 1..]));
      AtSeparator(s, k);
    }
  }

  lemma {:induction false} AtSeparator(s: seq<byte>, k: nat)
    requires k < |s| && s[k] == BACKSLASH
    ensures SEPARATOR + s[..k] + (SEPARATOR + s[k + 1..]) == SEPARATOR + s
  {
    assert s == s[..k] + (SEPARATOR + s[k + 1..]);
  }

  // A segment that a separator may follow: the scan finds none inside, and the one behind.
  predicate Closed(lead: Lead, g: seq<byte>) {
    FindFirst(lead, g, SEPARATOR) == None && FindFirst(lead, g + SEPARATOR, SEPARATOR) == Some(|g|)
  }

  // A lone lead byte at the end of a segment would take a separator for its trail byte.
  predicate Last(lead: Lead, g: seq<byte>) {
    FindFirst(lead, g, SEPARATOR) == None
  }

  lemma {:induction false} ClosedRest(lead: Lead, g: seq<byte>)
    requires Closed(lead, g) && g != []
    ensures Width(lead, g) == Width(lead, g + SEPARATOR) && Closed(lead, g[Width(lead, g)..])
  {
    var n := Width(lead, g + SEPARATOR);
    assert n <= |g| ==> (g + SEPARATOR)[n..] == g[n..] + SEPARATOR;
    assert (g + SEPARATOR)[|g| + 1..] == [];
  }

  lemma {:induction false} ClosedThen(lead: Lead, g: seq<byte>, t: seq<byte>)
    requires !lead(BACKSLASH) && Closed(lead, g)
    ensures FindFirst(lead, g + SEPARATOR + t, SEPARATOR) == Some(|g|)
    decreases |g|
  {
    var s := g + SEPARATOR + t;
    if g != [] {
      var n := Width(lead, g);
      ClosedRest(lead, g);
      ClosedThen(lead, g[n..], t);
      assert s[n..] == g[n..] + SEPARATOR + t;
      assert Width(lead, s) == n;
    }
  }

  lemma {:induction false} SegmentClosed(lead: Lead, s: seq<byte>)
    requires !lead(BACKSLASH) && FindFirst(lead, s, SEPARATOR).Some?
    ensures var k := FindFirst(lead, s, SEPARATOR).value; k < |s| && Closed(lead, s[..k])
    decreases |s|
  {
    var k := FindFirst(lead, s, SEPARATOR).value;
    var n := Width(lead, s);
    SeparatorFound(lead, s);
    if k == 0 {
      assert s[..0] + SEPARATOR == SEPARATOR;
    } else {
      SegmentClosed(lead, s[n..]);
      var g := s[..k];
      assert g[n..] == s[n..][..k - n];
      assert (g + SEPARATOR)[n..] == g[n..] + SEPARATOR;
    }
  }

  // What splitting yields: segments that a separator may follow, and a last one.
  ghost predicate Splits(lead: Lead, segments: Segments) {
    segments != [] && (forall i | 0 <= i < |segments| - 1 :: Closed(lead, segments[i]))
    && Last(lead, segments[|segments| - 1])
  }

  lemma {:induction false} SplitSplits(lead: Lead, s: seq<byte>)
    requires !lead(BACKSLASH)
    ensures Splits(lead, Split(lead, s))
    decreases |s|
  {
    var k := SegmentEnd(lead, s);
    SeparatorFound(lead, s);
    if k < |s| {
      SegmentClosed(lead, s);
      SplitSplits(lead, s[k + 1..]);
      SplitsMore(lead, s[..k], Split(lead, s[k + 1..]));
    }
  }

  lemma {:induction false} SplitsMore(lead: Lead, g: seq<byte>, rest: Segments)
    requires Closed(lead, g) && Splits(lead, rest)
    ensures Splits(lead, [g] + rest)
  {
    var segments := [g] + rest;
    assert segments[|segments| - 1] == rest[|rest| - 1];
  }

  // Such segments are found again in the joined text.
  lemma {:induction false} JoinedSplit(lead: Lead, segments: Segments)
    requires !lead(BACKSLASH) && Splits(lead, segments)
    ensures Split(lead, Joined(segments)[1..]) == segments
    decreases |segments|
  {
    var g, rest := segments[0], segments[1..];
    assert segments == [g] + rest;
    JoinedFirst(g, rest);
    if rest == [] {
      assert Joined(segments)[1..] == g;
    } else {
      SplitsRest(lead, segments);
      JoinedSplit(lead, rest);
      var t := Joined(rest)[1..];
      JoinedBehind(g, rest, t);
      SplitAt(lead, g, t);
    }
  }

  lemma {:induction false} SplitsRest(lead: Lead, segments: Segments)
    requires Splits(lead, segments) && |segments| > 1
    ensures Closed(lead, segments[0]) && Splits(lead, segments[1..])
  {
    var rest := segments[1..];
    assert rest[|rest| - 1] == segments[|segments| - 1];
    assert forall i | 0 <= i < |rest| - 1 :: rest[i] == segments[i + 1];
  }

  lemma {:induction false} JoinedBehind(g: seq<byte>, rest: Segments, t: seq<byte>)
    requires rest != [] && Joined(rest)[1..] == t
    ensures Joined([g] + rest)[1..] == g + SEPARATOR + t
  {
    JoinedFirst(g, rest);
    assert Joined(rest) == SEPARATOR + t;
    assert (SEPARATOR + g + (SEPARATOR + t))[1..] == g + SEPARATOR + t;
  }

  lemma {:induction false} SplitAt(lead: Lead, g: seq<byte>, t: seq<byte>)
    requires !lead(BACKSLASH) && Closed(lead, g)
    ensures Split(lead, g + SEPARATOR + t) == [g] + Split(lead, t)
  {
    var s := g + SEPARATOR + t;
    ClosedThen(lead, g, t);
    assert s[..|g|] == g && s[|g| + 1..] == t;
  }

  // ----- what the fold keeps

  predicate Plain(g: seq<byte>) { g != DOT && g != DOTDOT }

  ghost predicate AllPlain(segments: Segments) {
    forall i | 0 <= i < |segments| :: Plain(segments[i])
  }

  ghost predicate AllClosed(lead: Lead, segments: Segments) {
    forall i | 0 <= i < |segments| :: Closed(lead, segments[i])
  }

  lemma {:induction false} FoldPlain(segments: Segments, kept: Segments)
    requires AllPlain(kept) && Fold(segments, kept).Some?
    ensures AllPlain(Fold(segments, kept).value)
    decreases |segments|
  {
    if segments != [] {
      if segments[0] == DOT {
        FoldPlain(segments[1..], kept);
      } else if segments[0] == DOTDOT {
        FoldPlain(segments[1..], kept[..|kept| - 1]);
      } else {
        FoldPlain(segments[1..], kept + [segments[0]]);
      }
    }
  }

  lemma {:induction false} PlainFolds(segments: Segments, kept: Segments)
    requires AllPlain(segments)
    ensures Fold(segments, kept) == Some(kept + segments)
    decreases |segments|
  {
    if segments != [] {
      PlainFolds(segments[1..], kept + [segments[0]]);
      assert kept + [segments[0]] + segments[1..] == kept + segments;
    } else {
      assert kept + segments == kept;
    }
  }

  // Only the very last segment kept may be one that no separator could follow.
  lemma {:induction false} FoldSplits(lead: Lead, segments: Segments, kept: Segments)
    requires Splits(lead, segments) && AllClosed(lead, kept) && Fold(segments, kept).Some?
    ensures var r := Fold(segments, kept).value; r == [] || Splits(lead, r)
    decreases |segments|
  {
    var g, rest := segments[0], segments[1..];
    var next := if g == DOT then kept else if g == DOTDOT then kept[..|kept| - 1] else kept + [g];
    assert Fold(segments, kept) == Fold(rest, next);
    if rest == [] {
      assert Fold(rest, next) == Some(next);
      ClosedIsLast(lead, next);
    } else {
      assert rest[|rest| - 1] == segments[|segments| - 1];
      FoldSplits(lead, rest, next);
    }
  }

  lemma {:induction false} ClosedIsLast(lead: Lead, segments: Segments)
    ensures AllClosed(lead, segments) && segments != [] ==> Splits(lead, segments)
  {
  }

  // How many segments are kept after the first m: the plain ones less the "..".
  function Depth(segments: Segments, m: nat): int
    requires m <= |segments|
  {
    if m == 0 then 0
    else Depth(segments, m - 1) + (if segments[m - 1] == DOT then 0 else if segments[m - 1] == DOTDOT then -1 else 1)
  }

  lemma {:induction false} DepthRest(segments: Segments, m: nat)
    requires 0 < m <= |segments|
    ensures Depth(segments, m) == Depth(segments, 1) + Depth(segments[1..], m - 1)
  {
    if m > 1 {
      DepthRest(segments, m - 1);
    }
  }

  // After m segments, more have been dropped than there were.
  predicate Sinks(segments: Segments, kept: nat, m: nat) {
    m <= |segments| && kept + Depth(segments, m) < 0
  }

  // The fold fails exactly when somewhere more segments are dropped than came before.
  lemma {:induction false} FoldFails(segments: Segments, kept: Segments)
    ensures Fold(segments, kept) == None <==> exists m: nat :: Sinks(segments, |kept|, m)
    decreases |segments|
  {
    if segments == [] {
      assert forall m: nat :: !Sinks(segments, |kept|, m);
    } else {
      var g, rest := segments[0], segments[1..];
      if g == DOTDOT && kept == [] {
        assert Sinks(segments, |kept|, 1);
      } else {
        var next := if g == DOT then kept else if g == DOTDOT then kept[..|kept| - 1] else kept + [g];
        FoldFails(rest, next);
        forall m: nat ensures Sinks(rest, |next|, m) <==> Sinks(segments, |kept|, m + 1) {
          if m <= |rest| {
            DepthRest(segments, m + 1);
          }
        }
        assert !Sinks(segments, |kept|, 0);
        assert forall m: nat | m > 0 :: Sinks(segments, |kept|, m) ==> Sinks(rest, |next|, m - 1);
      }
    }
  }

  // ----- canonical paths

  // When the backslash is a lead byte, a separator is found only at the very end.
  lemma {:induction false} OnlyAtEnd(lead: Lead, s: seq<byte>)
    requires lead(BACKSLASH)
    ensures var r := FindFirst(lead, s, SEPARATOR); r.Some? ==> r.value == |s| - 1
    decreases |s|
  {
    if s != [] {
      OnlyAtEnd(lead, s[Width(lead, s)..]);
    }
  }

  lemma {:induction false} FewSegments(lead: Lead, s: seq<byte>)
    requires lead(BACKSLASH)
    ensures var segments := Split(lead, s);
      segments == [s] || (s != [] && segments == [s[..|s| - 1], []])
    ensures AllPlain(Split(lead, s)[1..])
  {
    OnlyAtEnd(lead, s);
    SeparatorFound(lead, s);
    var k := SegmentEnd(lead, s);
    if k < |s| {
      assert s[k + 1..] == [];
      assert Split(lead, []) == [[]];
    }
  }

  // What is left is found again by splitting it.
  lemma {:induction false} KeptFound(lead: Lead, body: seq<byte>, kept: Segments)
    requires Fold(Split(lead, body), []) == Some(kept) && kept != []
    ensures AllPlain(kept) && Split(lead, Joined(kept)[1..]) == kept
  {
    var segments := Split(lead, body);
    FoldPlain(segments, []);
    if lead(BACKSLASH) {
      FewSegments(lead, body);
      if AllPlain(segments) {
        PlainFolds(segments, []);
        assert [] + segments == segments;
        SplitJoined(lead, body);
      } else {
        FewKept(segments);
        JoinedFirst([], []);
        assert [[]] + [] == kept;
        assert Split(lead, []) == [[]];
      }
    } else {
      SplitSplits(lead, body);
      FoldSplits(lead, segments, []);
      JoinedSplit(lead, kept);
    }
  }

  lemma {:induction false} FewKept(segments: Segments)
    requires 1 <= |segments| <= 2 && AllPlain(segments[1..]) && !AllPlain(segments)
    requires |segments| == 2 ==> segments[1] == []
    requires Fold(segments, []).Some? && Fold(segments, []).value != []
    ensures Fold(segments, []).value == [[]]
  {
    assert !Plain(segments[0]);
    var rest := segments[1..];
    assert Fold(segments, []) == if segments[0] == DOT then Fold(rest, []) else None;
    assert |segments| == 1 ==> rest == [];
    if |segments| == 2 {
      assert rest == [[]] && rest[1..] == [];
      assert Fold(rest, []) == Fold([], [] + [[]]);
    }
  }

  // Whatever is left has neither "." nor "..", and is the canonical form of itself.
  lemma {:induction false} CanonicalFixed(lead: Lead, drive: byte, body: seq<byte>)
    requires Canonical(lead, drive, body).Some?
    ensures var path := Canonical(lead, drive, body).value;
      |path| >= 3 && path[..3] == [drive, COLON, BACKSLASH]
      && Canonical(lead, drive, path[3..]) == Some(path)
      && AllPlain(Split(lead, path[3..]))
  {
    var kept := Fold(Split(lead, body), []).value;
    if kept == [] {
      RootFixed(lead, drive);
    } else {
      KeptFound(lead, body, kept);
      KeptFixed(lead, drive, kept);
    }
  }

  lemma {:induction false} RootFixed(lead: Lead, drive: byte)
    ensures Canonical(lead, drive, []) == Some([drive, COLON] + SEPARATOR) && AllPlain(Split(lead, []))
  {
    var root: Segments := [[]];
    assert Split(lead, []) == root;
    PlainFolds(root, []);
    assert [] + root == root;
    assert root[1..] == [];
    assert Joined(root) == SEPARATOR + [] + Joined([]) == SEPARATOR;
    assert Fold(root, []) == Some(root);
  }

  lemma {:induction false} KeptFixed(lead: Lead, drive: byte, kept: Segments)
    requires kept != [] && AllPlain(kept) && Split(lead, Joined(kept)[1..]) == kept
    ensures var path := [drive, COLON] + Joined(kept);
      path[..3] == [drive, COLON, BACKSLASH] && Canonical(lead, drive, path[3..]) == Some(path)
      && AllPlain(Split(lead, path[3..]))
  {
    var path := [drive, COLON] + Joined(kept);
    assert path[3..] == Joined(kept)[1..];
    PlainFolds(kept, []);
    assert [] + kept == kept;
  }
}
