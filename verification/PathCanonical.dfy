/** When the result is the canonical path: the exact condition on the argument. */
module PathCanonical {
  import opened Wrappers
  import opened Bytes
  import opened DbcsSearch
  import opened PathFold
  import opened PathText

  // ----- the loop, as a fold over segments

  // An ordinary set of lead bytes.
  ghost predicate Plausible(lead: Lead) {
    !lead(BACKSLASH) && !lead(COLON)
  }

  // The segments of the colon and everything behind it; the first one starts with the colon.
  function Behind(lead: Lead, body: seq<byte>): (segments: Segments)
    ensures segments != []
  {
    Split(lead, [COLON] + SEPARATOR + body)
  }

  lemma {:induction false} ColonClosed(lead: Lead)
    requires Plausible(lead)
    ensures Closed(lead, [COLON])
  {
    var colon: seq<byte> := [COLON];
    assert colon[1..] == [];
    assert SEPARATOR <= SEPARATOR;
    assert FindFirst(lead, SEPARATOR, SEPARATOR) == Some(0);
    assert (colon + SEPARATOR)[0] == COLON && (colon + SEPARATOR)[1..] == SEPARATOR;
  }

  // Normally that is the colon alone; a colon that leads a character hides the separator.
  lemma {:induction false} BehindSplit(lead: Lead, body: seq<byte>)
    requires !lead(BACKSLASH)
    ensures var s := Split(lead, body);
      Behind(lead, body) == if lead(COLON) then [[COLON, BACKSLASH] + s[0]] + s[1..] else [[COLON]] + s
  {
    if lead(COLON) {
      HiddenSeparator(lead, body, [COLON] + SEPARATOR + body);
    } else {
      ColonClosed(lead);
      SplitAt(lead, [COLON], body);
    }
  }

  lemma {:induction false} HiddenSeparator(lead: Lead, body: seq<byte>, text: seq<byte>)
    requires lead(COLON) && text == [COLON] + SEPARATOR + body
    ensures var s := Split(lead, body); Split(lead, text) == [[COLON, BACKSLASH] + s[0]] + s[1..]
  {
    var k := SegmentEnd(lead, body);
    assert text[2..] == body;
    assert SegmentEnd(lead, text) == 2 + k;
    assert text[..2 + k] == [COLON, BACKSLASH] + body[..k];
    if k < |body| {
      assert text[2 + k + 1..] == body[k + 1..];
    } else {
      assert text == [COLON, BACKSLASH] + body && text[..|text|] == text;
      assert Split(lead, body) == [body] && [text] + [] == [text];
    }
  }

  // The text the loop starts with, in any way that can be read as a closed prefix and segments.
  lemma {:induction false} StartFolds(lead: Lead, drive: byte, body: seq<byte>, prefix: seq<byte>, kept: Segments)
    requires !lead(BACKSLASH) && [drive] + Behind(lead, body)[0] == prefix + Joined(kept)
    requires Behind(lead, body)[1..] != [] ==> Closed(lead, prefix) && AllClosed(lead, kept)
    ensures Walked(lead, [drive, COLON] + SEPARATOR + body) == TextOf(prefix, Fold(Behind(lead, body)[1..], kept))
  {
    var text, segments := [drive, COLON] + SEPARATOR + body, Behind(lead, body);
    assert text[1..] == [COLON] + SEPARATOR + body && text[..1] == [drive];
    if segments[1..] != [] {
      SplitSplits(lead, text[1..]);
      SplitsRest(lead, segments);
      FoldsAlike(lead, prefix, kept, segments[1..]);
    }
  }

  lemma {:induction false} BehindClosed(lead: Lead, body: seq<byte>)
    requires !lead(BACKSLASH) && Behind(lead, body)[1..] != []
    ensures Closed(lead, Behind(lead, body)[0])
  {
    SplitSplits(lead, [COLON] + SEPARATOR + body);
    SplitsRest(lead, Behind(lead, body));
  }

  // For the drive letter backslash: the colon and what belongs to it is the first segment.
  lemma {:induction false} WalkedRoot(lead: Lead, body: seq<byte>)
    requires !lead(BACKSLASH)
    ensures var segments := Behind(lead, body);
      Walked(lead, [BACKSLASH, COLON] + SEPARATOR + body) == TextOf([], Fold(segments[1..], segments[..1]))
  {
    var segments := Behind(lead, body);
    var g := segments[0];
    assert segments[..1] == [g] + [];
    JoinedFirst(g, []);
    assert SEPARATOR + g + [] == [BACKSLASH] + g == [] + Joined([g]);
    if segments[1..] != [] {
      BehindClosed(lead, body);
      assert Closed(lead, []);
    }
    StartFolds(lead, BACKSLASH, body, [], [g]);
  }

  lemma {:induction false} DriveClosed(lead: Lead, drive: byte)
    requires !lead(BACKSLASH) && drive != BACKSLASH && (lead(drive) || !lead(COLON))
    ensures Closed(lead, [drive, COLON])
  {
    var s: seq<byte> := [drive, COLON];
    assert s[1..] == [COLON] && s[2..] == [] && (s + SEPARATOR)[2..] == SEPARATOR;
    assert FindFirst(lead, SEPARATOR, SEPARATOR) == Some(0);
    if !lead(drive) {
      ColonClosed(lead);
      assert (s + SEPARATOR)[1..] == [COLON] + SEPARATOR;
    }
  }

  // For another drive letter, when the separator is seen: all segments are behind the drive.
  lemma {:induction false} WalkedDrive(lead: Lead, drive: byte, body: seq<byte>)
    requires Plausible(lead) && drive != BACKSLASH
    ensures Walked(lead, [drive, COLON] + SEPARATOR + body) == TextOf([drive, COLON], Fold(Split(lead, body), []))
  {
    BehindSplit(lead, body);
    DriveClosed(lead, drive);
    assert Behind(lead, body)[1..] == Split(lead, body);
    StartFolds(lead, drive, body, [drive, COLON], []);
  }

  // When the drive letter and the colon are one character, the first segment is kept, whatever it is.
  lemma {:induction false} WalkedPair(lead: Lead, drive: byte, body: seq<byte>)
    requires !lead(BACKSLASH) && lead(COLON) && lead(drive)
    ensures var s := Split(lead, body);
      Walked(lead, [drive, COLON] + SEPARATOR + body) == TextOf([drive, COLON], Fold(s[1..], s[..1]))
  {
    var s := Split(lead, body);
    BehindSplit(lead, body);
    DriveClosed(lead, drive);
    assert s[..1] == [s[0]] + [];
    JoinedFirst(s[0], []);
    assert [drive] + ([COLON, BACKSLASH] + s[0]) == [drive, COLON] + (SEPARATOR + s[0] + []);
    assert Behind(lead, body)[1..] == s[1..];
    if s[1..] != [] {
      SplitSplits(lead, body);
      SplitsRest(lead, s);
    }
    StartFolds(lead, drive, body, [drive, COLON], s[..1]);
  }

  // When the colon and the separator are one character, the first segment cannot be dropped.
  lemma {:induction false} WalkedHidden(lead: Lead, drive: byte, body: seq<byte>)
    requires !lead(BACKSLASH) && lead(COLON) && !lead(drive) && drive != BACKSLASH
    ensures var s := Split(lead, body);
      Walked(lead, [drive, COLON] + SEPARATOR + body) == TextOf([drive, COLON, BACKSLASH] + s[0], Fold(s[1..], []))
  {
    var s, g := Split(lead, body), Behind(lead, body)[0];
    BehindSplit(lead, body);
    assert [drive] + g == [drive, COLON, BACKSLASH] + s[0] && Behind(lead, body)[1..] == s[1..];
    if s[1..] != [] {
      BehindClosed(lead, body);
      OneMore(lead, drive, g);
    }
    StartFolds(lead, drive, body, [drive] + g, []);
  }

  lemma {:induction false} OneMore(lead: Lead, c: byte, g: seq<byte>)
    requires !lead(BACKSLASH) && !lead(c) && c != BACKSLASH && Closed(lead, g)
    ensures Closed(lead, [c] + g)
  {
    assert ([c] + g)[1..] == g && ([c] + g + SEPARATOR)[1..] == g + SEPARATOR;
  }

  // When the backslash leads characters, nothing is removed.
  lemma {:induction false} WalkedAll(lead: Lead, drive: byte, body: seq<byte>)
    requires lead(BACKSLASH)
    ensures Walked(lead, [drive, COLON] + SEPARATOR + body) == Some([drive, COLON] + SEPARATOR + body)
  {
    var text := [drive, COLON] + SEPARATOR + body;
    FewSegments(lead, text[1..]);
    WalkedWhole(lead, text);
  }

  // ----- folds that start with something kept, and folds that do not

  // After some of the segments, more than n more have been dropped than were kept.
  ghost predicate Below(segments: Segments, n: nat) {
    exists m: nat :: Sinks(segments, n, m)
  }

  // What is kept to start with stays at the bottom as long as nothing drops it.
  lemma {:induction false} FoldOver(segments: Segments, base: Segments, kept: Segments)
    requires Fold(segments, kept).Some?
    ensures Fold(segments, base + kept) == Some(base + Fold(segments, kept).value)
    decreases |segments|
  {
    if segments != [] {
      var g, rest := segments[0], segments[1..];
      assert segments == [g] + rest;
      KeptFolds(g, rest, kept);
      KeptFolds(g, rest, base + kept);
      KeptOver(g, base, kept);
      FoldOver(rest, base, Kept(g, kept));
    }
  }

  lemma {:induction false} KeptOver(g: seq<byte>, base: Segments, kept: Segments)
    requires !(g == DOTDOT && kept == [])
    ensures Kept(g, base + kept) == base + Kept(g, kept) && !(g == DOTDOT && base + kept == [])
  {
    if g == DOTDOT {
      assert (base + kept)[..|base + kept| - 1] == base + kept[..|kept| - 1];
    } else if Plain(g) {
      assert base + kept + [g] == base + (kept + [g]);
    }
  }

  // Once the bottom is dropped, it makes no difference what it was.
  lemma {:induction false} BottomDropped(segments: Segments, x: seq<byte>, y: seq<byte>, kept: Segments)
    requires Fold(segments, kept) == None
    ensures Fold(segments, [x] + kept) == Fold(segments, [y] + kept)
    decreases |segments|
  {
    var g, rest := segments[0], segments[1..];
    assert segments == [g] + rest;
    KeptFolds(g, rest, kept);
    KeptFolds(g, rest, [x] + kept);
    KeptFolds(g, rest, [y] + kept);
    if g == DOTDOT && kept == [] {
      assert Kept(g, [x] + kept) == Kept(g, [y] + kept) == [];
    } else {
      KeptOver(g, [x], kept);
      KeptOver(g, [y], kept);
      BottomDropped(rest, x, y, Kept(g, kept));
    }
  }

  // Folding over one segment x: what becomes of it, and when it fails.
  lemma {:induction false} OverOne(rest: Segments, x: seq<byte>)
    ensures Fold(rest, []) == None <==> Below(rest, 0)
    ensures Fold(rest, [x]) == None <==> Below(rest, 1)
    ensures Fold(rest, []).Some? ==> Fold(rest, [x]) == Some([x] + Fold(rest, []).value)
  {
    FoldFails(rest, []);
    FoldFails(rest, [x]);
    if Fold(rest, []).Some? {
      FoldOver(rest, [x], []);
      assert [x] + [] == [x];
    }
  }

  lemma {:induction false} CanonicalFold(lead: Lead, drive: byte, body: seq<byte>)
    ensures var s := Split(lead, body);
      var r := if s[0] == DOT then Fold(s[1..], []) else if s[0] == DOTDOT then None else Fold(s[1..], s[..1]);
      Canonical(lead, drive, body)
      == if r == None then None else Some([drive, COLON] + (if r.value == [] then SEPARATOR else Joined(r.value)))
  {
    var s := Split(lead, body);
    assert s == [s[0]] + s[1..] && [] + [s[0]] == s[..1];
    KeptFolds(s[0], s[1..], []);
  }

  // ----- when the result is the canonical path

  // The condition on the segments s behind drive, colon and separator.
  ghost predicate Agrees(lead: Lead, drive: byte, s: Segments)
    requires s != []
  {
    var rest := s[1..];
    if lead(BACKSLASH) then Plain(s[0])
    else if !lead(COLON) then drive != BACKSLASH || !Below(s, 0) || Below(s, 1)
    else if lead(drive) then Plain(s[0]) || Below(rest, 1)
    else if Plain(s[0]) then !Below(rest, 0) || Below(rest, 1)
    else Below(rest, if drive == BACKSLASH then 1 else 0)
  }

  // The result is the canonical path exactly then.
  lemma {:induction false} CanonicalExactly(lead: Lead, drive: byte, body: seq<byte>)
    ensures Resolved(lead, drive, body) == Canonical(lead, drive, body) <==> Agrees(lead, drive, Split(lead, body))
  {
    if lead(BACKSLASH) {
      AgreesAll(lead, drive, body);
    } else if !lead(COLON) {
      if drive == BACKSLASH {
        AgreesRoot(lead, body);
      } else {
        ResolvedCanonical(lead, drive, body);
      }
    } else if lead(drive) {
      AgreesPair(lead, drive, body);
    } else if drive == BACKSLASH {
      AgreesRootHidden(lead, body);
    } else {
      AgreesHidden(lead, drive, body);
    }
  }

  // For every drive letter but the backslash the result is the canonical path.
  lemma {:induction false} ResolvedCanonical(lead: Lead, drive: byte, body: seq<byte>)
    requires Plausible(lead) && drive != BACKSLASH
    ensures Resolved(lead, drive, body) == Canonical(lead, drive, body)
  {
    WalkedDrive(lead, drive, body);
    var r := Fold(Split(lead, body), []);
    if r.Some? {
      RootAdded(drive, r.value);
    }
  }

  lemma {:induction false} RootAdded(drive: byte, kept: Segments)
    ensures WithRoot([drive, COLON] + Joined(kept)) == [drive, COLON] + (if kept == [] then SEPARATOR else Joined(kept))
  {
    if kept == [] {
      assert [drive, COLON] + [] == [drive, COLON];
    } else {
      assert |Joined(kept)| >= 1;
    }
  }

  // Without a drive before them, the segments make another path.
  lemma {:induction false} RootMissing(drive: byte, kept: Segments)
    ensures WithRoot(Joined(kept)) != [drive, COLON] + (if kept == [] then SEPARATOR else Joined(kept))
  {
    if kept != [] {
      assert |Joined(kept)| >= 1;
    }
  }

  lemma {:induction false} AgreesAll(lead: Lead, drive: byte, body: seq<byte>)
    requires lead(BACKSLASH)
    ensures Resolved(lead, drive, body) == Canonical(lead, drive, body) <==> Plain(Split(lead, body)[0])
  {
    var s := Split(lead, body);
    WalkedAll(lead, drive, body);
    CanonicalFold(lead, drive, body);
    FewSegments(lead, body);
    AllKept(drive, body, s);
    SplitJoined(lead, body);
  }

  // Segments of which all but the first are plain, and the text they were split from.
  lemma {:induction false} AllKept(drive: byte, body: seq<byte>, s: Segments)
    requires s != [] && AllPlain(s[1..])
    ensures Fold(s[1..], s[..1]) == Some(s) && Fold(s[1..], []) == Some(s[1..])
    ensures Joined(s) == SEPARATOR + body ==>
      WithRoot([drive, COLON] + SEPARATOR + body) == [drive, COLON] + Joined(s)
    ensures Joined(s) == SEPARATOR + body && s[0] == DOT ==>
      [drive, COLON] + SEPARATOR + body != [drive, COLON] + (if s[1..] == [] then SEPARATOR else Joined(s[1..]))
  {
    PlainFolds(s[1..], s[..1]);
    PlainFolds(s[1..], []);
    assert s[..1] + s[1..] == s && [] + s[1..] == s[1..];
    assert [drive, COLON] + SEPARATOR + body == [drive, COLON] + (SEPARATOR + body);
    JoinedFirst(s[0], s[1..]);
    assert [s[0]] + s[1..] == s;
  }

  lemma {:induction false} AgreesRoot(lead: Lead, body: seq<byte>)
    requires Plausible(lead)
    ensures Resolved(lead, BACKSLASH, body) == Canonical(lead, BACKSLASH, body)
      <==> !Below(Split(lead, body), 0) || Below(Split(lead, body), 1)
  {
    var segments, colon: Segments := Split(lead, body), [[COLON]];
    BehindSplit(lead, body);
    assert Behind(lead, body)[1..] == segments && Behind(lead, body)[..1] == colon;
    WalkedRoot(lead, body);
    OverOne(segments, [COLON]);
    if Fold(segments, []).Some? {
      ColonKept(Fold(segments, []).value);
    }
  }

  lemma {:induction false} ColonKept(kept: Segments)
    ensures WithRoot(Joined([[COLON]] + kept)) == [BACKSLASH, COLON] + (if kept == [] then SEPARATOR else Joined(kept))
    ensures [] + Joined([[COLON]] + kept) == Joined([[COLON]] + kept)
  {
    JoinedFirst([COLON], kept);
    assert SEPARATOR + [COLON] == [BACKSLASH, COLON];
    if kept == [] {
      assert [BACKSLASH, COLON] + Joined(kept) == [BACKSLASH, COLON];
    } else {
      assert |Joined(kept)| >= 1;
    }
  }

  lemma {:induction false} AgreesPair(lead: Lead, drive: byte, body: seq<byte>)
    requires !lead(BACKSLASH) && lead(COLON) && lead(drive)
    ensures var s := Split(lead, body);
      Resolved(lead, drive, body) == Canonical(lead, drive, body) <==> Plain(s[0]) || Below(s[1..], 1)
  {
    var s := Split(lead, body);
    WalkedPair(lead, drive, body);
    CanonicalFold(lead, drive, body);
    OverOne(s[1..], s[0]);
    assert s[..1] == [s[0]];
    var r, without := Fold(s[1..], s[..1]), Fold(s[1..], []);
    if r.Some? {
      RootAdded(drive, r.value);
      if without.Some? {
        JoinedFirst(s[0], without.value);
      }
    }
  }

  lemma {:induction false} AgreesHidden(lead: Lead, drive: byte, body: seq<byte>)
    requires !lead(BACKSLASH) && lead(COLON) && !lead(drive) && drive != BACKSLASH
    ensures var s := Split(lead, body);
      Resolved(lead, drive, body) == Canonical(lead, drive, body)
      <==> if Plain(s[0]) then !Below(s[1..], 0) || Below(s[1..], 1) else Below(s[1..], 0)
  {
    var s := Split(lead, body);
    WalkedHidden(lead, drive, body);
    CanonicalFold(lead, drive, body);
    OverOne(s[1..], s[0]);
    assert s[..1] == [s[0]];
    var without := Fold(s[1..], []);
    if without.Some? {
      JoinedFirst(s[0], without.value);
      HiddenText(drive, s[0], Joined(without.value));
    }
  }

  lemma {:induction false} HiddenText(drive: byte, g: seq<byte>, j: seq<byte>)
    ensures WithRoot([drive, COLON, BACKSLASH] + g + j) == [drive, COLON] + (SEPARATOR + g + j)
    ensures |[drive, COLON] + (SEPARATOR + g + j)| == 3 + |g| + |j|
  {
  }

  lemma {:induction false} AgreesRootHidden(lead: Lead, body: seq<byte>)
    requires !lead(BACKSLASH) && lead(COLON)
    ensures var s := Split(lead, body);
      Resolved(lead, BACKSLASH, body) == Canonical(lead, BACKSLASH, body)
      <==> if Plain(s[0]) then !Below(s[1..], 0) || Below(s[1..], 1) else Below(s[1..], 1)
  {
    var s := Split(lead, body);
    var g, rest := [COLON, BACKSLASH] + s[0], s[1..];
    BehindSplit(lead, body);
    assert Behind(lead, body)[1..] == rest && Behind(lead, body)[..1] == [g] && s[..1] == [s[0]];
    WalkedRoot(lead, body);
    CanonicalFold(lead, BACKSLASH, body);
    OverOne(rest, g);
    OverOne(rest, s[0]);
    var without := Fold(rest, []);
    if without.Some? {
      JoinedFirst(g, without.value);
      JoinedFirst(s[0], without.value);
      RootHiddenText(s[0], Joined(without.value));
    } else if Fold(rest, [g]).Some? {
      BottomDropped(rest, g, s[0], []);
      assert [g] + [] == [g] && [s[0]] + [] == [s[0]];
      var kept := Fold(rest, [g]).value;
      assert [] + Joined(kept) == Joined(kept);
      RootMissing(BACKSLASH, kept);
    }
  }

  lemma {:induction false} RootHiddenText(g: seq<byte>, j: seq<byte>)
    ensures WithRoot([] + (SEPARATOR + ([COLON, BACKSLASH] + g) + j)) == [BACKSLASH, COLON] + (SEPARATOR + g + j)
    ensures |[BACKSLASH, COLON] + (SEPARATOR + g + j)| == 3 + |g| + |j|
  {
    assert SEPARATOR + ([COLON, BACKSLASH] + g) == [BACKSLASH, COLON] + (SEPARATOR + g);
    Regrouped([BACKSLASH, COLON], SEPARATOR + g, j);
  }

  lemma {:induction false} Regrouped(a: seq<byte>, b: seq<byte>, c: seq<byte>)
    ensures [] + (a + b + c) == a + b + c == a + (b + c)
  {
  }

  // ----- sets of lead bytes that are not ordinary

  lemma {:induction false} NoSeparatorInDots(lead: Lead)
    ensures FindFirst(lead, DOT, SEPARATOR) == None && FindFirst(lead, DOTDOT, SEPARATOR) == None
    ensures Split(lead, DOTDOT) == [DOTDOT]
  {
    assert DOT[1..] == [] && DOTDOT[1..] == DOT && DOTDOT[2..] == [];
    assert FindFirst(lead, [], SEPARATOR) == None;
  }

  // A colon or a backslash that leads a character hides the ".." behind it.
  lemma {:induction false} OddLead(lead: Lead, drive: byte)
    requires !Plausible(lead)
    ensures Canonical(lead, drive, DOTDOT) == None
    ensures Resolved(lead, drive, DOTDOT) == Some([drive, COLON, BACKSLASH] + DOTDOT)
  {
    var text := [drive, COLON] + SEPARATOR + DOTDOT;
    var s := text[1..];
    NoSeparatorInDots(lead);
    DotsOnly([]);
    assert s == [COLON, BACKSLASH] + DOTDOT;
    if lead(COLON) {
      assert s[2..] == DOTDOT;
    } else {
      assert s[1..] == [BACKSLASH] + DOTDOT;
      assert s[1..][2..] == DOT;
      assert FindFirst(lead, s[1..], SEPARATOR) == None;
    }
    assert FindFirst(lead, s, SEPARATOR) == None;
    var segments := Split(lead, s);
    assert segments == [s] && segments[1..] == [];
    assert text[..1] + s == text == [drive, COLON, BACKSLASH] + DOTDOT;
  }

  // The set of lead bytes decides, before any call, whether the result is the canonical
  // path for every drive letter but the backslash.
  lemma {:induction false} LeadExactly(lead: Lead)
    ensures Plausible(lead)
      <==> forall drive: byte, body: seq<byte> | drive != BACKSLASH ::
             Resolved(lead, drive, body) == Canonical(lead, drive, body)
  {
    if Plausible(lead) {
      forall drive: byte, body: seq<byte> | drive != BACKSLASH
        ensures Resolved(lead, drive, body) == Canonical(lead, drive, body)
      {
        ResolvedCanonical(lead, drive, body);
      }
    } else {
      OddLead(lead, COLON);
    }
  }

  // ----- the backslash as a drive letter

  // The argument \:\.. succeeds with an empty path.
  lemma {:induction false} BackslashDrive(lead: Lead, current: byte, curdir: byte -> Option<seq<byte>>)
    requires Plausible(lead) && current < 26
    ensures FullPath(lead, [BACKSLASH, COLON, BACKSLASH] + DOTDOT, current, curdir) == Some([])
    ensures Canonical(lead, BACKSLASH, DOTDOT) == None
  {
    var relpath := [BACKSLASH, COLON, BACKSLASH] + DOTDOT;
    NoSeparatorInDots(lead);
    DotsOnly([[COLON]]);
    DotsOnly([]);
    BehindSplit(lead, DOTDOT);
    WalkedRoot(lead, DOTDOT);
    assert Behind(lead, DOTDOT)[1..] == [DOTDOT] && Behind(lead, DOTDOT)[..1] == [[COLON]];
    assert relpath[2..][1..] == DOTDOT;
    assert [] + Joined([]) == [];
  }

  lemma {:induction false} DotsOnly(kept: Segments)
    ensures Fold([DOTDOT], kept) == if kept == [] then None else Some(kept[..|kept| - 1])
  {
    assert [DOTDOT][1..] == [];
  }
}
