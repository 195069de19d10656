/** A full path is its own full path: for which arguments, and for any set of lead bytes. */
module PathFixed {
  import opened Wrappers
  import opened Bytes
  import opened DbcsSearch
  import opened PathFold
  import opened PathText
  import opened PathCanonical

  // ----- what is kept, split again

  // Only what was there to start with can be anything but plain.
  lemma {:induction false} PlainBehind(segments: Segments, kept: Segments)
    requires Fold(segments, kept).Some? && (kept == [] || AllPlain(kept[1..]))
    ensures var r := Fold(segments, kept).value; r == [] || AllPlain(r[1..])
    decreases |segments|
  {
    if segments != [] {
      var g, rest := segments[0], segments[1..];
      assert segments == [g] + rest;
      KeptFolds(g, rest, kept);
      var next := Kept(g, kept);
      assert Plain(g) ==> next[1..] == if kept == [] then [] else kept[1..] + [g];
      assert g == DOTDOT && |kept| > 1 ==> next[1..] == kept[1..][..|kept| - 2];
      PlainBehind(rest, next);
    }
  }

  // What folding over one segment keeps is found again by splitting it.
  lemma {:induction false} FoundAgain(lead: Lead, s: Segments)
    requires !lead(BACKSLASH) && s != [] && Splits(lead, s) && Fold(s[1..], s[..1]).Some?
    ensures var kept := Fold(s[1..], s[..1]).value;
      kept != [] ==> Splits(lead, kept) && Split(lead, Joined(kept)[1..]) == kept && AllPlain(kept[1..])
  {
    assert s[..1][1..] == [];
    PlainBehind(s[1..], s[..1]);
    if s[1..] == [] {
      assert s[..1] == s;
    } else {
      SplitsRest(lead, s);
      FoldSplits(lead, s[1..], s[..1]);
    }
    var kept := Fold(s[1..], s[..1]).value;
    if kept != [] {
      JoinedSplit(lead, kept);
    }
  }

  predicate StartsAtRoot(path: seq<byte>) {
    |path| >= 3 && path[1] == COLON && path[2] == BACKSLASH
  }

  // Segments with only plain ones behind the first, under a drive: walking changes nothing.
  lemma {:induction false} KeptSound(lead: Lead, drive: byte, kept: Segments)
    requires !lead(BACKSLASH) && (kept == [] || (Splits(lead, kept) && AllPlain(kept[1..])))
    requires !lead(COLON) ==> AllPlain(kept)
    ensures var path := [drive, COLON] + (if kept == [] then SEPARATOR else Joined(kept));
      path[0] == drive && StartsAtRoot(path) && Walked(lead, path) == Some(path)
  {
    var j := if kept == [] then SEPARATOR else Joined(kept);
    var path, body := [drive, COLON] + j, j[1..];
    if kept == [] {
      assert FindFirst(lead, [], SEPARATOR) == None;
      assert body == [] && Split(lead, []) == [[]];
    } else {
      JoinedSplit(lead, kept);
    }
    BehindDrive(drive, j);
    BehindSplit(lead, body);
    WalkedWhole(lead, path);
  }

  lemma {:induction false} BehindDrive(drive: byte, j: seq<byte>)
    requires j != [] && j[0] == BACKSLASH
    ensures ([drive, COLON] + j)[1..] == [COLON] + SEPARATOR + j[1..]
  {
    assert j == SEPARATOR + j[1..];
  }

  // ----- the result

  // For every drive letter but the backslash the result starts with drive, colon and
  // separator, and walking it again changes nothing.
  lemma {:induction false} ResolvedSound(lead: Lead, drive: byte, body: seq<byte>)
    requires drive != BACKSLASH && Resolved(lead, drive, body).Some?
    ensures var path := Resolved(lead, drive, body).value;
      StartsAtRoot(path) && path[0] == drive && Walked(lead, path) == Some(path)
  {
    var s := Split(lead, body);
    if lead(BACKSLASH) {
      WalkedAll(lead, drive, body);
      WalkedAgain(lead, drive, body);
    } else if !lead(COLON) {
      ResolvedCanonical(lead, drive, body);
      SplitSplits(lead, body);
      FoldSplits(lead, s, []);
      FoldPlain(s, []);
      KeptSound(lead, drive, Fold(s, []).value);
    } else if lead(drive) {
      WalkedPair(lead, drive, body);
      SplitSplits(lead, body);
      FoundAgain(lead, s);
      var kept := Fold(s[1..], s[..1]).value;
      RootAdded(drive, kept);
      KeptSound(lead, drive, kept);
    } else {
      HiddenSound(lead, drive, body);
    }
  }

  lemma {:induction false} WalkedAgain(lead: Lead, drive: byte, body: seq<byte>)
    requires lead(BACKSLASH)
    ensures var path := [drive, COLON] + SEPARATOR + body; path[3..] == body && Walked(lead, path) == Some(path)
  {
    WalkedAll(lead, drive, body);
  }

  lemma {:induction false} HiddenSound(lead: Lead, drive: byte, body: seq<byte>)
    requires !lead(BACKSLASH) && lead(COLON) && !lead(drive) && drive != BACKSLASH
    requires Resolved(lead, drive, body).Some?
    ensures var path := Resolved(lead, drive, body).value;
      StartsAtRoot(path) && path[0] == drive && Walked(lead, path) == Some(path)
  {
    var s := Split(lead, body);
    WalkedHidden(lead, drive, body);
    SplitSplits(lead, body);
    var kept := Fold(s[1..], []).value;
    PlainBehind(s[1..], []);
    FoldPlain(s[1..], []);
    if s[1..] != [] {
      SplitsRest(lead, s);
      FoldSplits(lead, s[1..], []);
      ClosedFirst(lead, s[0], kept);
    } else {
      assert [s[0]] + kept == s;
    }
    JoinedFirst(s[0], kept);
    HiddenText(drive, s[0], Joined(kept));
    assert ([s[0]] + kept)[1..] == kept;
    KeptSound(lead, drive, [s[0]] + kept);
  }

  lemma {:induction false} ClosedFirst(lead: Lead, g: seq<byte>, kept: Segments)
    requires Closed(lead, g) && (kept == [] || Splits(lead, kept))
    ensures Splits(lead, [g] + kept)
  {
    var s := [g] + kept;
    assert forall i | 0 < i < |s| :: s[i] == kept[i - 1];
  }

  // A rooted path is taken as it is, whatever the current drive and directories are.
  lemma {:induction false} Reread(lead: Lead, path: seq<byte>, later: byte, chdir: byte -> Option<seq<byte>>)
    requires StartsAtRoot(path) && Walked(lead, path) == Some(path) && later < 26
    ensures FullPath(lead, path, later, chdir) == Some(path)
  {
    assert path[2..][1..] == path[3..];
    assert path == [path[0], COLON] + SEPARATOR + path[3..];
  }

  // ----- the backslash as a drive letter

  // The segment can stand for the colon of a drive and the separator behind it.
  predicate RootName(g: seq<byte>) {
    g == [COLON] || (|g| >= 2 && g[0] == COLON && g[1] == BACKSLASH)
  }

  lemma {:induction false} RootNamed(kept: Segments)
    requires kept != []
    ensures StartsAtRoot(WithRoot(Joined(kept))) <==> RootName(kept[0])
  {
    var j := SEPARATOR + kept[0] + Joined(kept[1..]);
    assert Joined(kept) == j;
    assert kept[1..] != [] ==> Joined(kept[1..])[0] == BACKSLASH;
  }

  lemma {:induction false} RootSound(lead: Lead, body: seq<byte>)
    requires !lead(BACKSLASH) && Resolved(lead, BACKSLASH, body).Some?
    ensures var s, path := Behind(lead, body), Resolved(lead, BACKSLASH, body).value;
      Fold(s[1..], s[..1]).Some? && path == WithRoot(Joined(Fold(s[1..], s[..1]).value))
      && (StartsAtRoot(path) ==> Walked(lead, path) == Some(path))
  {
    var s := Behind(lead, body);
    WalkedRoot(lead, body);
    SplitSplits(lead, [COLON] + SEPARATOR + body);
    FoundAgain(lead, s);
    var kept := Fold(s[1..], s[..1]).value;
    assert [] + Joined(kept) == Joined(kept);
    if kept != [] {
      RootTextSound(lead, kept, Joined(kept));
    }
  }

  lemma {:induction false} RootTextSound(lead: Lead, kept: Segments, path: seq<byte>)
    requires !lead(BACKSLASH) && path != [] && path[0] == BACKSLASH
    requires kept != [] && AllPlain(kept[1..]) && Split(lead, path[1..]) == kept
    ensures StartsAtRoot(WithRoot(path)) ==> Walked(lead, WithRoot(path)) == Some(WithRoot(path))
  {
    if |path| == 2 {
      KeptSound(lead, BACKSLASH, []);
      assert path[1] == COLON ==> WithRoot(path) == [BACKSLASH, COLON] + SEPARATOR;
    } else {
      WalkedWhole(lead, path);
    }
  }

  // From n segments kept, there is always one left.
  ghost predicate Stays(segments: Segments, n: nat) {
    forall k | 0 <= k <= |segments| :: n + Depth(segments, k) >= 1
  }

  // Segment m is kept when nothing else is, and there is always one left from then on.
  ghost predicate Founds(segments: Segments, n: nat, m: nat) {
    m < |segments| && RootName(segments[m]) && n + Depth(segments, m) == 0
    && forall k | m < k <= |segments| :: n + Depth(segments, k) >= 1
  }

  // Which segment is at the bottom in the end.
  lemma {:induction false} Bottom(segments: Segments, kept: Segments)
    requires Fold(segments, kept).Some?
    ensures var r := Fold(segments, kept).value;
      r != [] && RootName(r[0])
      <==> (kept != [] && RootName(kept[0]) && Stays(segments, |kept|))
           || exists m: nat :: Founds(segments, |kept|, m)
    decreases |segments|
  {
    if segments == [] {
      assert Depth(segments, 0) == 0;
      assert Stays(segments, |kept|) <==> kept != [];
      assert forall m: nat :: !Founds(segments, |kept|, m);
    } else {
      var g, rest := segments[0], segments[1..];
      assert segments == [g] + rest;
      KeptFolds(g, rest, kept);
      var next := Kept(g, kept);
      Bottom(rest, next);
      BottomStep(segments, kept, next);
      FoundsEarlier(segments, |kept|, |next|);
    }
  }

  lemma {:induction false} FoundsEarlier(segments: Segments, n: nat, n': nat)
    requires segments != []
    requires forall m: nat :: Founds(segments[1..], n', m) <==> Founds(segments, n, m + 1)
    ensures (exists m: nat :: Founds(segments, n, m))
      <==> Founds(segments, n, 0) || exists m: nat :: Founds(segments[1..], n', m)
  {
    if m: nat :| Founds(segments, n, m) {
      if m > 0 {
        assert Founds(segments[1..], n', m - 1);
      }
    }
    if m: nat :| Founds(segments[1..], n', m) {
      assert Founds(segments, n, m + 1);
    }
  }

  lemma {:induction false} BottomStep(segments: Segments, kept: Segments, next: Segments)
    requires segments != [] && next == Kept(segments[0], kept) && !(segments[0] == DOTDOT && kept == [])
    ensures Stays(segments, |kept|) <==> kept != [] && Stays(segments[1..], |next|)
    ensures forall m: nat :: Founds(segments[1..], |next|, m) <==> Founds(segments, |kept|, m + 1)
    ensures Founds(segments, |kept|, 0)
      <==> kept == [] && RootName(segments[0]) && Stays(segments[1..], |next|)
    ensures kept == [] && Stays(segments[1..], |next|) ==> next == segments[..1]
    ensures kept != [] && Stays(segments[1..], |next|) ==> next != [] && next[0] == kept[0]
  {
    var rest := segments[1..];
    forall k | 0 <= k <= |rest| ensures |kept| + Depth(segments, k + 1) == |next| + Depth(rest, k) {
      DepthRest(segments, k + 1);
    }
    assert Stays(rest, |next|) ==> |next| + Depth(rest, 0) >= 1;
    assert forall k | 0 < k <= |segments| :: |kept| + Depth(segments, k) == |next| + Depth(rest, k - 1);
  }

  // What the argument must be for the result to start at the root: no ".." drops the colon
  // and what belongs to it, or something that can stand for it is kept in its place in the end.
  ghost predicate KeepsRoot(lead: Lead, drive: byte, body: seq<byte>) {
    var segments := Behind(lead, body)[1..];
    drive != BACKSLASH || Stays(segments, 1) || exists m: nat :: Founds(segments, 1, m)
  }

  lemma {:induction false} RootKept(lead: Lead, drive: byte, body: seq<byte>)
    requires Resolved(lead, drive, body).Some?
    ensures var path := Resolved(lead, drive, body).value;
      (StartsAtRoot(path) <==> KeepsRoot(lead, drive, body))
      && (StartsAtRoot(path) ==> Walked(lead, path) == Some(path))
  {
    var s := Behind(lead, body);
    if drive != BACKSLASH {
      ResolvedSound(lead, drive, body);
    } else if lead(BACKSLASH) {
      WalkedAll(lead, drive, body);
      WalkedAgain(lead, drive, body);
      FewSegments(lead, [COLON] + SEPARATOR + body);
      PlainStays(s[1..], |s| - 1);
    } else {
      RootSound(lead, body);
      var kept := Fold(s[1..], s[..1]).value;
      Bottom(s[1..], s[..1]);
      if kept != [] {
        RootNamed(kept);
      }
      BehindNamed(lead, body);
    }
  }

  lemma {:induction false} PlainStays(segments: Segments, n: nat)
    requires n <= |segments| && AllPlain(segments)
    ensures forall k | 0 <= k <= n :: Depth(segments, k) == k
  {
    if n > 0 {
      PlainStays(segments, n - 1);
      assert Plain(segments[n - 1]);
    }
  }

  lemma {:induction false} BehindNamed(lead: Lead, body: seq<byte>)
    requires !lead(BACKSLASH)
    ensures RootName(Behind(lead, body)[0])
  {
    BehindSplit(lead, body);
  }

  // Applied to its own result, whatever the current drive and directories are by then, the
  // function changes nothing, if the argument keeps the root.
  lemma {:induction false} FullPathFixed(lead: Lead, relpath: seq<byte>, current: byte,
                                         curdir: byte -> Option<seq<byte>>, later: byte,
                                         chdir: byte -> Option<seq<byte>>)
    requires current < 26 && later < 26 && FullPath(lead, relpath, current, curdir).Some?
    requires var (drive, body) := Base(relpath, current, curdir).value; KeepsRoot(lead, drive, body)
    ensures var path := FullPath(lead, relpath, current, curdir).value; FullPath(lead, path, later, chdir) == Some(path)
  {
    var (drive, body) := Base(relpath, current, curdir).value;
    RootKept(lead, drive, body);
    Reread(lead, FullPath(lead, relpath, current, curdir).value, later, chdir);
  }

  // A full path stays what it is, whatever the current drive and directories are by then,
  // exactly when the argument keeps the root.
  lemma {:induction false} FixedExactly(lead: Lead, relpath: seq<byte>, current: byte,
                                        curdir: byte -> Option<seq<byte>>)
    requires current < 26 && FullPath(lead, relpath, current, curdir).Some?
    ensures var path := FullPath(lead, relpath, current, curdir).value;
      var (drive, body) := Base(relpath, current, curdir).value;
      KeepsRoot(lead, drive, body)
      <==> forall later: byte, chdir: byte -> Option<seq<byte>> | later < 26 ::
             FullPath(lead, path, later, chdir) == Some(path)
  {
    var (drive, body) := Base(relpath, current, curdir).value;
    var path := FullPath(lead, relpath, current, curdir).value;
    if KeepsRoot(lead, drive, body) {
      forall later: byte, chdir: byte -> Option<seq<byte>> | later < 26
        ensures FullPath(lead, path, later, chdir) == Some(path)
      {
        FullPathFixed(lead, relpath, current, curdir, later, chdir);
      }
    } else {
      RootKept(lead, drive, body);
      NotFixed(lead, path);
    }
  }

  // No current directory, and the first drive.
  lemma {:induction false} NotFixed(lead: Lead, path: seq<byte>)
    requires !StartsAtRoot(path)
    ensures FullPath(lead, path, 0, _ => None) != Some(path)
  {
    var base := Base(path, 0, _ => None);
    if base.Some? && base.value.0 != BACKSLASH && Resolved(lead, base.value.0, base.value.1).Some? {
      ResolvedSound(lead, base.value.0, base.value.1);
    }
  }

  lemma {:induction false} NameSplit(lead: Lead, name: seq<byte>)
    requires Plausible(lead) && |name| == 1 && name[0] != BACKSLASH
    ensures Split(lead, DOTDOT + SEPARATOR + name) == [DOTDOT, name]
  {
    var s := DOTDOT + SEPARATOR;
    NoSeparatorInDots(lead);
    assert s[2..] == SEPARATOR && s[1..] == DOT + SEPARATOR && s[1..][1..] == SEPARATOR;
    assert FindFirst(lead, SEPARATOR, SEPARATOR) == Some(0);
    assert Closed(lead, DOTDOT);
    SplitAt(lead, DOTDOT, name);
    assert name[1..] == [];
    assert FindFirst(lead, [], SEPARATOR) == None;
    assert Split(lead, name) == [name];
    assert [DOTDOT] + [name] == [DOTDOT, name];
  }

  // The argument \:\..\A gives the path \A\.
  lemma {:induction false} BackslashName(lead: Lead)
    requires Plausible(lead)
    ensures Resolved(lead, BACKSLASH, DOTDOT + SEPARATOR + [0x41]) == Some([BACKSLASH, 0x41, BACKSLASH])
  {
    var name: seq<byte> := [0x41];
    var segments, colon: Segments := [DOTDOT, name], [[COLON]];
    NameSplit(lead, name);
    BehindSplit(lead, DOTDOT + SEPARATOR + name);
    WalkedRoot(lead, DOTDOT + SEPARATOR + name);
    assert Behind(lead, DOTDOT + SEPARATOR + name)[1..] == segments;
    assert Behind(lead, DOTDOT + SEPARATOR + name)[..1] == colon;
    assert segments[1..] == [name] && [name][1..] == [] && colon[..0] == [] && [] + [name] == [name];
    assert Fold(segments, colon) == Fold([name], []);
    assert Fold([name], []) == Fold([], [name]);
    assert Fold([], [name]) == Some([name]);
    JoinedFirst(name, []);
    assert [name] + [] == [name];
    assert [] + Joined([name]) == [BACKSLASH, 0x41];
    assert WithRoot([BACKSLASH, 0x41]) == [BACKSLASH, 0x41, BACKSLASH];
  }

  // And that path is not its own full path: its first letter is no longer taken for a drive.
  lemma {:induction false} BackslashNotFixed(lead: Lead, current: byte, curdir: byte -> Option<seq<byte>>,
                                              later: byte, chdir: byte -> Option<seq<byte>>)
    requires Plausible(lead) && current < 26 && later < 26
    ensures var path: seq<byte> := [BACKSLASH, 0x41, BACKSLASH];
      FullPath(lead, [BACKSLASH, COLON, BACKSLASH] + (DOTDOT + SEPARATOR + [0x41]), current, curdir) == Some(path)
      && FullPath(lead, path, later, chdir) != Some(path)
  {
    var path: seq<byte> := [BACKSLASH, 0x41, BACKSLASH];
    BackslashName(lead);
    assert ([BACKSLASH, COLON, BACKSLASH] + (DOTDOT + SEPARATOR + [0x41]))[2..][1..] == DOTDOT + SEPARATOR + [0x41];
    var again := FullPath(lead, path, later, chdir);
    assert Base(path, later, chdir) == Some((0x41 + later, path[1..]));
    if again.Some? {
      ResolvedSound(lead, 0x41 + later, path[1..]);
    }
  }
}
