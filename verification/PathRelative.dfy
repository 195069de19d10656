/** Arguments and current directories: what a full path is, told from their segments. */
module PathRelative {
  import opened Wrappers
  import opened Bytes
  import opened DbcsSearch
  import opened PathFold
  import opened PathText
  import opened PathCanonical

  // ----- a path made of segments

  // The path that the segments lead to on a drive.  With a backslash for a drive letter the
  // colon is the first segment.
  function Under(drive: byte, segments: Segments): Option<seq<byte>> {
    if drive == BACKSLASH then
      match Fold(segments, [[COLON]])
      case None => None
      case Some(kept) => Some(WithRoot(Joined(kept)))
    else
      match Fold(segments, [])
      case None => None
      case Some(kept) => Some([drive, COLON] + (if kept == [] then SEPARATOR else Joined(kept)))
  }

  lemma {:induction false} ResolvedUnder(lead: Lead, drive: byte, body: seq<byte>)
    requires Plausible(lead)
    ensures Resolved(lead, drive, body) == Under(drive, Split(lead, body))
  {
    var s := Split(lead, body);
    if drive == BACKSLASH {
      BehindSplit(lead, body);
      WalkedRoot(lead, body);
      assert Behind(lead, body)[1..] == s && Behind(lead, body)[..1] == [[COLON]];
      var r := Fold(s, [[COLON]]);
      if r.Some? {
        assert [] + Joined(r.value) == Joined(r.value);
      }
    } else {
      ResolvedCanonical(lead, drive, body);
    }
  }

  // ----- one text behind another

  function Final(s: Segments): seq<byte>
    requires s != []
  {
    s[|s| - 1]
  }

  // The segments of two texts with a separator between them: those of the one and those of
  // the other, unless a lone lead byte at the end of the first takes the separator for its
  // trail byte.
  function Chained(lead: Lead, s: Segments, t: Segments): Segments
    requires s != [] && t != []
  {
    if Closed(lead, Final(s)) then s + t else s[..|s| - 1] + [Final(s) + SEPARATOR + t[0]] + t[1..]
  }

  lemma {:induction false} EmptyClosed(lead: Lead)
    ensures Closed(lead, []) && FindFirst(lead, SEPARATOR, SEPARATOR) == Some(0)
  {
    assert [] + SEPARATOR == SEPARATOR;
  }

  // Then the separator is not found.
  lemma {:induction false} Swallowed(lead: Lead, g: seq<byte>, t: seq<byte>)
    requires !lead(BACKSLASH) && g != [] && Last(lead, g) && !Closed(lead, g)
    ensures FindFirst(lead, g + SEPARATOR + t, SEPARATOR) == Later(|g| + 1, FindFirst(lead, t, SEPARATOR))
    decreases |g|
  {
    var s := g + SEPARATOR + t;
    if |g| == 1 {
      EmptyClosed(lead);
      assert (g + SEPARATOR)[1..] == SEPARATOR;
      assert s[2..] == t;
    } else {
      var n := Width(lead, g);
      assert s[n..] == g[n..] + SEPARATOR + t;
      SwallowedRest(lead, g, n);
      Swallowed(lead, g[n..], t);
    }
  }

  lemma {:induction false} SwallowedRest(lead: Lead, g: seq<byte>, n: nat)
    requires !lead(BACKSLASH) && Last(lead, g) && !Closed(lead, g) && |g| > 1 && n == Width(lead, g)
    ensures g[n..] != [] && Last(lead, g[n..]) && !Closed(lead, g[n..])
  {
    EmptyClosed(lead);
    assert g[n..] + SEPARATOR == (g + SEPARATOR)[n..];
    assert Width(lead, g + SEPARATOR) == n;
  }

  lemma {:induction false} SwallowedClosed(lead: Lead, g: seq<byte>, h: seq<byte>)
    requires !lead(BACKSLASH) && Last(lead, g) && !Closed(lead, g) && Last(lead, h)
    ensures Last(lead, g + SEPARATOR + h) && (Closed(lead, g + SEPARATOR + h) <==> Closed(lead, h))
  {
    EmptyClosed(lead);
    Swallowed(lead, g, h);
    Swallowed(lead, g, h + SEPARATOR);
    assert g + SEPARATOR + h + SEPARATOR == g + SEPARATOR + (h + SEPARATOR);
  }

  lemma {:induction false} ChainedSplits(lead: Lead, s: Segments, t: Segments)
    requires !lead(BACKSLASH) && Splits(lead, s) && Splits(lead, t)
    ensures Splits(lead, Chained(lead, s, t))
  {
    var r := Chained(lead, s, t);
    if Closed(lead, Final(s)) {
      assert forall i | 0 <= i < |r| :: r[i] == if i < |s| then s[i] else t[i - |s|];
    } else {
      SwallowedClosed(lead, Final(s), t[0]);
      assert forall i | 0 <= i < |r| ::
          r[i] == if i < |s| - 1 then s[i] else if i == |s| - 1 then Final(s) + SEPARATOR + t[0] else t[i - |s| + 1];
    }
  }

  lemma {:induction false} ChainedJoined(lead: Lead, s: Segments, t: Segments)
    requires s != [] && t != []
    ensures Joined(Chained(lead, s, t)) == Joined(s) + Joined(t)
  {
    if Closed(lead, Final(s)) {
      JoinedApart(s, t);
    } else {
      var front, g, rest := s[..|s| - 1], Final(s), t[1..];
      var m := g + SEPARATOR + t[0];
      assert s == front + [g] && t == [t[0]] + rest;
      JoinedMore(front, g);
      JoinedFirst(t[0], rest);
      JoinedApart(front + [m], rest);
      JoinedMore(front, m);
      Moved(Joined(front), g, t[0], Joined(rest));
    }
  }

  lemma {:induction false} Moved(a: seq<byte>, g: seq<byte>, h: seq<byte>, b: seq<byte>)
    ensures a + SEPARATOR + (g + SEPARATOR + h) + b == (a + SEPARATOR + g) + (SEPARATOR + h + b)
  {
  }

  lemma {:induction false} ChainSplit(lead: Lead, c: seq<byte>, rest: seq<byte>)
    requires !lead(BACKSLASH)
    ensures Split(lead, c + SEPARATOR + rest) == Chained(lead, Split(lead, c), Split(lead, rest))
  {
    var s, t := Split(lead, c), Split(lead, rest);
    SplitSplits(lead, c);
    SplitSplits(lead, rest);
    ChainedSplits(lead, s, t);
    SplitJoined(lead, c);
    SplitJoined(lead, rest);
    ChainedJoined(lead, s, t);
    SplitAgain(lead, Chained(lead, s, t), c, rest);
  }

  lemma {:induction false} SplitAgain(lead: Lead, s: Segments, c: seq<byte>, rest: seq<byte>)
    requires !lead(BACKSLASH) && Splits(lead, s) && Joined(s) == (SEPARATOR + c) + (SEPARATOR + rest)
    ensures Split(lead, c + SEPARATOR + rest) == s
  {
    assert Joined(s)[1..] == c + SEPARATOR + rest;
    JoinedSplit(lead, s);
  }

  // ----- arguments

  predicate Named(relpath: seq<byte>) { |relpath| >= 2 && relpath[1] == 0x3A }

  predicate FromRoot(rest: seq<byte>) { rest != [] && rest[0] == 0x5C }

  // The segments of a current directory and then of an argument.
  function Segmented(lead: Lead, c: seq<byte>, rest: seq<byte>): Segments {
    if c == [] && rest == [] then []
    else if c == [] then Split(lead, rest)
    else if rest == [] then Split(lead, c)
    else Chained(lead, Split(lead, c), Split(lead, rest))
  }

  lemma {:induction false} BodySegmented(lead: Lead, drive: byte, c: seq<byte>, rest: seq<byte>)
    requires Plausible(lead)
    ensures Resolved(lead, drive, c + (if rest != [] && c != [] then SEPARATOR else []) + rest)
      == Under(drive, Segmented(lead, c, rest))
  {
    var body := c + (if rest != [] && c != [] then SEPARATOR else []) + rest;
    ResolvedUnder(lead, drive, body);
    if c == [] && rest == [] {
      assert body == [] && Split(lead, []) == [[]];
      NothingUnder(drive);
    } else if c == [] {
      assert body == rest;
    } else if rest == [] {
      assert body == c;
    } else {
      ChainSplit(lead, c, rest);
    }
  }

  // An empty segment at the root makes no difference.
  lemma {:induction false} NothingUnder(drive: byte)
    ensures Under(drive, [[]]) == Under(drive, [])
  {
    var empty: Segments, colon: Segments := [[]], [[COLON]];
    assert empty == [[]] + [];
    KeptFolds([], [], []);
    KeptFolds([], [], colon);
    assert [] + [[]] == empty;
    JoinedFirst([], []);
    assert Joined(empty) == SEPARATOR;
    JoinedMore(colon, []);
    JoinedFirst([COLON], []);
    assert [[COLON]] + [] == colon;
    assert Joined(colon + [[]]) == Joined(colon) + SEPARATOR;
    assert Joined(colon) == [BACKSLASH, COLON];
  }

  // An argument without a drive that does not start at the root leads on from the current
  // directory of the current drive; without one there is no path.
  lemma {:induction false} RelativePath(lead: Lead, relpath: seq<byte>, current: byte,
                                        curdir: byte -> Option<seq<byte>>)
    requires Plausible(lead) && current < 26 && !Named(relpath) && !FromRoot(relpath)
    ensures var drive: byte := 0x41 + current;
      FullPath(lead, relpath, current, curdir)
      == if curdir(drive) == None then None else Under(drive, Segmented(lead, curdir(drive).value, relpath))
  {
    var drive: byte := 0x41 + current;
    if curdir(drive).Some? {
      BodySegmented(lead, drive, curdir(drive).value, relpath);
    }
  }

  // With a drive, from the current directory of that drive.
  lemma {:induction false} DrivePath(lead: Lead, drive: byte, rest: seq<byte>, current: byte,
                                     curdir: byte -> Option<seq<byte>>)
    requires Plausible(lead) && current < 26 && !FromRoot(rest)
    ensures FullPath(lead, [drive, 0x3A] + rest, current, curdir)
      == if curdir(drive) == None then None else Under(drive, Segmented(lead, curdir(drive).value, rest))
  {
    assert ([drive, 0x3A] + rest)[2..] == rest;
    if curdir(drive).Some? {
      BodySegmented(lead, drive, curdir(drive).value, rest);
    }
  }

  // From the root no current directory is needed.
  lemma {:induction false} RootedPath(lead: Lead, drive: byte, rest: seq<byte>, current: byte,
                                      curdir: byte -> Option<seq<byte>>)
    requires Plausible(lead) && current < 26
    ensures FullPath(lead, [drive, 0x3A, 0x5C] + rest, current, curdir) == Under(drive, Split(lead, rest))
    ensures FullPath(lead, [0x5C] + rest, current, curdir)
      == if Named([0x5C] + rest) then FullPath(lead, [0x5C, 0x3A] + rest[1..], current, curdir)
         else Under(0x41 + current, Split(lead, rest))
  {
    ResolvedUnder(lead, drive, rest);
    ResolvedUnder(lead, 0x41 + current, rest);
    assert ([drive, 0x3A, 0x5C] + rest)[2..] == [0x5C] + rest && ([0x5C] + rest)[1..] == rest;
    if Named([0x5C] + rest) {
      assert [0x5C] + rest == [0x5C, 0x3A] + rest[1..];
    }
  }

  // ----- an example

  lemma {:induction false} LetterSegment(lead: Lead, g: seq<byte>)
    requires !lead(BACKSLASH) && forall i | 0 <= i < |g| :: !lead(g[i]) && g[i] != BACKSLASH
    ensures Closed(lead, g) && Split(lead, g) == [g]
    decreases |g|
  {
    if g == [] {
      assert g + SEPARATOR == SEPARATOR;
    } else {
      LetterSegment(lead, g[1..]);
      assert (g + SEPARATOR)[1..] == g[1..] + SEPARATOR;
    }
  }

  // On drive C with the current directory DOS, the argument FILE is C:\DOS\FILE.
  lemma {:induction false} FileInDos(lead: Lead, curdir: byte -> Option<seq<byte>>, dos: seq<byte>, file: seq<byte>)
    requires dos == [0x44, 0x4F, 0x53] && file == [0x46, 0x49, 0x4C, 0x45]
    requires curdir(0x43) == Some(dos) && forall b: byte | b < 0x80 :: !lead(b)
    ensures FullPath(lead, file, 2, curdir)
      == Some([0x43, 0x3A, 0x5C, 0x44, 0x4F, 0x53, 0x5C, 0x46, 0x49, 0x4C, 0x45])
  {
    LetterSegment(lead, dos);
    LetterSegment(lead, file);
    RelativePath(lead, file, 2, curdir);
    var s: Segments := [dos, file];
    assert [dos] + [file] == s;
    PlainFolds(s, []);
    assert [] + s == s;
    JoinedFirst(dos, [file]);
    JoinedFirst(file, []);
    assert [file] + [] == [file];
    Written(dos, file);
  }

  lemma {:induction false} Written(dos: seq<byte>, file: seq<byte>)
    requires dos == [0x44, 0x4F, 0x53] && file == [0x46, 0x49, 0x4C, 0x45]
    ensures [0x43, COLON] + (SEPARATOR + dos + (SEPARATOR + file + []))
      == [0x43, 0x3A, 0x5C, 0x44, 0x4F, 0x53, 0x5C, 0x46, 0x49, 0x4C, 0x45]
  {
  }
}
