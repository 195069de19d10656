/**
  What rootpath does to a text: the fold of the segments, on the text itself.  Nothing is
  asked here of the set of lead bytes; with an ordinary one it is the fold of `PathFold`.
 */
module PathText {
  import opened Wrappers
  import opened Bytes
  import opened DbcsSearch
  import opened PathFold

  // Where the last element starts: behind the last separator that repeated scans come by.
  function LastElement(lead: Lead, s: seq<byte>): (n: nat)
    ensures n <= |s|
    decreases |s|
  {
    var k := SegmentEnd(lead, s);
    if k == |s| then 0 else k + 1 + LastElement(lead, s[k + 1..])
  }

  // The text kept when one more segment is treated.
  function Treated(lead: Lead, kept: seq<byte>, g: seq<byte>): Option<seq<byte>> {
    if g == DOT then Some(kept)
    else if g == DOTDOT then
      var p := LastElement(lead, kept);
      if p == 0 then None else Some(kept[..p - 1])
    else Some(kept + SEPARATOR + g)
  }

  function FoldText(lead: Lead, kept: seq<byte>, segments: Segments): Option<seq<byte>>
    decreases |segments|
  {
    if segments == [] then Some(kept)
    else match Treated(lead, kept, segments[0])
      case None => None
      case Some(next) => FoldText(lead, next, segments[1..])
  }

  // The segments of a text that is empty or starts with a separator.
  function SegmentsOf(lead: Lead, tail: seq<byte>): Segments {
    if tail == [] then [] else Split(lead, tail[1..])
  }

  // A whole text: scanning starts behind the drive letter, so its first segment is the
  // colon and what belongs to it.
  function Walked(lead: Lead, text: seq<byte>): Option<seq<byte>>
    requires text != []
  {
    var segments := Split(lead, text[1..]);
    FoldText(lead, text[..1] + segments[0], segments[1..])
  }

  function WithRoot(path: seq<byte>): seq<byte> {
    if |path| == 2 then path + SEPARATOR else path
  }

  // The result for the text behind the drive and the first separator.
  function Resolved(lead: Lead, drive: byte, body: seq<byte>): Option<seq<byte>> {
    match Walked(lead, [drive, COLON] + SEPARATOR + body)
    case None => None
    case Some(path) => Some(WithRoot(path))
  }

  // The drive, and the text behind its first separator: the argument itself when it is
  // rooted, and otherwise the argument behind the current directory.
  function Base(relpath: seq<byte>, current: byte, curdir: byte -> Option<seq<byte>>): Option<(byte, seq<byte>)>
    requires current < 26
  {
    var named := |relpath| >= 2 && relpath[1] == COLON;
    var drive: byte := if named then relpath[0] else 0x41 + current;
    var rest := if named then relpath[2..] else relpath;
    if rest != [] && rest[0] == BACKSLASH then Some((drive, rest[1..]))
    else match curdir(drive)
      case None => None
      case Some(c) => Some((drive, c + (if rest != [] && c != [] then SEPARATOR else []) + rest))
  }

  function FullPath(lead: Lead, relpath: seq<byte>, current: byte, curdir: byte -> Option<seq<byte>>): Option<seq<byte>>
    requires current < 26
  {
    match Base(relpath, current, curdir)
    case None => None
    case Some((drive, body)) => Resolved(lead, drive, body)
  }

  // ----- the last element of a text

  // The text can be read as a prefix and segments behind it, whatever follows.
  ghost predicate ReadsAs(lead: Lead, text: seq<byte>, prefix: seq<byte>, kept: Segments) {
    !lead(BACKSLASH) && Closed(lead, prefix) && AllClosed(lead, kept) && text == prefix + Joined(kept)
  }

  // Where the last element of what is kept starts; the very start when nothing is kept.
  ghost function LastStart(prefix: seq<byte>, kept: Segments): nat {
    if kept == [] then 0 else |prefix| + |Joined(kept[..|kept| - 1])| + 1
  }

  // The first separator from the start of the buffer, which ends behind what is kept.
  lemma {:induction false} FirstElement(lead: Lead, prefix: seq<byte>, kept: Segments)
    requires !lead(BACKSLASH) && Closed(lead, prefix)
    ensures FindFirst(lead, prefix + Joined(kept), SEPARATOR) == if kept == [] then None else Some(|prefix|)
  {
    if kept == [] {
      assert prefix + [] == prefix;
    } else {
      var t := kept[0] + Joined(kept[1..]);
      assert prefix + Joined(kept) == prefix + SEPARATOR + t;
      ClosedThen(lead, prefix, t);
    }
  }

  lemma {:induction false} JoinedAround(kept: Segments, i: nat)
    requires i < |kept|
    ensures |Joined(kept[..i])| + 1 <= |Joined(kept)|
    ensures Joined(kept)[|Joined(kept[..i])| + 1..] == kept[i] + Joined(kept[i + 1..])
    ensures |Joined(kept[..i + 1])| == |Joined(kept[..i])| + 1 + |kept[i]|
  {
    var before, g, after := kept[..i], kept[i], kept[i + 1..];
    assert kept == before + ([g] + after);
    JoinedApart(before, [g] + after);
    JoinedFirst(g, after);
    assert kept[..i + 1] == before + [g];
    JoinedMore(before, g);
  }

  lemma {:induction false} NextElement(lead: Lead, kept: Segments, i: nat)
    requires !lead(BACKSLASH) && i < |kept| && AllClosed(lead, kept)
    ensures |Joined(kept[..i])| + 1 <= |Joined(kept)|
    ensures FindFirst(lead, Joined(kept)[|Joined(kept[..i])| + 1..], SEPARATOR)
      == if i + 1 == |kept| then None else Some(|kept[i]|)
    ensures |Joined(kept[..i + 1])| == |Joined(kept[..i])| + 1 + |kept[i]|
  {
    var before, g, after := kept[..i], kept[i], kept[i + 1..];
    JoinedAround(kept, i);
    if after == [] {
      assert g + Joined(after) == g;
    } else {
      var t := Joined(after)[1..];
      assert g + Joined(after) == g + SEPARATOR + t;
      ClosedThen(lead, g, t);
    }
  }

  lemma {:induction false} JoinedApart(a: Segments, b: Segments)
    ensures Joined(a + b) == Joined(a) + Joined(b)
    decreases |a|
  {
    if a == [] {
      assert a + b == b;
    } else {
      assert (a + b)[1..] == a[1..] + b;
      JoinedApart(a[1..], b);
    }
  }

  // Where element i starts, the prefix being element 0, and where it ends.
  ghost function ElementStart(prefix: seq<byte>, kept: Segments, i: nat): nat
    requires i <= |kept|
  {
    if i == 0 then 0 else ElementEnd(prefix, kept, i - 1) + 1
  }

  ghost function ElementEnd(prefix: seq<byte>, kept: Segments, i: nat): nat
    requires i <= |kept|
  {
    |prefix| + |Joined(kept[..i])|
  }

  lemma {:induction false} ElementBounds(prefix: seq<byte>, kept: Segments, i: nat)
    requires i <= |kept|
    ensures ElementStart(prefix, kept, i) <= ElementEnd(prefix, kept, i) <= |prefix| + |Joined(kept)|
    ensures ElementEnd(prefix, kept, i) < |prefix| + |Joined(kept)| <==> i < |kept|
  {
    if i > 0 {
      JoinedAround(kept, i - 1);
    }
    if i < |kept| {
      JoinedAround(kept, i);
    } else {
      assert kept[..i] == kept;
    }
  }

  // The scan from the start of an element finds its end.
  lemma {:induction false} ElementFound(lead: Lead, text: seq<byte>, prefix: seq<byte>, kept: Segments, i: nat)
    requires ReadsAs(lead, text, prefix, kept) && i <= |kept|
    requires ElementStart(prefix, kept, i) <= |text|
    ensures var start := ElementStart(prefix, kept, i); var r := FindFirst(lead, text[start..], SEPARATOR);
      ElementEnd(prefix, kept, i) == if r == None then |text| else start + r.value
  {
    if i == 0 {
      FirstElement(lead, prefix, kept);
      assert text[0..] == text;
      assert kept[..0] == [];
    } else {
      LaterElementFound(lead, text, prefix, kept, i - 1);
    }
  }

  lemma {:induction false} LaterElementFound(lead: Lead, text: seq<byte>, prefix: seq<byte>, kept: Segments, k: nat)
    requires !lead(BACKSLASH) && AllClosed(lead, kept) && k < |kept| && text == prefix + Joined(kept)
    ensures ElementEnd(prefix, kept, k) + 1 <= |text|
    ensures var start := ElementEnd(prefix, kept, k) + 1; var r := FindFirst(lead, text[start..], SEPARATOR);
      ElementEnd(prefix, kept, k + 1) == if r == None then |text| else start + r.value
  {
    NextElement(lead, kept, k);
    Shifted(prefix, Joined(kept), |Joined(kept[..k])| + 1);
    assert k + 1 == |kept| ==> kept[..k + 1] == kept;
  }

  lemma {:induction false} Shifted(prefix: seq<byte>, s: seq<byte>, at: nat)
    requires at <= |s|
    ensures (prefix + s)[|prefix| + at..] == s[at..]
  {
  }

  lemma {:induction false} LastElementIs(lead: Lead, text: seq<byte>, prefix: seq<byte>, kept: Segments, i: nat,
                                         start: nat)
    requires ReadsAs(lead, text, prefix, kept) && i <= |kept|
    requires start == ElementStart(prefix, kept, i)
    ensures start <= |text| && start + LastElement(lead, text[start..]) == LastStart(prefix, kept)
    decreases |kept| - i
  {
    var end := ElementEnd(prefix, kept, i);
    ElementStep(lead, text, prefix, kept, i, start, end);
    if i < |kept| {
      NextStart(prefix, kept, i);
      LastElementIs(lead, text, prefix, kept, i + 1, end + 1);
    } else {
      AtLastStart(prefix, kept);
    }
  }

  lemma {:induction false} NextStart(prefix: seq<byte>, kept: Segments, i: nat)
    requires i < |kept|
    ensures ElementStart(prefix, kept, i + 1) == ElementEnd(prefix, kept, i) + 1
  {
  }

  lemma {:induction false} AtLastStart(prefix: seq<byte>, kept: Segments)
    ensures ElementStart(prefix, kept, |kept|) == LastStart(prefix, kept)
  {
  }

  lemma {:induction false} ElementStep(lead: Lead, text: seq<byte>, prefix: seq<byte>, kept: Segments, i: nat,
                                       start: nat, end: nat)
    requires ReadsAs(lead, text, prefix, kept) && i <= |kept|
    requires start == ElementStart(prefix, kept, i) && end == ElementEnd(prefix, kept, i)
    ensures start <= end <= |text| && (end == |text| <==> i == |kept|)
    ensures LastElement(lead, text[start..])
      == if end == |text| then 0 else end + 1 - start + LastElement(lead, text[end + 1..])
  {
    ElementBounds(prefix, kept, i);
    ElementFound(lead, text, prefix, kept, i);
    ToNext(lead, text, start, end);
  }

  lemma {:induction false} ToNext(lead: Lead, text: seq<byte>, start: nat, end: nat)
    requires start <= |text|
    requires var r := FindFirst(lead, text[start..], SEPARATOR); end == if r == None then |text| else start + r.value
    ensures end <= |text|
    ensures LastElement(lead, text[start..])
      == if end == |text| then 0 else end + 1 - start + LastElement(lead, text[end + 1..])
  {
    SeparatorFound(lead, text[start..]);
    if end < |text| {
      assert text[start..][end - start + 1..] == text[end + 1..];
    }
  }

  // The text of a prefix and the segments kept.
  function TextOf(prefix: seq<byte>, kept: Option<Segments>): Option<seq<byte>> {
    match kept
    case None => None
    case Some(segments) => Some(prefix + Joined(segments))
  }

  lemma {:induction false} TreatedAlike(lead: Lead, prefix: seq<byte>, kept: Segments, g: seq<byte>)
    requires !lead(BACKSLASH) && Closed(lead, prefix) && AllClosed(lead, kept)
    ensures Treated(lead, prefix + Joined(kept), g)
      == if g == DOTDOT && kept == [] then None else Some(prefix + Joined(Kept(g, kept)))
  {
    if g == DOTDOT {
      DroppedAlike(lead, prefix, kept);
    } else if Plain(g) {
      JoinedMore(kept, g);
      assert prefix + Joined(kept) + SEPARATOR + g == prefix + (Joined(kept) + SEPARATOR + g);
    }
  }

  lemma {:induction false} DroppedAlike(lead: Lead, prefix: seq<byte>, kept: Segments)
    requires !lead(BACKSLASH) && Closed(lead, prefix) && AllClosed(lead, kept)
    ensures LastElement(lead, prefix + Joined(kept)) == 0 <==> kept == []
    ensures kept != [] ==>
      (prefix + Joined(kept))[..LastElement(lead, prefix + Joined(kept)) - 1] == prefix + Joined(kept[..|kept| - 1])
  {
    LastElementIs(lead, prefix + Joined(kept), prefix, kept, 0, 0);
    assert (prefix + Joined(kept))[0..] == prefix + Joined(kept);
    if kept != [] {
      WithoutLast(prefix, kept);
    }
  }

  lemma {:induction false} WithoutLast(prefix: seq<byte>, kept: Segments)
    requires kept != []
    ensures 0 < LastStart(prefix, kept) <= |prefix + Joined(kept)|
    ensures (prefix + Joined(kept))[..LastStart(prefix, kept) - 1] == prefix + Joined(kept[..|kept| - 1])
  {
    var before := kept[..|kept| - 1];
    assert kept == before + [kept[|kept| - 1]];
    JoinedMore(before, kept[|kept| - 1]);
    FrontOf(prefix, Joined(before), SEPARATOR + kept[|kept| - 1]);
    assert Joined(kept) == Joined(before) + (SEPARATOR + kept[|kept| - 1]);
  }

  lemma {:induction false} FrontOf(a: seq<byte>, b: seq<byte>, c: seq<byte>)
    ensures (a + (b + c))[..|a| + |b|] == a + b
  {
  }

  // The fold on the text is the fold on segments.
  lemma {:induction false} FoldsAlike(lead: Lead, prefix: seq<byte>, kept: Segments, segments: Segments)
    requires !lead(BACKSLASH) && Closed(lead, prefix) && AllClosed(lead, kept)
    requires segments == [] || Splits(lead, segments)
    ensures FoldText(lead, prefix + Joined(kept), segments) == TextOf(prefix, Fold(segments, kept))
    decreases |segments|
  {
    if segments != [] {
      var g, rest := segments[0], segments[1..];
      assert segments == [g] + rest;
      TreatedAlike(lead, prefix, kept, g);
      KeptFolds(g, rest, kept);
      if rest == [] {
        assert FoldText(lead, prefix + Joined(Kept(g, kept)), rest) == Some(prefix + Joined(Kept(g, kept)));
      } else if !(g == DOTDOT && kept == []) {
        SplitsRest(lead, segments);
        KeptClosed(lead, g, kept);
        FoldsAlike(lead, prefix, Kept(g, kept), rest);
      }
    }
  }

  // What one segment makes of what is kept.
  function Kept(g: seq<byte>, kept: Segments): Segments {
    if g == DOT then kept
    else if g == DOTDOT then if kept == [] then [] else kept[..|kept| - 1]
    else kept + [g]
  }

  lemma {:induction false} KeptFolds(g: seq<byte>, rest: Segments, kept: Segments)
    ensures Fold([g] + rest, kept) == if g == DOTDOT && kept == [] then None else Fold(rest, Kept(g, kept))
  {
    assert ([g] + rest)[1..] == rest;
  }

  lemma {:induction false} KeptClosed(lead: Lead, g: seq<byte>, kept: Segments)
    requires AllClosed(lead, kept) && Closed(lead, g)
    ensures AllClosed(lead, Kept(g, kept))
  {
  }

  // ----- a text that is kept whole

  lemma {:induction false} PlainKept(lead: Lead, kept: seq<byte>, segments: Segments)
    requires AllPlain(segments)
    ensures FoldText(lead, kept, segments) == Some(kept + Joined(segments))
    decreases |segments|
  {
    if segments == [] {
      assert kept + [] == kept;
    } else {
      var g, rest := segments[0], segments[1..];
      PlainKept(lead, kept + SEPARATOR + g, rest);
      assert kept + SEPARATOR + g + Joined(rest) == kept + (SEPARATOR + g + Joined(rest));
    }
  }

  lemma {:induction false} WholeText(text: seq<byte>, g: seq<byte>, j: seq<byte>)
    requires text != [] && SEPARATOR + text[1..] == SEPARATOR + g + j
    ensures text[..1] + g + j == text
  {
    assert text[1..] == (SEPARATOR + text[1..])[1..] == g + j;
    assert text == text[..1] + text[1..];
  }

  lemma {:induction false} WalkedWhole(lead: Lead, text: seq<byte>)
    requires text != [] && AllPlain(Split(lead, text[1..])[1..])
    ensures Walked(lead, text) == Some(text)
  {
    var segments := Split(lead, text[1..]);
    var g, rest := segments[0], segments[1..];
    PlainKept(lead, text[..1] + g, rest);
    SplitJoined(lead, text[1..]);
    WholeText(text, g, Joined(rest));
  }
}
