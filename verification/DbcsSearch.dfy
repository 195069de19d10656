/**
  Searching NUL-terminated strings in which some bytes lead a two-byte character.  Which
  bytes do is the country's business; `lead` is any predicate.
 */
module DbcsSearch {
  import opened Wrappers
  import opened Bytes

  type Lead = byte -> bool

  // The string at `start` in a buffer ends at `end`.
  ghost predicate StringAt(buffer: seq<byte>, start: nat, end: nat) {
    start <= end < |buffer| && buffer[end] == 0 && forall k | start <= k < end :: buffer[k] != 0
  }

  // The size of the first character; a lead byte at the very end stands alone.
  function Width(lead: Lead, s: seq<byte>): (n: nat)
    requires s != []
    ensures 1 <= n <= |s|
  {
    if lead(s[0]) && |s| > 1 then 2 else 1
  }

  // i is where a character starts.
  predicate Boundary(lead: Lead, s: seq<byte>, i: nat)
    decreases |s|
  {
    i == 0 || (s != [] && i >= Width(lead, s) && Boundary(lead, s[Width(lead, s)..], i - Width(lead, s)))
  }

  function Later(n: nat, r: Option<nat>): Option<nat> {
    match r
    case None => None
    case Some(i) => Some(n + i)
  }

  // The pattern stands at i, as one-byte characters count.
  predicate Hit(lead: Lead, s: seq<byte>, pattern: seq<byte>, i: nat) {
    Boundary(lead, s, i) && i < |s| && Width(lead, s[i..]) == 1 && pattern <= s[i..]
  }

  function FindFirst(lead: Lead, s: seq<byte>, pattern: seq<byte>): Option<nat>
    decreases |s|
  {
    if s == [] then None
    else if Width(lead, s) == 2 then Later(2, FindFirst(lead, s[2..], pattern))
    else if pattern <= s then Some(0)
    else Later(1, FindFirst(lead, s[1..], pattern))
  }

  // The last hit, or what was found before.
  function FindLast(lead: Lead, s: seq<byte>, pattern: seq<byte>): Option<nat>
    decreases |s|
  {
    if s == [] then None else
      var n := Width(lead, s);
      var rest := Later(n, FindLast(lead, s[n..], pattern));
      if rest.Some? then rest
      else if n == 1 && pattern <= s then Some(0)
      else None
  }

  lemma {:induction false} HitLater(lead: Lead, s: seq<byte>, pattern: seq<byte>, i: nat)
    requires s != []
    ensures var n := Width(lead, s);
      Hit(lead, s, pattern, i) <==>
        (i == 0 && n == 1 && pattern <= s) || (i >= n && Hit(lead, s[n..], pattern, i - n))
  {
    var n := Width(lead, s);
    assert s[0..] == s;
    if n <= i <= |s| {
      assert s[n..][i - n..] == s[i..];
    }
  }

  ghost predicate NoHit(lead: Lead, s: seq<byte>, pattern: seq<byte>, from: nat, to: nat) {
    forall j: nat | from <= j < to :: !Hit(lead, s, pattern, j)
  }

  // The search finds the first place where the pattern stands, and nothing when there is none.
  lemma {:induction false} FirstFound(lead: Lead, s: seq<byte>, pattern: seq<byte>)
    ensures var r := FindFirst(lead, s, pattern);
      (r.Some? ==> Hit(lead, s, pattern, r.value))
      && NoHit(lead, s, pattern, 0, if r.Some? then r.value else |s|)
    decreases |s|
  {
    if s != [] {
      var n, r := Width(lead, s), FindFirst(lead, s, pattern);
      FirstFound(lead, s[n..], pattern);
      if r.Some? {
        HitLater(lead, s, pattern, r.value);
      }
      forall j: nat | j < (if r.Some? then r.value else |s|) ensures !Hit(lead, s, pattern, j) {
        HitLater(lead, s, pattern, j);
        assert j >= n ==> !Hit(lead, s[n..], pattern, j - n);
      }
    }
  }

  // The backward variant finds the last place.
  lemma {:induction false} LastFound(lead: Lead, s: seq<byte>, pattern: seq<byte>)
    ensures var r := FindLast(lead, s, pattern);
      (r.Some? ==> Hit(lead, s, pattern, r.value))
      && NoHit(lead, s, pattern, if r.Some? then r.value + 1 else 0, |s|)
    decreases |s|
  {
    if s != [] {
      var n, r := Width(lead, s), FindLast(lead, s, pattern);
      LastFound(lead, s[n..], pattern);
      if r.Some? {
        HitLater(lead, s, pattern, r.value);
      }
      forall j: nat | (if r.Some? then r.value + 1 else 0) <= j < |s| ensures !Hit(lead, s, pattern, j) {
        HitLater(lead, s, pattern, j);
        assert j >= n ==> !Hit(lead, s[n..], pattern, j - n);
      }
    }
  }

  // ----- the searches themselves, in a buffer

  ghost function FirstFrom(lead: Lead, buffer: seq<byte>, scan: nat, end: nat, pattern: seq<byte>): Option<nat>
    requires scan <= end <= |buffer|
  {
    Later(scan, FindFirst(lead, buffer[scan..end], pattern))
  }

  ghost function LastFrom(lead: Lead, buffer: seq<byte>, scan: nat, end: nat, pattern: seq<byte>,
                          last: Option<nat>): Option<nat>
    requires scan <= end <= |buffer|
  {
    var later := Later(scan, FindLast(lead, buffer[scan..end], pattern));
    if later.Some? then later else last
  }

  // One turn of a search: over a two-byte character, or over one byte.
  lemma {:induction false} FirstStep(lead: Lead, buffer: seq<byte>, scan: nat, end: nat, pattern: seq<byte>)
    requires StringAt(buffer, scan, end) && scan < end
    ensures if lead(buffer[scan]) && buffer[scan + 1] != 0 then
              scan + 2 <= end
              && FirstFrom(lead, buffer, scan, end, pattern) == FirstFrom(lead, buffer, scan + 2, end, pattern)
            else
              FirstFrom(lead, buffer, scan, end, pattern)
              == if pattern <= buffer[scan..end] then Some(scan) else FirstFrom(lead, buffer, scan + 1, end, pattern)
  {
    assert buffer[scan..end][1..] == buffer[scan + 1..end];
    if scan + 1 < end {
      assert buffer[scan..end][2..] == buffer[scan + 2..end];
    }
  }

  lemma {:induction false} LastStep(lead: Lead, buffer: seq<byte>, scan: nat, end: nat, pattern: seq<byte>,
                                    last: Option<nat>)
    requires StringAt(buffer, scan, end) && scan < end
    ensures if lead(buffer[scan]) && buffer[scan + 1] != 0 then
              scan + 2 <= end
              && LastFrom(lead, buffer, scan, end, pattern, last)
                 == LastFrom(lead, buffer, scan + 2, end, pattern, last)
            else
              LastFrom(lead, buffer, scan, end, pattern, last)
              == LastFrom(lead, buffer, scan + 1, end, pattern,
                          if pattern <= buffer[scan..end] then Some(scan) else last)
  {
    assert buffer[scan..end][1..] == buffer[scan + 1..end];
    if scan + 1 < end {
      assert buffer[scan..end][2..] == buffer[scan + 2..end];
    }
  }

  lemma {:induction false} OneByte(buffer: seq<byte>, scan: nat, end: nat, target: byte)
    requires scan < end <= |buffer|
    ensures [target] <= buffer[scan..end] <==> buffer[scan] == target
  {
  }

  method ComStrchr(a: array<byte>, start: nat, ghost end: nat, target: byte, lead: Lead) returns (r: Option<nat>)
    requires StringAt(a[..], start, end)
    ensures r == if target == 0 then Some(end) else FirstFrom(lead, a[..], start, end, [target])
  {
    var scan := start;
    ghost var buffer := a[..];
    while a[scan] != 0
      invariant start <= scan <= end && StringAt(buffer, scan, end)
      invariant target != 0 ==>
        FirstFrom(lead, buffer, start, end, [target]) == FirstFrom(lead, buffer, scan, end, [target])
      decreases end - scan
    {
      FirstStep(lead, buffer, scan, end, [target]);
      OneByte(buffer, scan, end, target);
      if lead(a[scan]) && a[scan + 1] != 0 {
        scan := scan + 2;
        continue;
      }
      if a[scan] == target {
        return Some(scan);
      }
      scan := scan + 1;
    }
    r := if target == 0 then Some(scan) else None;
  }

  method ComStrrchr(a: array<byte>, start: nat, ghost end: nat, target: byte, lead: Lead) returns (r: Option<nat>)
    requires StringAt(a[..], start, end)
    ensures r == if target == 0 then Some(end) else LastFrom(lead, a[..], start, end, [target], None)
  {
    var last: Option<nat>, scan := None, start;
    ghost var buffer := a[..];
    while a[scan] != 0
      invariant start <= scan <= end && StringAt(buffer, scan, end)
      invariant target != 0 ==>
        LastFrom(lead, buffer, start, end, [target], None) == LastFrom(lead, buffer, scan, end, [target], last)
      decreases end - scan
    {
      LastStep(lead, buffer, scan, end, [target], last);
      OneByte(buffer, scan, end, target);
      if lead(a[scan]) && a[scan + 1] != 0 {
        scan := scan + 2;
        continue;
      }
      if a[scan] == target {
        last := Some(scan);
      }
      scan := scan + 1;
    }
    r := if target == 0 then Some(scan) else last;
  }

  // Whether the pattern stands at `scan`: the comparison stops at the end of either.
  method StandsAt(a: array<byte>, scan: nat, ghost end: nat, pattern: seq<byte>) returns (stands: bool)
    requires StringAt(a[..], scan, end) && forall k | 0 <= k < |pattern| :: pattern[k] != 0
    ensures stands <==> pattern <= a[..][scan..end]
  {
    var left, right := scan, 0;
    ghost var s := a[..][scan..end];
    while right < |pattern| && a[left] == pattern[right]
      invariant right <= |pattern| && left == scan + right <= end
      invariant pattern[..right] == s[..right]
      decreases |pattern| - right
    {
      left := left + 1;
      right := right + 1;
    }
    stands := right == |pattern|;
    assert right < |pattern| && right < |s| ==> s[right] != pattern[right];
  }

  method ComSubstr(a: array<byte>, start: nat, ghost end: nat, pattern: seq<byte>, lead: Lead) returns (r: Option<nat>)
    requires StringAt(a[..], start, end) && forall k | 0 <= k < |pattern| :: pattern[k] != 0
    ensures r == if pattern == [] then Some(start) else FirstFrom(lead, a[..], start, end, pattern)
  {
    if |pattern| == 0 {
      return Some(start);
    }
    var scan := start;
    ghost var buffer := a[..];
    while a[scan] != 0
      invariant start <= scan <= end && StringAt(buffer, scan, end)
      invariant FirstFrom(lead, buffer, start, end, pattern) == FirstFrom(lead, buffer, scan, end, pattern)
      decreases end - scan
    {
      FirstStep(lead, buffer, scan, end, pattern);
      if lead(a[scan]) && a[scan + 1] != 0 {
        scan := scan + 2;
        continue;
      }
      var stands := StandsAt(a, scan, end, pattern);
      if stands {
        return Some(scan);
      }
      scan := scan + 1;
    }
    r := None;
  }
}
