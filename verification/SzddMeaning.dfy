/**
  What a stream says, read byte by byte and without tokens or a ring buffer: the decoder
  gives some bytes exactly when the stream spells them.
 */
module SzddMeaning {
  import opened Wrappers
  import opened Bytes
  import opened SzddFormat
  import opened SzddRoundTrip
  import opened SzddCodec

  const MASKS: seq<nat> := [1, 2, 4, 8, 16, 32, 64, 128]

  // The byte at place j went to index p of a buffer of 4096 bytes, where the byte at place 0
  // went to index 0xFEE, and is still there when o bytes are done.
  predicate WentTo(o: nat, p: nat, j: int) {
    o - 4096 <= j < o && (0xFEE + j) % 4096 == p
  }

  // The byte k behind place o is the one k behind place j; before place 0 there are spaces.
  predicate SameBehind(out: seq<byte>, o: nat, j: int, k: nat)
    requires j < o && o + k < |out|
  {
    out[o + k] == if j + k < 0 then 0x20 else out[j + k]
  }

  // From place o on, n bytes of out are those from place j on.  What lies behind the end of
  // out does not matter.
  ghost predicate Follows(out: seq<byte>, o: nat, j: int, n: nat)
    requires j < o
  {
    forall k: nat | k < n && o + k < |out| :: SameBehind(out, o, j, k)
  }

  ghost predicate Copied(out: seq<byte>, o: nat, p: nat, n: nat) {
    forall j: int | WentTo(o, p, j) :: Follows(out, o, j, n)
  }

  // From byte `at` on, the stream spells out from place o on; b of the eight flags are used up.
  ghost predicate Spells(stream: seq<byte>, out: seq<byte>, flags: byte, b: nat, at: nat, o: nat)
    decreases |stream| - at
  {
    if o >= |out| then true
    else if at >= |stream| then false
    else if b >= 8 then Spells(stream, out, stream[at], 0, at + 1, o)
    else if flags as nat / MASKS[b] % 2 == 1 then
      out[o] == stream[at] && Spells(stream, out, flags, b + 1, at + 1, o + 1)
    else
      at + 1 < |stream| &&
      var first, second := stream[at] as nat, stream[at + 1] as nat;
      Copied(out, o, first + 256 * (second / 16), second % 16 + 3)
      && Spells(stream, out, flags, b + 1, at + 2, o + second % 16 + 3)
  }

  predicate HeaderRight(stream: seq<byte>) {
    |stream| >= 14 && stream[..9] == [0x53, 0x5A, 0x44, 0x44, 0x88, 0xF0, 0x27, 0x33, 0x41]
  }

  // ----- one match

  // Byte k of a match at index p, when the byte at place j went to that index.
  lemma {:induction false} MatchYields(out: seq<byte>, p: nat, n: nat, j: int, k: nat)
    requires WentTo(|out|, p, j) && k < n
    ensures var r := ApplyToken(out, Match(p, n)); r[|out| + k] == if j + k < 0 then 0x20 else r[j + k]
  {
    PlaceOf(|out|, p, j);
    CopyRepeats(out, Distance(|out|, p), n);
  }

  lemma {:induction false} PlaceOf(o: nat, p: nat, j: int)
    requires p < 4096
    ensures WentTo(o, p, j) <==> j == o - Distance(o, p)
  {
  }

  // What a copy produces repeats what lies d before, and nothing else does.
  lemma {:induction false} CopyRepeats(out: seq<byte>, d: nat, n: nat)
    requires d >= 1
    ensures Repeats(Copy(out, d, n), |out|, d, n)
    decreases n
  {
    if n > 0 {
      var next := out + [Past(out, |out| - d)];
      var r := Copy(out, d, n);
      CopyRepeats(next, d, n - 1);
      assert r[..|out| + 1] == next;
      assert r[|out|] == next[|out|] && Past(r, |out| - d) == Past(out, |out| - d);
    }
  }

  lemma {:induction false} CopiedRepeats(out: seq<byte>, o: nat, p: nat, n: nat, m: nat)
    requires p < 4096 && o <= |out| && m == (if o + n <= |out| then n else |out| - o)
    ensures Copied(out, o, p, n) <==> Repeats(out, o, Distance(o, p), m)
  {
    var d := Distance(o, p);
    PlaceOf(o, p, o - d);
    FollowsRepeats(out, o, d, n, m);
    forall j: int | WentTo(o, p, j) ensures j == o - d {
      PlaceOf(o, p, j);
    }
  }

  lemma {:induction false} FollowsRepeats(out: seq<byte>, o: nat, d: nat, n: nat, m: nat)
    requires d >= 1 && o <= |out| && m == (if o + n <= |out| then n else |out| - o)
    ensures Follows(out, o, o - d, n) <==> Repeats(out, o, d, m)
  {
    var j := o - d;
    if Follows(out, o, j, n) {
      forall i | o <= i < o + m ensures out[i] == Past(out, i - d) {
        assert SameBehind(out, o, j, i - o);
      }
    }
    if Repeats(out, o, d, m) {
      forall k: nat | k < n && o + k < |out| ensures SameBehind(out, o, j, k) {
        assert out[o + k] == Past(out, o + k - d);
      }
    }
  }

  lemma {:induction false} CopyIsRepeat(out: seq<byte>, o: nat, d: nat, m: nat)
    requires d >= 1 && o + m <= |out|
    ensures Copy(out[..o], d, m) == out[..o + m] <==> Repeats(out, o, d, m)
  {
    if Repeats(out, o, d, m) {
      CopyReproduces(out, o, d, m);
    }
    if Copy(out[..o], d, m) == out[..o + m] {
      CopyRepeats(out[..o], d, m);
      forall i | o <= i < o + m ensures out[i] == Past(out, i - d) {
        assert out[..o + m][i] == Past(out[..o + m], i - d);
      }
    }
  }

  // What the decoder makes of a match is what out has there, exactly when the match says so.
  lemma {:induction false} MatchIsCopied(out: seq<byte>, o: nat, p: nat, n: nat, m: nat)
    requires p < 4096 && o <= |out| && m == (if o + n <= |out| then n else |out| - o)
    ensures Truncated(ApplyToken(out[..o], Match(p, n)), |out|) == out[..o + m] <==> Copied(out, o, p, n)
  {
    CopiedRepeats(out, o, p, n, m);
    CopyIsRepeat(out, o, Distance(o, p), m);
    CopyPrefix(out[..o], Distance(o, p), m, n);
    assert |out[..o]| == o;
  }

  // ----- the whole stream

  // What the decoder gives starts with what it has.
  lemma {:induction false} KeepsOutput(rest: seq<byte>, bits: seq<bool>, out: seq<byte>, expected: nat)
    requires |out| <= expected && ItemsResult(rest, bits, out, expected).Ok?
    ensures out <= ItemsResult(rest, bits, out, expected).value
  {
    var (rest', ts) := ReadItems(rest, bits, |out|, expected).value;
    ApplyExtends(ts, out);
    var more := ReadTokens(rest', |Apply(ts, out)|, expected).value;
    ApplyExtends(more, Apply(ts, out));
  }

  lemma {:induction false} ApplyExtends(ts: seq<Token>, out: seq<byte>)
    ensures out <= Apply(ts, out)
    decreases ts
  {
    if ts != [] {
      var next := ApplyToken(out, ts[0]);
      assert next[..|out|] == out;
      ApplyExtends(ts[1..], next);
    }
  }

  lemma {:induction false} BitSetMask(flags: nat, b: nat)
    requires b < 8
    ensures BitSet(flags, b) <==> flags / MASKS[b] % 2 == 1
  {
    if b > 0 {
      BitSetMask(flags / 2, b - 1);
      HalfMask(flags, b);
    }
  }

  lemma {:induction false} HalfMask(flags: nat, b: nat)
    requires 0 < b < 8
    ensures flags / 2 / MASKS[b - 1] == flags / MASKS[b]
  {
    assert b == 1 || b == 2 || b == 3 || b == 4 || b == 5 || b == 6 || b == 7;
  }

  // The decoder ends with out, being at byte `at` of the stream and place o of the output.
  ghost predicate Gives(stream: seq<byte>, out: seq<byte>, flags: byte, b: nat, at: nat, o: nat)
    requires o <= |out| && at <= |stream| && b <= 8
  {
    ItemsResult(stream[at..], FlagBits(flags)[b..], out[..o], |out|) == Ok(out)
  }

  lemma {:induction false} GivesLiteral(stream: seq<byte>, out: seq<byte>, flags: byte, b: nat, at: nat, o: nat)
    requires o < |out| && at < |stream| && b < 8 && FlagBits(flags)[b]
    ensures Gives(stream, out, flags, b, at, o)
      <==> out[o] == stream[at] && Gives(stream, out, flags, b + 1, at + 1, o + 1)
  {
    var rest, bits := stream[at..], FlagBits(flags)[b..];
    LiteralResult(rest, bits, out[..o], |out|);
    assert rest[1..] == stream[at + 1..] && bits[1..] == FlagBits(flags)[b + 1..];
    OnlyExtended(rest[1..], bits[1..], out[..o] + [stream[at]], out);
    LastByte(out, o, stream[at]);
  }

  lemma {:induction false} LastByte(out: seq<byte>, o: nat, v: byte)
    requires o < |out|
    ensures out[..o] + [v] == out[..o + 1] <==> out[o] == v
  {
    assert (out[..o] + [v])[o] == v && out[..o + 1][o] == out[o];
  }

  // What does not start like out does not become out.
  lemma {:induction false} OnlyExtended(rest: seq<byte>, bits: seq<bool>, next: seq<byte>, out: seq<byte>)
    requires |next| <= |out|
    ensures ItemsResult(rest, bits, next, |out|) == Ok(out) ==> next == out[..|next|]
  {
    if ItemsResult(rest, bits, next, |out|).Ok? {
      KeepsOutput(rest, bits, next, |out|);
    }
  }

  lemma {:induction false} GivesMatch(stream: seq<byte>, out: seq<byte>, flags: byte, b: nat, at: nat, o: nat, m: nat)
    requires o < |out| && at + 1 < |stream| && b < 8 && !FlagBits(flags)[b]
    requires var n := stream[at + 1] as nat % 16 + 3; m == if o + n <= |out| then n else |out| - o
    ensures Gives(stream, out, flags, b, at, o)
      <==> var first, second := stream[at] as nat, stream[at + 1] as nat;
           Copied(out, o, first + 256 * (second / 16), second % 16 + 3)
           && Gives(stream, out, flags, b + 1, at + 2, o + m)
  {
    var rest, bits := stream[at..], FlagBits(flags)[b..];
    MatchResult(rest, bits, out[..o], |out|);
    assert rest[2..] == stream[at + 2..] && bits[1..] == FlagBits(flags)[b + 1..];
    MatchThen(rest[2..], bits[1..], out, o, MatchOf(rest[0], rest[1]), m);
  }

  lemma {:induction false} GivesNothing(stream: seq<byte>, out: seq<byte>, flags: byte, b: nat, at: nat, o: nat)
    requires o < |out| && at <= |stream| && b <= 8
    requires at == |stream| || (at + 1 == |stream| && b < 8 && !FlagBits(flags)[b])
    ensures !Gives(stream, out, flags, b, at, o)
  {
    assert b < 8 ==> FlagBits(flags)[b..][0] == FlagBits(flags)[b];
  }

  lemma {:induction false} GivesGroup(stream: seq<byte>, out: seq<byte>, flags: byte, at: nat, o: nat)
    requires o < |out| && at < |stream|
    ensures Gives(stream, out, flags, 8, at, o) <==> Gives(stream, out, stream[at], 0, at + 1, o)
  {
    var rest := stream[at..];
    assert FlagBits(flags)[8..] == [] && FlagBits(stream[at])[0..] == FlagBits(stream[at]);
    assert ItemsResult(rest, [], out[..o], |out|) == TokensResult(rest, out[..o], |out|);
    GroupResult(rest, out[..o], |out|);
    assert rest[1..] == stream[at + 1..];
  }

  lemma {:induction false} GivesAll(stream: seq<byte>, out: seq<byte>, flags: byte, b: nat, at: nat)
    requires at <= |stream| && b <= 8
    ensures Gives(stream, out, flags, b, at, |out|)
  {
    assert out[..|out|] == out;
  }

  function Length(stream: seq<byte>, at: nat): nat
    requires at + 1 < |stream|
  {
    stream[at + 1] as nat % 16 + 3
  }

  function Earlier(a: nat, b: nat): nat { if a <= b then a else b }

  type Claim = (byte, nat, nat, nat) -> bool

  // One item: the claim says here what spelling says, if it does so behind the item.
  ghost predicate Stepwise(stream: seq<byte>, out: seq<byte>, claim: Claim, flags: byte, b: nat, at: nat, o: nat) {
    o <= |out| && at <= |stream| && b <= 8 ==>
    (claim(flags, b, at, o) <==>
     if o == |out| then true
     else if at == |stream| then false
     else if b == 8 then claim(stream[at], 0, at + 1, o)
     else if flags as nat / MASKS[b] % 2 == 1 then out[o] == stream[at] && claim(flags, b + 1, at + 1, o + 1)
     else
       at + 1 < |stream| && Copied(out, o, stream[at] as nat + 256 * (stream[at + 1] as nat / 16), Length(stream, at))
       && claim(flags, b + 1, at + 2, Earlier(o + Length(stream, at), |out|)))
  }

  lemma {:induction false} SpellsLike(stream: seq<byte>, out: seq<byte>, claim: Claim, flags: byte, b: nat, at: nat,
                                      o: nat)
    requires forall f: byte, c: nat, i: nat, j: nat :: Stepwise(stream, out, claim, f, c, i, j)
    requires o <= |out| && at <= |stream| && b <= 8
    ensures Spells(stream, out, flags, b, at, o) <==> claim(flags, b, at, o)
    decreases |stream| - at
  {
    assert Stepwise(stream, out, claim, flags, b, at, o);
    if o < |out| && at < |stream| {
      if b == 8 {
        SpellsLike(stream, out, claim, stream[at], 0, at + 1, o);
      } else if flags as nat / MASKS[b] % 2 == 1 {
        SpellsLike(stream, out, claim, flags, b + 1, at + 1, o + 1);
      } else if at + 1 < |stream| {
        var n := Length(stream, at);
        SpellsLike(stream, out, claim, flags, b + 1, at + 2, Earlier(o + n, |out|));
        SpelledOut(stream, out, flags, b + 1, at + 2, o, n, Earlier(o + n, |out|) - o);
      }
    }
  }

  lemma {:induction false} GivesStepwise(stream: seq<byte>, out: seq<byte>, claim: Claim, flags: byte, b: nat, at: nat,
                                         o: nat)
    requires o <= |out| && at <= |stream| && b <= 8
    requires forall f: byte, c: nat, i: nat, j: nat | j <= |out| && i <= |stream| && c <= 8 ::
      claim(f, c, i, j) <==> Gives(stream, out, f, c, i, j)
    ensures Stepwise(stream, out, claim, flags, b, at, o)
  {
    if o == |out| {
      GivesAll(stream, out, flags, b, at);
    } else if at == |stream| {
      GivesNothing(stream, out, flags, b, at, o);
    } else if b == 8 {
      GivesGroup(stream, out, flags, at, o);
    } else {
      BitSetMask(flags, b);
      if FlagBits(flags)[b] {
        GivesLiteral(stream, out, flags, b, at, o);
      } else if at + 1 == |stream| {
        GivesNothing(stream, out, flags, b, at, o);
      } else {
        GivesMatch(stream, out, flags, b, at, o, Earlier(o + Length(stream, at), |out|) - o);
      }
    }
  }

  // The decoder ends with out exactly when the stream spells it.
  lemma {:induction false} SpellsExactly(stream: seq<byte>, out: seq<byte>)
    requires |stream| >= 14
    ensures Spells(stream, out, 0, 8, 14, 0) <==> Gives(stream, out, 0, 8, 14, 0)
  {
    var claim: Claim := (f: byte, c: nat, i: nat, j: nat) =>
      j <= |out| && i <= |stream| && c <= 8 && Gives(stream, out, f, c, i, j);
    forall f: byte, c: nat, i: nat, j: nat ensures Stepwise(stream, out, claim, f, c, i, j) {
      if j <= |out| && i <= |stream| && c <= 8 {
        GivesStepwise(stream, out, claim, f, c, i, j);
      }
    }
    SpellsLike(stream, out, claim, 0, 8, 14, 0);
  }

  // It is the same whether a match ends at the end of out or goes beyond it.
  lemma {:induction false} SpelledOut(stream: seq<byte>, out: seq<byte>, flags: byte, b: nat, at: nat, o: nat, n: nat,
                                      m: nat)
    requires o <= |out| && m == (if o + n <= |out| then n else |out| - o)
    ensures Spells(stream, out, flags, b, at, o + n) <==> Spells(stream, out, flags, b, at, o + m)
  {
  }

  lemma {:induction false} MatchThen(rest: seq<byte>, bits: seq<bool>, out: seq<byte>, o: nat, t: Token, m: nat)
    requires o <= |out| && t.Match? && t.position < 4096
    requires m == if o + t.length <= |out| then t.length else |out| - o
    ensures ItemsResult(rest, bits, Truncated(ApplyToken(out[..o], t), |out|), |out|) == Ok(out)
      <==> Copied(out, o, t.position, t.length) && ItemsResult(rest, bits, out[..o + m], |out|) == Ok(out)
  {
    var next := Truncated(ApplyToken(out[..o], t), |out|);
    assert |next| == o + m;
    MatchIsCopied(out, o, t.position, t.length, m);
    OnlyExtended(rest, bits, next, out);
  }

  // The decoder gives `out` and the missing character exactly when the fourteen bytes of the
  // header say so and the bytes behind them spell `out`.
  lemma {:induction false} DecodeExactly(stream: seq<byte>, out: seq<byte>, missing: byte)
    ensures Expand(stream) == Ok((out, missing))
      <==> HeaderRight(stream) && missing == stream[9]
           && |out| == stream[10] as nat + 0x100 * stream[11] as nat + 0x1_0000 * stream[12] as nat
                       + 0x100_0000 * stream[13] as nat
           && Spells(stream, out, 0, 8, 14, 0)
    ensures Expand(stream) == Err(NotSzdd) <==> !HeaderRight(stream)
  {
    HeaderSplit(stream);
    if HeaderRight(stream) {
      ExpandResult(stream);
      if Expand(stream).Ok? {
        ExactLength(stream);
      }
      var expected := FromLe32(stream[10..14]);
      ErrorInside(stream[14..], 0, expected);
      if |out| == expected {
        SpellsExactly(stream, out);
        assert FlagBits(0)[8..] == [] && out[..0] == [];
        assert ItemsResult(stream[14..], [], [], expected) == TokensResult(stream[14..], [], expected);
      }
    }
  }

  lemma {:induction false} HeaderSplit(stream: seq<byte>)
    ensures HeaderRight(stream) <==> |stream| >= 14 && stream[..8] == MAGIC && stream[8] == 0x41
  {
    if |stream| >= 14 {
      assert stream[..9] == stream[..8] + [stream[8]];
    }
  }

  lemma {:induction false} ErrorInside(rest: seq<byte>, n: nat, expected: nat)
    ensures ReadTokens(rest, n, expected) != Err(NotSzdd)
    decreases |rest|
  {
    if n < expected && |rest| > 0 {
      var r := ReadItems(rest[1..], FlagBits(rest[0]), n, expected);
      ErrorInGroup(rest[1..], FlagBits(rest[0]), n, expected);
      if r.Ok? {
        ErrorInside(r.value.0, n + Spans(r.value.1), expected);
      }
    }
  }

  lemma {:induction false} ErrorInGroup(rest: seq<byte>, bits: seq<bool>, n: nat, expected: nat)
    ensures ReadItems(rest, bits, n, expected) != Err(NotSzdd)
    decreases bits
  {
    if bits != [] && n < expected {
      if bits[0] && |rest| > 0 {
        ErrorInGroup(rest[1..], bits[1..], n + 1, expected);
      } else if !bits[0] && |rest| >= 2 {
        ErrorInGroup(rest[2..], bits[1..], n + Span(MatchOf(rest[0], rest[1])), expected);
      }
    }
  }

  // ----- why a stream is refused

  // What is missing, when `expected` bytes are to come from byte `at` on and o are there: a
  // flag byte, the byte of a literal, or one of the two bytes of a match.
  function Missing(stream: seq<byte>, expected: nat, flags: byte, b: nat, at: nat, o: nat): Option<Error>
    decreases |stream| - at
  {
    if o >= expected then None
    else if b >= 8 then
      if at >= |stream| then Some(TruncatedStream) else Missing(stream, expected, stream[at], 0, at + 1, o)
    else if flags as nat / MASKS[b] % 2 == 1 then
      if at >= |stream| then Some(TruncatedLiteral) else Missing(stream, expected, flags, b + 1, at + 1, o + 1)
    else
      if at + 1 >= |stream| then Some(TruncatedMatch)
      else Missing(stream, expected, flags, b + 1, at + 2, o + stream[at + 1] as nat % 16 + 3)
  }

  // What stops the reader.
  function Stop(rest: seq<byte>, bits: seq<bool>, n: nat, expected: nat): Option<Error> {
    match ReadItems(rest, bits, n, expected)
    case Err(e) => Some(e)
    case Ok((rest', ts)) =>
      match ReadTokens(rest', n + Spans(ts), expected)
      case Err(e) => Some(e)
      case Ok(_) => None
  }

  lemma {:induction false} StopLiteral(rest: seq<byte>, bits: seq<bool>, n: nat, expected: nat)
    requires bits != [] && bits[0] && n < expected
    ensures Stop(rest, bits, n, expected)
      == if rest == [] then Some(TruncatedLiteral) else Stop(rest[1..], bits[1..], n + 1, expected)
  {
  }

  lemma {:induction false} StopMatch(rest: seq<byte>, bits: seq<bool>, n: nat, expected: nat)
    requires bits != [] && !bits[0] && n < expected
    ensures Stop(rest, bits, n, expected)
      == if |rest| < 2 then Some(TruncatedMatch)
         else Stop(rest[2..], bits[1..], n + rest[1] as nat % 16 + 3, expected)
  {
  }

  lemma {:induction false} StopGroup(rest: seq<byte>, n: nat, expected: nat)
    requires n < expected
    ensures Stop(rest, [], n, expected)
      == if rest == [] then Some(TruncatedStream) else Stop(rest[1..], FlagBits(rest[0]), n, expected)
  {
    assert ReadItems(rest, [], n, expected) == Ok((rest, []));
  }

  type Ending = (byte, nat, nat, nat) -> Option<Error>

  ghost predicate StopsStepwise(stream: seq<byte>, expected: nat, end: Ending, flags: byte, b: nat, at: nat, o: nat) {
    at <= |stream| && b <= 8 ==>
    end(flags, b, at, o) ==
    if o >= expected then None
    else if b == 8 then
      if at == |stream| then Some(TruncatedStream) else end(stream[at], 0, at + 1, o)
    else if flags as nat / MASKS[b] % 2 == 1 then
      if at == |stream| then Some(TruncatedLiteral) else end(flags, b + 1, at + 1, o + 1)
    else
      if at + 1 >= |stream| then Some(TruncatedMatch) else end(flags, b + 1, at + 2, o + Length(stream, at))
  }

  lemma {:induction false} MissingLike(stream: seq<byte>, expected: nat, end: Ending, flags: byte, b: nat, at: nat,
                                       o: nat)
    requires forall f: byte, c: nat, i: nat, j: nat :: StopsStepwise(stream, expected, end, f, c, i, j)
    requires at <= |stream| && b <= 8
    ensures Missing(stream, expected, flags, b, at, o) == end(flags, b, at, o)
    decreases |stream| - at
  {
    assert StopsStepwise(stream, expected, end, flags, b, at, o);
    if o < expected && at < |stream| {
      if b == 8 {
        MissingLike(stream, expected, end, stream[at], 0, at + 1, o);
      } else if flags as nat / MASKS[b] % 2 == 1 {
        MissingLike(stream, expected, end, flags, b + 1, at + 1, o + 1);
      } else if at + 1 < |stream| {
        MissingLike(stream, expected, end, flags, b + 1, at + 2, o + Length(stream, at));
      }
    }
  }

  lemma {:induction false} StopStepwise(stream: seq<byte>, expected: nat, end: Ending, flags: byte, b: nat, at: nat,
                                        o: nat)
    requires at <= |stream| && b <= 8
    requires forall f: byte, c: nat, i: nat, j: nat | i <= |stream| && c <= 8 ::
      end(f, c, i, j) == Stop(stream[i..], FlagBits(f)[c..], j, expected)
    ensures StopsStepwise(stream, expected, end, flags, b, at, o)
  {
    var rest, bits := stream[at..], FlagBits(flags)[b..];
    if o >= expected {
      assert ReadItems(rest, bits, o, expected) == Ok((rest, []));
    } else if b == 8 {
      StopGroup(rest, o, expected);
      assert bits == [] && (rest != [] ==> rest[1..] == stream[at + 1..]);
      assert rest != [] ==> FlagBits(rest[0])[0..] == FlagBits(rest[0]);
    } else {
      BitSetMask(flags, b);
      assert bits[1..] == FlagBits(flags)[b + 1..];
      assert rest != [] ==> rest[1..] == stream[at + 1..];
      assert |rest| > 1 ==> rest[2..] == stream[at + 2..];
      if bits[0] {
        StopLiteral(rest, bits, o, expected);
      } else {
        StopMatch(rest, bits, o, expected);
      }
    }
  }

  // A stream with the right header is refused exactly when something is missing, and for that.
  lemma {:induction false} RefusedExactly(stream: seq<byte>, e: Error)
    requires HeaderRight(stream)
    ensures Expand(stream) == Err(e)
      <==> Missing(stream, stream[10] as nat + 0x100 * stream[11] as nat + 0x1_0000 * stream[12] as nat
                           + 0x100_0000 * stream[13] as nat, 0, 8, 14, 0) == Some(e)
  {
    HeaderSplit(stream);
    var expected := FromLe32(stream[10..14]);
    var end: Ending := (f: byte, c: nat, i: nat, j: nat) =>
      if i <= |stream| && c <= 8 then Stop(stream[i..], FlagBits(f)[c..], j, expected) else None;
    forall f: byte, c: nat, i: nat, j: nat ensures StopsStepwise(stream, expected, end, f, c, i, j) {
      if i <= |stream| && c <= 8 {
        StopStepwise(stream, expected, end, f, c, i, j);
      }
    }
    MissingLike(stream, expected, end, 0, 8, 14, 0);
    assert FlagBits(0)[8..] == [];
    assert ReadItems(stream[14..], [], 0, expected) == Ok((stream[14..], []));
  }

  // ----- an example

  // A literal "A" and a match of length three at the index it went to.
  lemma {:induction false} FourLetters(stream: seq<byte>)
    requires stream == [0x53, 0x5A, 0x44, 0x44, 0x88, 0xF0, 0x27, 0x33, 0x41, 0x54, 4, 0, 0, 0, 1, 0x41, 0xEE, 0xF0]
    ensures Expand(stream) == Ok(([0x41, 0x41, 0x41, 0x41], 0x54))
  {
    var out: seq<byte> := [0x41, 0x41, 0x41, 0x41];
    assert stream[..9] == [0x53, 0x5A, 0x44, 0x44, 0x88, 0xF0, 0x27, 0x33, 0x41];
    assert Spells(stream, out, 1, 2, 18, 4);
    OneRun(out);
    assert Spells(stream, out, 1, 1, 16, 1);
    assert Spells(stream, out, 1, 0, 15, 0);
    DecodeExactly(stream, out, 0x54);
  }

  lemma {:induction false} OneRun(out: seq<byte>)
    requires out == [0x41, 0x41, 0x41, 0x41]
    ensures Copied(out, 1, 0xFEE, 3)
  {
    forall j: int | WentTo(1, 0xFEE, j) ensures Follows(out, 1, j, 3) {
      assert j == 0;
    }
  }
}
