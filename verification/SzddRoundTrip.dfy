/** Token sequences that describe some data decode to that data, and cut streams to nothing. */
module SzddRoundTrip {
  import opened Bytes
  import opened SzddFormat

  // The n bytes from `at` on are each equal to the byte d places before them.
  predicate Repeats(data: seq<byte>, at: nat, d: nat, n: nat)
    requires at + n <= |data|
  {
    forall j | at <= j < at + n :: data[j] == Past(data, j - d)
  }

  // The token t describes the bytes of data from `at` on.
  predicate Describes(data: seq<byte>, at: nat, t: Token) {
    at < |data| && Valid(t) && at + Span(t) <= |data| &&
    if t.Literal? then data[at] == t.value else Repeats(data, at, Distance(at, t.position), t.length)
  }

  predicate Fits(ts: seq<Token>, data: seq<byte>, at: nat) {
    ts == [] || (Describes(data, at, ts[0]) && Fits(ts[1..], data, at + Span(ts[0])))
  }

  // The tokens describe all of data from `at` on.
  predicate Covers(ts: seq<Token>, data: seq<byte>, at: nat) {
    Fits(ts, data, at) && at + Spans(ts) == |data|
  }

  predicate AllValid(ts: seq<Token>) {
    forall i | 0 <= i < |ts| :: Valid(ts[i])
  }

  lemma {:induction false} FitsValid(ts: seq<Token>, data: seq<byte>, at: nat)
    requires Fits(ts, data, at)
    ensures AllValid(ts)
    decreases ts
  {
    if ts != [] {
      FitsValid(ts[1..], data, at + Span(ts[0]));
      forall i | 0 <= i < |ts| ensures Valid(ts[i]) {
        assert i > 0 ==> ts[i] == ts[1..][i - 1];
      }
    }
  }

  // ----- the output of tokens

  lemma {:induction false} CopyReproduces(data: seq<byte>, at: nat, d: nat, n: nat)
    requires d >= 1 && at + n <= |data| && Repeats(data, at, d, n)
    ensures Copy(data[..at], d, n) == data[..at + n]
    decreases n
  {
    if n > 0 {
      assert data[at] == Past(data, at - d) == Past(data[..at], at - d);
      assert data[..at] + [data[at]] == data[..at + 1];
      CopyReproduces(data, at + 1, d, n - 1);
    }
  }

  lemma {:induction false} TokenApplies(data: seq<byte>, at: nat, t: Token)
    requires Describes(data, at, t)
    ensures ApplyToken(data[..at], t) == data[..at + Span(t)]
  {
    if t.Match? {
      CopyReproduces(data, at, Distance(at, t.position), t.length);
    }
  }

  lemma {:induction false} CoversApplies(ts: seq<Token>, data: seq<byte>, at: nat)
    requires at <= |data| && Covers(ts, data, at)
    ensures Apply(ts, data[..at]) == data
    decreases ts
  {
    if ts != [] {
      TokenApplies(data, at, ts[0]);
      CoversApplies(ts[1..], data, at + Span(ts[0]));
    }
  }

  // ----- writing tokens and reading them back

  lemma {:induction false} MatchBytes(t: Token)
    requires Valid(t) && t.Match?
    ensures MatchOf(TokenBytes(t)[0], TokenBytes(t)[1]) == t
  {
  }

  lemma {:induction false} SpansSplit(ts: seq<Token>, n: nat)
    requires n <= |ts|
    ensures Spans(ts) == Spans(ts[..n]) + Spans(ts[n..])
    decreases n
  {
    if n > 0 {
      SpansSplit(ts[1..], n - 1);
      assert ts[..n][1..] == ts[1..][..n - 1] && ts[n..] == ts[1..][n - 1..];
    } else {
      assert ts[n..] == ts;
    }
  }

  lemma {:induction false} SpansBound(ts: seq<Token>)
    requires AllValid(ts)
    ensures Spans(ts) >= |ts|
  {
    if ts != [] {
      assert forall i | 0 <= i < |ts[1..]| :: ts[1..][i] == ts[i + 1];
      SpansBound(ts[1..]);
    }
  }

  lemma {:induction false} ReadLiteral(v: byte, tail: seq<byte>, bits: seq<bool>, n: nat, expected: nat)
    requires bits != [] && n < expected && bits[0]
    ensures ReadItems([v] + tail, bits, n, expected) == Prepend(Literal(v), ReadItems(tail, bits[1..], n + 1, expected))
  {
    assert ([v] + tail)[1..] == tail;
  }

  lemma {:induction false} ReadMatch(b: seq<byte>, tail: seq<byte>, bits: seq<bool>, n: nat, expected: nat)
    requires bits != [] && n < expected && !bits[0] && |b| == 2
    ensures var t := MatchOf(b[0], b[1]);
            ReadItems(b + tail, bits, n, expected) == Prepend(t, ReadItems(tail, bits[1..], n + Span(t), expected))
  {
    assert (b + tail)[2..] == tail;
  }

  // The first token of a group's remaining bytes.
  lemma {:induction false} ReadOne(t: Token, tail: seq<byte>, bits: seq<bool>, n: nat, expected: nat)
    requires bits != [] && n < expected && Valid(t) && (bits[0] <==> t.Literal?)
    ensures ReadItems(TokenBytes(t) + tail, bits, n, expected)
         == Prepend(t, ReadItems(tail, bits[1..], n + Span(t), expected))
  {
    if t.Literal? {
      ReadLiteral(t.value, tail, bits, n, expected);
    } else {
      MatchBytes(t);
      ReadMatch(TokenBytes(t), tail, bits, n, expected);
    }
  }

  // The bits say which of the tokens are literals; a group short of eight ends the data.
  predicate Flagged(ts: seq<Token>, bits: seq<bool>) {
    |ts| <= |bits| && AllValid(ts) && forall i | 0 <= i < |ts| :: bits[i] == ts[i].Literal?
  }

  lemma {:induction false} FlaggedRest(ts: seq<Token>, bits: seq<bool>)
    requires ts != [] && Flagged(ts, bits)
    ensures Flagged(ts[1..], bits[1..])
  {
  }

  lemma {:induction false} GroupFlagged(ts: seq<Token>)
    requires |ts| <= 8 && AllValid(ts)
    ensures Flagged(ts, FlagBits(GroupFlags(ts)))
  {
    forall i | 0 <= i < |ts| ensures FlagBits(GroupFlags(ts))[i] == ts[i].Literal? {
      FlagsBit(ts, i);
    }
  }

  lemma {:induction false} ReadGroup(ts: seq<Token>, bits: seq<bool>, tail: seq<byte>, n: nat, expected: nat)
    requires Flagged(ts, bits)
    requires n + Spans(ts) <= expected && (|ts| == |bits| || n + Spans(ts) == expected)
    ensures ReadItems(Bodies(ts) + tail, bits, n, expected) == Ok((tail, ts))
    decreases ts
  {
    if ts == [] {
      assert Bodies(ts) + tail == tail;
    } else {
      FlaggedRest(ts, bits);
      ReadGroup(ts[1..], bits[1..], tail, n + Span(ts[0]), expected);
      BodiesTail(ts, tail);
      ReadFirst(ts, Bodies(ts[1..]) + tail, bits, tail, n, expected);
    }
  }

  lemma {:induction false} BodiesTail(ts: seq<Token>, tail: seq<byte>)
    requires ts != []
    ensures Bodies(ts) + tail == TokenBytes(ts[0]) + (Bodies(ts[1..]) + tail)
  {
  }

  lemma {:induction false} ReadFirst(ts: seq<Token>, rest: seq<byte>, bits: seq<bool>, tail: seq<byte>, n: nat,
                                     expected: nat)
    requires ts != [] && Flagged(ts, bits) && n < expected
    requires ReadItems(rest, bits[1..], n + Span(ts[0]), expected) == Ok((tail, ts[1..]))
    ensures ReadItems(TokenBytes(ts[0]) + rest, bits, n, expected) == Ok((tail, ts))
  {
    ReadOne(ts[0], rest, bits, n, expected);
    assert ts == [ts[0]] + ts[1..];
  }

  lemma {:induction false} ReadStep(flags: byte, body: seq<byte>, after: seq<byte>, first: seq<Token>, n: nat,
                                    expected: nat)
    requires n < expected && ReadItems(body, FlagBits(flags), n, expected) == Ok((after, first))
    ensures ReadTokens([flags] + body, n, expected) ==
            match ReadTokens(after, n + Spans(first), expected)
            case Err(e) => Err(e)
            case Ok(more) => Ok(first + more)
  {
    assert ([flags] + body)[1..] == body;
  }

  // A whole group is read back, and reading goes on after it.
  lemma {:induction false} GroupReads(ts: seq<Token>, after: seq<byte>, n: nat, expected: nat)
    requires 0 < |ts| <= 8 && AllValid(ts) && n + Spans(ts) <= expected && (|ts| == 8 || n + Spans(ts) == expected)
    ensures ReadTokens(Group(ts) + after, n, expected) ==
            match ReadTokens(after, n + Spans(ts), expected)
            case Err(e) => Err(e)
            case Ok(more) => Ok(ts + more)
  {
    var flags := GroupFlags(ts);
    SpansBound(ts);
    GroupFlagged(ts);
    ReadGroup(ts, FlagBits(flags), after, n, expected);
    ReadStep(flags, Bodies(ts) + after, after, ts, n, expected);
    assert Group(ts) + after == [flags] + (Bodies(ts) + after);
  }

  lemma {:induction false} GroupThenRest(first: seq<Token>, rest: seq<Token>, after: seq<byte>, n: nat, expected: nat)
    requires 0 < |first| <= 8 && AllValid(first) && n + Spans(first) <= expected
    requires |first| == 8 || n + Spans(first) == expected
    requires ReadTokens(after, n + Spans(first), expected) == Ok(rest)
    ensures ReadTokens(Group(first) + after, n, expected) == Ok(first + rest)
  {
    GroupReads(first, after, n, expected);
  }

  // Only the last group may be short.
  lemma {:induction false} LastGroup(ts: seq<Token>)
    requires ts != [] && AllValid(ts)
    ensures var k := GroupSize(ts);
            0 < k <= 8 && (k == 8 || Spans(ts[..k]) == Spans(ts)) && ts[..k] + ts[k..] == ts &&
            AllValid(ts[..k]) && AllValid(ts[k..]) && Spans(ts) == Spans(ts[..k]) + Spans(ts[k..])
  {
    SpansSplit(ts, GroupSize(ts));
  }

  lemma {:induction false} SerializeTail(ts: seq<Token>, tail: seq<byte>)
    requires ts != []
    ensures Serialize(ts) + tail == Group(ts[..GroupSize(ts)]) + (Serialize(ts[GroupSize(ts)..]) + tail)
  {
  }

  lemma {:induction false} SerializedStep(ts: seq<Token>, tail: seq<byte>, n: nat, expected: nat)
    requires ts != [] && AllValid(ts) && expected == n + Spans(ts)
    requires var k := GroupSize(ts); ReadTokens(Serialize(ts[k..]) + tail, n + Spans(ts[..k]), expected) == Ok(ts[k..])
    ensures ReadTokens(Serialize(ts) + tail, n, expected) == Ok(ts)
  {
    var k := GroupSize(ts);
    LastGroup(ts);
    GroupThenRest(ts[..k], ts[k..], Serialize(ts[k..]) + tail, n, expected);
    SerializeTail(ts, tail);
  }

  // Reading inverts writing, whatever follows.
  lemma {:induction false} ReadSerialized(ts: seq<Token>, tail: seq<byte>, n: nat, expected: nat)
    requires AllValid(ts) && expected == n + Spans(ts)
    ensures ReadTokens(Serialize(ts) + tail, n, expected) == Ok(ts)
    decreases ts
  {
    if ts != [] {
      LastGroup(ts);
      ReadSerialized(ts[GroupSize(ts)..], tail, n + Spans(ts[..GroupSize(ts)]), expected);
      SerializedStep(ts, tail, n, expected);
    }
  }

  // ----- bytes after the end

  lemma {:induction false} ItemsTail(rest: seq<byte>, bits: seq<bool>, n: nat, expected: nat, tail: seq<byte>)
    requires ReadItems(rest, bits, n, expected).Ok?
    ensures var (rest', ts) := ReadItems(rest, bits, n, expected).value;
            ReadItems(rest + tail, bits, n, expected) == Ok((rest' + tail, ts))
    decreases bits
  {
    if bits != [] && n < expected {
      if bits[0] {
        assert (rest + tail)[1..] == rest[1..] + tail;
        ItemsTail(rest[1..], bits[1..], n + 1, expected, tail);
      } else {
        assert (rest + tail)[2..] == rest[2..] + tail;
        ItemsTail(rest[2..], bits[1..], n + Span(MatchOf(rest[0], rest[1])), expected, tail);
      }
    }
  }

  lemma {:induction false} TokensTail(rest: seq<byte>, n: nat, expected: nat, tail: seq<byte>)
    requires ReadTokens(rest, n, expected).Ok?
    ensures ReadTokens(rest + tail, n, expected) == ReadTokens(rest, n, expected)
    decreases |rest|
  {
    if n < expected {
      var bits := FlagBits(rest[0]);
      var (rest', ts) := ReadItems(rest[1..], bits, n, expected).value;
      ItemsTail(rest[1..], bits, n, expected, tail);
      TokensTail(rest', n + Spans(ts), expected, tail);
      assert rest + tail == [rest[0]] + (rest[1..] + tail);
      ReadStep(rest[0], rest[1..] + tail, rest' + tail, ts, n, expected);
    }
  }

  // Whatever follows a complete stream is ignored.
  lemma {:induction false} TrailingBytesIgnored(stream: seq<byte>, tail: seq<byte>)
    requires Expand(stream).Ok?
    ensures Expand(stream + tail) == Expand(stream)
  {
    var s := stream + tail;
    assert s[..8] == stream[..8] && s[10..14] == stream[10..14];
    assert s[14..] == stream[14..] + tail;
    TokensTail(stream[14..], 0, FromLe32(stream[10..14]), tail);
  }

  // ----- exact length

  lemma {:induction false} ReadEnough(rest: seq<byte>, n: nat, expected: nat)
    requires ReadTokens(rest, n, expected).Ok?
    ensures n + Spans(ReadTokens(rest, n, expected).value) >= expected
    decreases |rest|
  {
    if n < expected {
      var (rest', ts) := ReadItems(rest[1..], FlagBits(rest[0]), n, expected).value;
      ReadEnough(rest', n + Spans(ts), expected);
      var more := ReadTokens(rest', n + Spans(ts), expected).value;
      SpansSplit(ts + more, |ts|);
      assert (ts + more)[..|ts|] == ts && (ts + more)[|ts|..] == more;
    }
  }

  // On any bytes at all, decoding fails or gives exactly the announced length.
  lemma {:induction false} ExactLength(stream: seq<byte>)
    requires Expand(stream).Ok?
    ensures |stream| >= 14 && |Expand(stream).value.0| == FromLe32(stream[10..14])
  {
    ReadEnough(stream[14..], 0, FromLe32(stream[10..14]));
  }

  // ----- cut streams

  lemma {:induction false} GroupCut(ts: seq<Token>, bits: seq<bool>, m: nat, n: nat, expected: nat)
    requires Flagged(ts, bits) && n + Spans(ts) <= expected && m < |Bodies(ts)|
    ensures ReadItems(Bodies(ts)[..m], bits, n, expected).Err?
    decreases ts
  {
    var all := Bodies(ts);
    var b, next := TokenBytes(ts[0]), Bodies(ts[1..]);
    if |b| <= m {
      assert all[..m] == b + next[..m - |b|];
      FlaggedRest(ts, bits);
      ReadOne(ts[0], next[..m - |b|], bits, n, expected);
      GroupCut(ts[1..], bits[1..], m - |b|, n + Span(ts[0]), expected);
    }
  }

  lemma {:induction false} TokensCut(ts: seq<Token>, m: nat, n: nat)
    requires AllValid(ts) && m < |Serialize(ts)|
    ensures ReadTokens(Serialize(ts)[..m], n, n + Spans(ts)).Err?
    decreases ts
  {
    var k := GroupSize(ts);
    var size := |Group(ts[..k])|;
    LastGroup(ts);
    if m >= size {
      TokensCut(ts[k..], m - size, n + Spans(ts[..k]));
    }
    CutStep(ts, m, n, n + Spans(ts));
  }

  lemma {:induction false} CutStep(ts: seq<Token>, m: nat, n: nat, expected: nat)
    requires ts != [] && AllValid(ts) && m < |Serialize(ts)| && expected == n + Spans(ts)
    requires var k := GroupSize(ts); var size := |Group(ts[..k])|;
             size <= m < |Serialize(ts)| ==>
               m - size < |Serialize(ts[k..])|
               && ReadTokens(Serialize(ts[k..])[..m - size], n + Spans(ts[..k]), expected).Err?
    ensures ReadTokens(Serialize(ts)[..m], n, expected).Err?
  {
    var k := GroupSize(ts);
    var first, s := ts[..k], Serialize(ts);
    var flags, body := GroupFlags(first), Bodies(first);
    LastGroup(ts);
    SpansBound(first);
    GroupFlagged(first);
    assert s == [flags] + body + Serialize(ts[k..]);
    FrontsOf(flags, body, Serialize(ts[k..]), m);
    if m >= 1 + |body| {
      GroupReads(first, Serialize(ts[k..])[..m - 1 - |body|], n, expected);
    } else if m > 0 {
      CutInGroup(flags, body[..m - 1], first, m - 1, n, expected);
    }
  }

  lemma {:induction false} FrontsOf(flags: byte, body: seq<byte>, rest: seq<byte>, m: nat)
    requires m <= 1 + |body| + |rest|
    ensures var s := [flags] + body + rest;
      if m >= 1 + |body| then s[..m] == [flags] + body + rest[..m - 1 - |body|]
      else if m > 0 then s[..m] == [flags] + body[..m - 1]
      else s[..m] == []
  {
  }

  lemma {:induction false} CutInGroup(flags: byte, body: seq<byte>, ts: seq<Token>, m: nat, n: nat, expected: nat)
    requires Flagged(ts, FlagBits(flags)) && n + Spans(ts) <= expected && m < |Bodies(ts)| && body == Bodies(ts)[..m]
    ensures ReadTokens([flags] + body, n, expected).Err? || n >= expected
  {
    assert ([flags] + body)[1..] == body;
    GroupCut(ts, FlagBits(flags), m, n, expected);
  }

  // ----- size

  lemma {:induction false} BodiesSize(ts: seq<Token>)
    requires AllValid(ts)
    ensures |Bodies(ts)| <= Spans(ts)
  {
    if ts != [] {
      assert forall i | 0 <= i < |ts[1..]| :: ts[1..][i] == ts[i + 1];
      BodiesSize(ts[1..]);
    }
  }

  // At most one byte for each byte of data, and one flag byte for each eight tokens.
  lemma {:induction false} SerializeSize(ts: seq<Token>)
    requires AllValid(ts)
    ensures |Serialize(ts)| <= Spans(ts) + (|ts| + 7) / 8
    decreases ts
  {
    if ts != [] {
      var k := GroupSize(ts);
      SpansSplit(ts, k);
      BodiesSize(ts[..k]);
      SerializeSize(ts[k..]);
    }
  }
}
