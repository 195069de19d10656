/** The encoder and the decoder as they run: over a ring buffer of 4096 bytes. */
module SzddCodec {
  import opened Bytes
  import opened SzddFormat
  import opened SzddSearch

  // ----- the ring buffer holds the last 4096 bytes of the history

  ghost predicate RingOf(w: seq<byte>, out: seq<byte>) {
    |w| == WINDOW_SIZE &&
    forall key | 0 <= key < WINDOW_SIZE :: w[RingIndex(Cursor(|out|), key)] == Past(out, |out| - KeyDistance(key))
  }

  lemma {:induction false} FreshRing(w: seq<byte>)
    requires |w| == WINDOW_SIZE && forall i | 0 <= i < |w| :: w[i] == 0x20
    ensures RingOf(w, [])
  {
  }

  lemma {:induction false} NextIndex(c: nat, key: nat)
    requires c < WINDOW_SIZE && key < WINDOW_SIZE
    ensures RingIndex((c + 1) % WINDOW_SIZE, key)
      == if key == 0 then RingIndex(c, WINDOW_SIZE - 1) else RingIndex(c, key - 1)
    ensures RingIndex(c, key) == c <==> key == 0
  {
  }

  // Writing at the cursor appends to the history.
  lemma {:induction false} RingWrite(w: seq<byte>, out: seq<byte>, v: byte)
    requires RingOf(w, out)
    ensures RingOf(w[Cursor(|out|) := v], out + [v])
    ensures Cursor(|out| + 1) == (Cursor(|out|) + 1) % WINDOW_SIZE
  {
    var c, out' := Cursor(|out|), out + [v];
    var w' := w[c := v];
    assert Cursor(|out'|) == (c + 1) % WINDOW_SIZE;
    forall key | 0 <= key < WINDOW_SIZE
      ensures w'[RingIndex(Cursor(|out'|), key)] == Past(out', |out'| - KeyDistance(key))
    {
      NextIndex(c, key);
      var back := if key == 0 then WINDOW_SIZE - 1 else key - 1;
      NextIndex(c, back);
      assert w[RingIndex(c, back)] == Past(out, |out| - KeyDistance(back));
    }
  }

  function AllBytes(): (s: seq<byte>)
    ensures |s| == 256 && forall i | 0 <= i < 256 :: s[i] == i
  {
    seq(256, i requires 0 <= i < 256 => i as byte)
  }

  // Every byte value leads to exactly the places where it stands.
  ghost predicate Indexed(positions: map<byte, set<nat>>, w: seq<byte>) {
    (forall v: byte :: v in positions) &&
    forall v: byte, i: nat :: i in positions[v] <==> i < |w| && w[i] == v
  }

  lemma {:induction false} FreshDictionary(w: seq<byte>, positions: map<byte, set<nat>>)
    requires |w| == WINDOW_SIZE && forall i | 0 <= i < |w| :: w[i] == 0x20
    requires positions == map v: byte | v in AllBytes() :: if v == 0x20 then set i: nat | i in AllKeys() else {}
    ensures RingOf(w, []) && Cursor(0) == WINDOW_START && Indexed(positions, w)
  {
    FreshRing(w);
    forall v: byte ensures v in positions {
      assert AllBytes()[v] == v;
    }
    forall v: byte, i: nat ensures i in positions[v] <==> i < |w| && w[i] == v {
      assert AllBytes()[v] == v;
      assert positions[v] == if v == 0x20 then set j: nat | j in AllKeys() else {};
      AllKeysHas(i);
    }
  }

  lemma {:induction false} IndexUpdate(positions: map<byte, set<nat>>, w: seq<byte>, c: nat, v: byte)
    requires Indexed(positions, w) && c < |w|
    ensures var p := positions[w[c] := positions[w[c]] - {c}];
            Indexed(p[v := p[v] + {c}], w[c := v])
  {
    var p := positions[w[c] := positions[w[c]] - {c}];
    var p', w' := p[v := p[v] + {c}], w[c := v];
    assert forall u: byte :: u in positions && u in p && u in p';
    forall u: byte, i: nat ensures i in p'[u] <==> i < |w'| && w'[i] == u {
      IndexUpdated(positions, w, c, v, u, i);
    }
    assert Indexed(p', w');
  }

  lemma {:induction false} IndexUpdated(positions: map<byte, set<nat>>, w: seq<byte>, c: nat, v: byte, u: byte, i: nat)
    requires Indexed(positions, w) && c < |w|
    ensures var p := positions[w[c] := positions[w[c]] - {c}];
            v in p && u in p && (i in p[v := p[v] + {c}][u] <==> i < |w| && w[c := v][i] == u)
  {
    var p := positions[w[c] := positions[w[c]] - {c}];
    assert i in positions[u] <==> i < |w| && w[i] == u;
    assert i in p[u] <==> i in positions[u] && i != c;
  }

  // ----- the encoder's dictionary: the ring buffer and where each byte value stands in it

  class Dictionary {
    const window: array<byte>
    var positions: map<byte, set<nat>>
    var cursor: nat
    ghost var out: seq<byte>

    ghost predicate Valid()
      reads this, window
    {
      RingOf(window[..], out) && cursor == Cursor(|out|) && Indexed(positions, window[..])
    }

    constructor ()
      ensures Valid() && out == [] && fresh(window)
    {
      window := new byte[WINDOW_SIZE](_ => 0x20);
      positions := map v: byte | v in AllBytes() :: if v == 0x20 then set i: nat | i in AllKeys() else {};
      cursor := WINDOW_START;
      out := [];
      new;
      FreshDictionary(window[..], positions);
    }

    method AddOutput(value: byte)
      requires Valid()
      modifies this, window
      ensures Valid() && out == old(out) + [value]
    {
      RingWrite(window[..], out, value);
      ghost var w := window[..];
      IndexUpdate(positions, w, cursor, value);
      positions := positions[window[cursor] := positions[window[cursor]] - {cursor}];
      window[cursor] := value;
      assert window[..] == w[cursor := value];
      positions := positions[value := positions[value] + {cursor}];
      cursor := (cursor + 1) % WINDOW_SIZE;
      out := out + [value];
    }

    // The positions of the next byte of data, nearest first: the library sort by distance.
    method Nearest(data: seq<byte>, source: nat) returns (ordered: seq<nat>, ghost keys: seq<nat>)
      requires Valid() && source < |data| && out == data[..source]
      ensures keys == Hits(data, source, AllKeys()) && Located(ordered, keys)
    {
      var candidates := positions[data[source]];
      var key: nat := WINDOW_SIZE;
      ordered, keys := [], [];
      ghost var all := AllKeys();
      assert all[WINDOW_SIZE..] == [];
      while key > 0
        invariant key <= WINDOW_SIZE && keys == Hits(data, source, all[key..]) && Located(ordered, keys)
      {
        key := key - 1;
        assert all[key..][0] == key && all[key..][1..] == all[key + 1..];
        var candidate := (cursor - key) % WINDOW_SIZE;
        assert candidate == RingIndex(cursor, key);
        assert window[..][candidate] == Past(out, source - KeyDistance(key)) == Past(data, source - KeyDistance(key));
        if candidate in candidates {
          ordered, keys := [candidate] + ordered, [key] + keys;
        }
      }
      assert all[0..] == all;
    }

    method DistanceTo(candidate: nat, ghost key: nat) returns (distance: nat)
      requires cursor < WINDOW_SIZE && key < WINDOW_SIZE && candidate == RingIndex(cursor, key)
      ensures distance == KeyDistance(key)
    {
      distance := (cursor - candidate) % WINDOW_SIZE;
      if distance == 0 {
        distance := WINDOW_SIZE;
      }
    }

    // How far the data repeats what stands at the candidate position.
    method MatchAt(data: seq<byte>, source: nat, candidate: nat, ghost key: nat) returns (length: nat)
      requires Valid() && source < |data| && out == data[..source]
      requires key < WINDOW_SIZE && candidate == RingIndex(cursor, key)
      ensures length == MatchExtent(data, source, key)
    {
      var distance := DistanceTo(candidate, key);
      length := 1;
      var limit := if MAX_MATCH < |data| - source then MAX_MATCH else |data| - source;
      while length < limit
        invariant 1 <= length <= limit
        invariant Extent(data, source, distance, length, limit) == MatchExtent(data, source, key)
      {
        var value := PredictedByte(data, source, candidate, distance, length, key);
        if value != data[source + length] {
          break;
        }
        length := length + 1;
      }
    }

    method PredictedByte(data: seq<byte>, source: nat, candidate: nat, distance: nat, n: nat, ghost key: nat)
      returns (value: byte)
      requires Valid() && source + n < |data| && out == data[..source]
      requires key < WINDOW_SIZE && candidate == RingIndex(cursor, key) && distance == KeyDistance(key) && n > 0
      ensures value == Past(data, source + n - distance)
    {
      Predicted(window[..], data, source, key, n);
      if n >= distance {
        value := data[source + n - distance];
      } else {
        value := window[(candidate + n) % WINDOW_SIZE];
      }
    }

    method FindMatch(data: seq<byte>, source: nat) returns (bestPosition: nat, bestLength: nat)
      requires Valid() && source < |data| && out == data[..source]
      ensures var (key, n) := Best(data, source, Candidates(data, source), 0, 0);
              bestLength == n && (n > 0 ==> bestPosition == RingIndex(cursor, key))
    {
      var ordered;
      ghost var keys;
      ordered, keys := Nearest(data, source);
      if |ordered| > MAX_CANDIDATES {
        ordered, keys := ordered[..MAX_CANDIDATES], keys[..MAX_CANDIDATES];
      }
      assert keys == Candidates(data, source);
      bestPosition, bestLength := Longest(data, source, ordered, keys);
    }

    method Longest(data: seq<byte>, source: nat, ordered: seq<nat>, ghost keys: seq<nat>)
      returns (bestPosition: nat, bestLength: nat)
      requires Valid() && source < |data| && out == data[..source] && Located(ordered, keys)
      ensures var (key, n) := Best(data, source, keys, 0, 0);
              bestLength == n && (n > 0 ==> bestPosition == RingIndex(cursor, key))
    {
      bestPosition, bestLength := 0, 0;
      ghost var bestKey: nat := 0;
      var i := 0;
      var limit := if MAX_MATCH < |data| - source then MAX_MATCH else |data| - source;
      while i < |ordered|
        invariant 0 <= i <= |ordered|
        invariant bestLength > 0 ==> bestPosition == RingIndex(cursor, bestKey)
        invariant Best(data, source, keys[i..], bestKey, bestLength) == Best(data, source, keys, 0, 0)
      {
        var length := MatchAt(data, source, ordered[i], keys[i]);
        BestStep(data, source, keys, i, bestKey, bestLength);
        if length > bestLength {
          bestPosition, bestLength, bestKey := ordered[i], length, keys[i];
          if length == limit {
            break;
          }
        }
        i := i + 1;
      }
    }

    // The positions are those of the keys, seen from the cursor.
    ghost predicate Located(ordered: seq<nat>, keys: seq<nat>)
      reads `cursor
    {
      |ordered| == |keys|
      && forall i | 0 <= i < |keys| :: keys[i] < WINDOW_SIZE && ordered[i] == RingIndex(cursor, keys[i])
    }
  }

  lemma {:induction false} BestStep(data: seq<byte>, source: nat, keys: seq<nat>, i: nat, bestKey: nat, bestLength: nat)
    requires source < |data| && i < |keys|
    ensures var n := MatchExtent(data, source, keys[i]);
            Best(data, source, keys[i..], bestKey, bestLength) ==
            if n <= bestLength then Best(data, source, keys[i + 1..], bestKey, bestLength)
            else if n == Limit(data, source) then (keys[i], n)
            else Best(data, source, keys[i + 1..], keys[i], n)
  {
    assert keys[i..][0] == keys[i] && keys[i..][1..] == keys[i + 1..];
  }

  // Moving forward from a position comes closer to the cursor.
  lemma {:induction false} Ahead(cursor: nat, key: nat, n: nat)
    requires cursor < WINDOW_SIZE && key < WINDOW_SIZE && 0 < n < KeyDistance(key)
    ensures (RingIndex(cursor, key) + n) % WINDOW_SIZE == RingIndex(cursor, KeyDistance(key) - n)
  {
  }

  // What the decoder will find n places after the match position: bytes of the ring
  // buffer at first, and then bytes that the match itself has produced.
  lemma {:induction false} Predicted(w: seq<byte>, data: seq<byte>, source: nat, key: nat, n: nat)
    requires source <= |data| && RingOf(w, data[..source]) && key < WINDOW_SIZE && n > 0
    ensures n < KeyDistance(key) ==>
              w[(RingIndex(Cursor(source), key) + n) % WINDOW_SIZE] == Past(data, source + n - KeyDistance(key))
    ensures n >= KeyDistance(key) && source + n - KeyDistance(key) < |data| ==>
              data[source + n - KeyDistance(key)] == Past(data, source + n - KeyDistance(key))
  {
    if n < KeyDistance(key) {
      Ahead(Cursor(source), key, n);
      var back := KeyDistance(key) - n;
      assert w[RingIndex(Cursor(source), back)] == Past(data[..source], source - KeyDistance(back));
    }
  }

  // ----- encoding

  lemma {:induction false} FlagsSnoc(ts: seq<Token>, t: Token)
    ensures Flags(ts + [t]) == Flags(ts) + (if t.Literal? then Pow2(|ts|) else 0)
  {
    if ts == [] {
      assert ts + [t] == [t];
      assert Flags([t]) == (if t.Literal? then 1 else 0) + 2 * Flags([]);
    } else {
      FlagsSnoc(ts[1..], t);
      assert (ts + [t])[1..] == ts[1..] + [t];
    }
  }

  lemma {:induction false} BodiesSnoc(ts: seq<Token>, t: Token)
    ensures Bodies(ts + [t]) == Bodies(ts) + TokenBytes(t)
  {
    if ts == [] {
      assert ts + [t] == [t] && Bodies([]) == [];
      assert Bodies([t]) == TokenBytes(t) + Bodies([]);
    } else {
      BodiesSnoc(ts[1..], t);
      assert (ts + [t])[1..] == ts[1..] + [t];
    }
  }

  lemma {:induction false} OneMore(all: seq<Token>, ts: seq<Token>, t: Token, rest: seq<Token>)
    requires all == ts + ([t] + rest)
    ensures all == (ts + [t]) + rest
    ensures Flags(ts + [t]) == Flags(ts) + (if t.Literal? then Pow2(|ts|) else 0)
    ensures Bodies(ts + [t]) == Bodies(ts) + TokenBytes(t)
  {
    FlagsSnoc(ts, t);
    BodiesSnoc(ts, t);
  }

  // The next token's bytes and output; says whether it is a literal.
  method EmitToken(d: Dictionary, data: seq<byte>, source: nat)
    returns (bytes: seq<byte>, literal: bool, next: nat, ghost t: Token)
    requires d.Valid() && source < |data| && d.out == data[..source]
    modifies d, d.window
    ensures t == Chooser(data)(source) && bytes == TokenBytes(t) && literal == t.Literal?
    ensures Span(t) > 0 && next == source + Span(t) && next <= |data|
    ensures d.Valid() && d.out == data[..next]
  {
    t := TokenAt(data, source);
    TokenDescribes(data, source);
    var bestPosition, bestLength := d.FindMatch(data, source);
    if bestLength >= 3 {
      bytes := MatchPair(bestPosition, bestLength);
      literal, next := false, source + bestLength;
    } else {
      bytes := [data[source]];
      literal, next := true, source + 1;
    }
    AddAll(d, data, source, next);
  }

  method MatchPair(position: nat, length: nat) returns (bytes: seq<byte>)
    ensures bytes == TokenBytes(Match(position, length))
  {
    bytes := [position % 256, position / 256 % 16 * 16 + (length - 3) % 16];
  }

  method AddAll(d: Dictionary, data: seq<byte>, source: nat, next: nat)
    requires d.Valid() && source <= next <= |data| && d.out == data[..source]
    modifies d, d.window
    ensures d.Valid() && d.out == data[..next]
  {
    var i := source;
    while i < next
      invariant source <= i <= next && d.Valid() && d.out == data[..i]
    {
      d.AddOutput(data[i]);
      i := i + 1;
    }
  }

  method GroupBytes(flags: nat, body: seq<byte>, ghost ts: seq<Token>) returns (group: seq<byte>)
    requires |ts| <= 8 && flags == Flags(ts) && body == Bodies(ts)
    ensures group == Group(ts)
  {
    FlagsBound(ts);
    PowLe256(|ts|);
    group := [flags] + body;
  }

  // The token with number `bit` of a group, its flag and its bytes.
  method AddToken(d: Dictionary, data: seq<byte>, bit: nat, flags: nat, body: seq<byte>, source: nat,
                  ghost choose: nat -> Token, ghost all: seq<Token>, ghost ts: seq<Token>)
    returns (flags': nat, body': seq<byte>, next: nat, ghost t: Token)
    requires d.Valid() && source < |data| && d.out == data[..source] && choose == Chooser(data)
    requires bit == |ts| && flags == Flags(ts) && body == Bodies(ts)
    requires all == ts + TokensFrom(choose, |data|, source)
    modifies d, d.window
    ensures d.Valid() && source < next <= |data| && d.out == data[..next]
    ensures flags' == Flags(ts + [t]) && body' == Bodies(ts + [t])
    ensures all == (ts + [t]) + TokensFrom(choose, |data|, next)
  {
    var bytes, literal;
    bytes, literal, next, t := EmitToken(d, data, source);
    OneMore(all, ts, t, TokensFrom(choose, |data|, next));
    flags' := if literal then flags + Pow2(bit) else flags;
    body' := body + bytes;
  }

  // One flag byte and the tokens that follow it.
  method EmitGroup(d: Dictionary, data: seq<byte>, source: nat, ghost choose: nat -> Token)
    returns (group: seq<byte>, next: nat, ghost ts: seq<Token>)
    requires d.Valid() && source < |data| && d.out == data[..source] && choose == Chooser(data)
    modifies d, d.window
    ensures source < next <= |data| && d.Valid() && d.out == data[..next]
    ensures 0 < |ts| <= 8 && group == Group(ts) && (|ts| == 8 || next == |data|)
    ensures TokensFrom(choose, |data|, source) == ts + TokensFrom(choose, |data|, next)
  {
    var flags, body := 0, [];
    next := source;
    ts := [];
    var bit := 0;
    ghost var all := TokensFrom(choose, |data|, source);
    while bit < 8 && next < |data|
      invariant 0 <= bit == |ts| <= 8 && source <= next <= |data| && (bit > 0 ==> source < next)
      invariant d.Valid() && d.out == data[..next] && flags == Flags(ts) && body == Bodies(ts)
      invariant all == ts + TokensFrom(choose, |data|, next)
    {
      ghost var t;
      flags, body, next, t := AddToken(d, data, bit, flags, body, next, choose, all, ts);
      ts := ts + [t];
      bit := bit + 1;
    }
    group := GroupBytes(flags, body, ts);
  }

  // A group of eight, or the last one, is written on its own.
  lemma {:induction false} FullGroup(ts: seq<Token>, rest: seq<Token>)
    requires 0 < |ts| <= 8 && (|ts| == 8 || rest == [])
    ensures Serialize(ts + rest) == Group(ts) + Serialize(rest)
  {
    assert (ts + rest)[..|ts|] == ts && (ts + rest)[|ts|..] == rest;
  }

  lemma {:induction false} GroupWritten(payload: seq<byte>, whole: seq<byte>, ts: seq<Token>, rest: seq<Token>)
    requires 0 < |ts| <= 8 && (|ts| == 8 || rest == []) && payload + Serialize(ts + rest) == whole
    ensures payload + Group(ts) + Serialize(rest) == whole
  {
    FullGroup(ts, rest);
  }

  method Payload(data: seq<byte>) returns (payload: seq<byte>)
    ensures payload == Serialize(Tokenize(data, 0))
  {
    var d := new Dictionary();
    var source := 0;
    payload := [];
    ghost var choose := Chooser(data);
    ghost var whole := Serialize(TokensFrom(choose, |data|, source));
    while source < |data|
      invariant 0 <= source <= |data| && d.Valid() && d.out == data[..source] && fresh(d) && fresh(d.window)
      invariant payload + Serialize(TokensFrom(choose, |data|, source)) == whole
    {
      var group, next;
      ghost var ts;
      group, next, ts := EmitGroup(d, data, source, choose);
      GroupWritten(payload, whole, ts, TokensFrom(choose, |data|, next));
      payload := payload + group;
      source := next;
    }
    assert payload + [] == payload;
  }

  method Encode(data: seq<byte>, missing: int) returns (r: Result<seq<byte>>)
    ensures r == Encoded(data, missing)
  {
    if !(0 <= missing <= 255) {
      return Err(BadMissingCharacter);
    }
    var payload := Payload(data);
    if |data| >= 0x1_0000_0000 {
      return Err(TooLong);
    }
    r := Ok(Header(|data|, missing) + payload);
  }

  // ----- decoding

  lemma {:induction false} CopyMore(out: seq<byte>, d: nat, n: nat)
    requires d >= 1
    ensures Copy(out, d, n + 1) == Copy(out, d, n) + [Past(Copy(out, d, n), |out| + n - d)]
    decreases n
  {
    if n > 0 {
      CopyMore(out + [Past(out, |out| - d)], d, n - 1);
    }
  }

  lemma {:induction false} CopyOne(out: seq<byte>, d: nat, n: nat, key: nat, out': seq<byte>)
    requires d >= 1 && d == KeyDistance(key) && out' == Copy(out, d, n)
    ensures out' + [Past(out', |out'| - KeyDistance(key))] == Copy(out, d, n + 1)
  {
    CopyMore(out, d, n);
  }

  lemma {:induction false} CopyPrefix(out: seq<byte>, d: nat, m: nat, n: nat)
    requires d >= 1 && m <= n
    ensures Copy(out, d, n)[..|out| + m] == Copy(out, d, m)
    decreases n
  {
    if m < n {
      CopyPrefix(out, d, m, n - 1);
      CopyMore(out, d, n - 1);
    } else {
      assert Copy(out, d, n)[..|out| + m] == Copy(out, d, n);
    }
  }

  function Truncated(out: seq<byte>, expected: nat): seq<byte> {
    if |out| > expected then out[..expected] else out
  }

  // What decoding the rest of a stream gives, once `out` has been produced: inside a group ...
  function ItemsResult(rest: seq<byte>, bits: seq<bool>, out: seq<byte>, expected: nat): Result<seq<byte>> {
    match ReadItems(rest, bits, |out|, expected)
    case Err(e) => Err(e)
    case Ok((rest', ts)) => TokensResult(rest', Apply(ts, out), expected)
  }

  // ... and between groups.
  function TokensResult(rest: seq<byte>, out: seq<byte>, expected: nat): Result<seq<byte>> {
    match ReadTokens(rest, |out|, expected)
    case Err(e) => Err(e)
    case Ok(ts) => Ok(Truncated(Apply(ts, out), expected))
  }

  lemma {:induction false} ApplyJoin(ts: seq<Token>, more: seq<Token>, out: seq<byte>)
    ensures Apply(ts + more, out) == Apply(more, Apply(ts, out))
    decreases ts
  {
    if ts == [] {
      assert ts + more == more;
    } else {
      assert (ts + more)[0] == ts[0] && (ts + more)[1..] == ts[1..] + more;
      ApplyJoin(ts[1..], more, ApplyToken(out, ts[0]));
    }
  }

  lemma {:induction false} GroupResult(rest: seq<byte>, out: seq<byte>, expected: nat)
    requires |rest| > 0 && |out| < expected
    ensures TokensResult(rest, out, expected) == ItemsResult(rest[1..], FlagBits(rest[0]), out, expected)
  {
    var r := ReadItems(rest[1..], FlagBits(rest[0]), |out|, expected);
    if r.Ok? {
      var (rest', ts) := r.value;
      var next := ReadTokens(rest', |out| + Spans(ts), expected);
      JoinedResult(ts, next, out, expected);
    }
  }

  lemma {:induction false} JoinedResult(ts: seq<Token>, next: Result<seq<Token>>, out: seq<byte>, expected: nat)
    ensures |Apply(ts, out)| == |out| + Spans(ts)
    ensures next.Ok? ==>
      Truncated(Apply(ts + next.value, out), expected) == Truncated(Apply(next.value, Apply(ts, out)), expected)
  {
    if next.Ok? {
      ApplyJoin(ts, next.value, out);
    }
  }

  lemma {:induction false} LiteralResult(rest: seq<byte>, bits: seq<bool>, out: seq<byte>, expected: nat)
    requires |rest| > 0 && bits != [] && bits[0] && |out| < expected
    ensures ItemsResult(rest, bits, out, expected) == ItemsResult(rest[1..], bits[1..], out + [rest[0]], expected)
  {
  }

  // The output after a match, cut at the expected length, is all that later steps need.
  lemma {:induction false} MatchResult(rest: seq<byte>, bits: seq<bool>, out: seq<byte>, expected: nat)
    requires |rest| >= 2 && bits != [] && !bits[0] && |out| < expected
    ensures var full := ApplyToken(out, MatchOf(rest[0], rest[1]));
            ItemsResult(rest, bits, out, expected)
              == ItemsResult(rest[2..], bits[1..], Truncated(full, expected), expected)
  {
    var t := MatchOf(rest[0], rest[1]);
    var full := ApplyToken(out, t);
    assert ItemsResult(rest, bits, out, expected) == ItemsResult(rest[2..], bits[1..], full, expected);
    if |full| >= expected {
      assert ReadItems(rest[2..], bits[1..], |full|, expected) == Ok((rest[2..], []));
    }
  }

  lemma {:induction false} ExpandResult(stream: seq<byte>)
    requires |stream| >= 14 && stream[..8] == MAGIC && stream[8] == 0x41
    ensures Expand(stream) ==
            match TokensResult(stream[14..], [], FromLe32(stream[10..14]))
            case Err(e) => Err(e)
            case Ok(out) => Ok((out, stream[9]))
  {
  }

  method PutByte(window: array<byte>, cursor: nat, output: seq<byte>, value: byte)
    returns (cursor': nat, output': seq<byte>)
    requires window.Length == WINDOW_SIZE && RingOf(window[..], output) && cursor == Cursor(|output|)
    modifies window
    ensures output' == output + [value]
    ensures RingOf(window[..], output') && cursor' == Cursor(|output'|) && cursor' == (cursor + 1) % WINDOW_SIZE
  {
    RingWrite(window[..], output, value);
    ghost var w := window[..];
    window[cursor] := value;
    assert window[..] == w[cursor := value];
    output' := output + [value];
    cursor' := (cursor + 1) % WINDOW_SIZE;
  }

  // Copies a match through the ring buffer, reading what it has just written if it must.
  method CopyThrough(window: array<byte>, cursor: nat, position: nat, length: nat, output: seq<byte>, expected: nat)
    returns (cursor': nat, output': seq<byte>)
    requires window.Length == WINDOW_SIZE && RingOf(window[..], output) && cursor == Cursor(|output|)
    requires position < WINDOW_SIZE && length > 0 && |output| < expected
    modifies window
    ensures output' == Truncated(Copy(output, Distance(|output|, position), length), expected)
    ensures RingOf(window[..], output') && cursor' == Cursor(|output'|)
  {
    ghost var d := Distance(|output|, position);
    ghost var key := if d == WINDOW_SIZE then 0 else d;
    var from := position;
    cursor', output' := cursor, output;
    KeyOfDistance(|output|, position);
    var i := 0;
    while i < length && |output'| < expected
      invariant 0 <= i <= length && output' == Copy(output, d, i) && |output'| <= expected
      invariant RingOf(window[..], output') && cursor' == Cursor(|output'|) && from == RingIndex(cursor', key)
    {
      CopyOne(output, d, i, key, output');
      cursor', from, output' := CopyByte(window, cursor', from, output', key);
      i := i + 1;
    }
    CopyCut(output, d, i, length, expected);
  }

  // A copy that stops at the expected length is the whole copy, cut there.
  lemma {:induction false} CopyCut(out: seq<byte>, d: nat, i: nat, length: nat, expected: nat)
    requires d >= 1 && i <= length && |Copy(out, d, i)| <= expected
    requires i == length || |Copy(out, d, i)| == expected
    ensures Copy(out, d, i) == Truncated(Copy(out, d, length), expected)
  {
    CopyPrefix(out, d, i, length);
  }

  method CopyByte(window: array<byte>, cursor: nat, from: nat, output: seq<byte>, ghost key: nat)
    returns (cursor': nat, from': nat, output': seq<byte>)
    requires window.Length == WINDOW_SIZE && RingOf(window[..], output) && cursor == Cursor(|output|)
    requires key < WINDOW_SIZE && from == RingIndex(cursor, key)
    modifies window
    ensures output' == output + [Past(output, |output| - KeyDistance(key))]
    ensures RingOf(window[..], output') && cursor' == Cursor(|output'|) && from' == RingIndex(cursor', key)
  {
    var value := window[from];
    ReadBack(window[..], output, key);
    BothAdvance(cursor, key);
    cursor', output' := PutByte(window, cursor, output, value);
    from' := (from + 1) % WINDOW_SIZE;
  }

  lemma {:induction false} KeyOfDistance(n: nat, position: nat)
    requires position < WINDOW_SIZE
    ensures var d := Distance(n, position); var key := if d == WINDOW_SIZE then 0 else d;
            key < WINDOW_SIZE && position == RingIndex(Cursor(n), key) && KeyDistance(key) == d
  {
  }

  lemma {:induction false} ReadBack(w: seq<byte>, out: seq<byte>, key: nat)
    requires RingOf(w, out) && key < WINDOW_SIZE
    ensures w[RingIndex(Cursor(|out|), key)] == Past(out, |out| - KeyDistance(key))
  {
  }

  lemma {:induction false} BothAdvance(cursor: nat, key: nat)
    requires cursor < WINDOW_SIZE && key < WINDOW_SIZE
    ensures (RingIndex(cursor, key) + 1) % WINDOW_SIZE == RingIndex((cursor + 1) % WINDOW_SIZE, key)
  {
  }

  method Decode(stream: seq<byte>) returns (r: Result<(seq<byte>, byte)>)
    ensures r == Expand(stream)
  {
    if |stream| < 14 || stream[..8] != MAGIC || stream[8] != 0x41 {
      return Err(NotSzdd);
    }
    var missing := stream[9];
    var expected := FromLe32(stream[10..14]);
    var window := new byte[WINDOW_SIZE](_ => 0x20);
    var cursor, source := WINDOW_START, 14;
    var output := [];
    ghost var goal := TokensResult(stream[14..], [], expected);
    FreshRing(window[..]);
    ExpandResult(stream);
    while |output| < expected
      invariant 14 <= source <= |stream| && |output| <= expected
      invariant RingOf(window[..], output) && cursor == Cursor(|output|)
      invariant TokensResult(stream[source..], output, expected) == goal
      decreases |stream| - source
    {
      if source >= |stream| {
        return Err(TruncatedStream);
      }
      var flags := stream[source];
      GroupResult(stream[source..], output, expected);
      assert stream[source..][1..] == stream[source + 1..];
      var e;
      e, source, cursor, output := DecodeGroup(stream, source + 1, flags, window, cursor, output, expected);
      if e.Err? {
        return Err(e.error);
      }
    }
    r := Ok((output, missing));
  }

  method DecodeGroup(stream: seq<byte>, start: nat, flags: byte, window: array<byte>, cursor: nat, output: seq<byte>,
                     expected: nat)
    returns (e: Result<()>, source: nat, cursor': nat, output': seq<byte>)
    requires start <= |stream| && |output| < expected
    requires window.Length == WINDOW_SIZE && RingOf(window[..], output) && cursor == Cursor(|output|)
    modifies window
    ensures e.Err? ==> ItemsResult(stream[start..], FlagBits(flags), output, expected) == Err(e.error)
    ensures e.Ok? ==> start <= source <= |stream| && |output'| <= expected
    ensures e.Ok? ==> RingOf(window[..], output') && cursor' == Cursor(|output'|)
    ensures e.Ok? ==>
              TokensResult(stream[source..], output', expected)
                == ItemsResult(stream[start..], FlagBits(flags), output, expected)
  {
    ghost var bits := FlagBits(flags);
    ghost var goal := ItemsResult(stream[start..], bits, output, expected);
    source, cursor', output' := start, cursor, output;
    var bit := 0;
    assert bits[0..] == bits;
    while bit < 8 && |output'| < expected
      invariant 0 <= bit <= 8 && start <= source <= |stream| && |output'| <= expected
      invariant RingOf(window[..], output') && cursor' == Cursor(|output'|)
      invariant ItemsResult(stream[source..], bits[bit..], output', expected) == goal
    {
      assert bits[bit..][0] == BitSet(flags, bit) && bits[bit..][1..] == bits[bit + 1..];
      if BitSet(flags, bit) {
        e, source, cursor', output' := LiteralStep(stream, source, window, cursor', output', expected, bits[bit..]);
      } else {
        e, source, cursor', output' := MatchStep(stream, source, window, cursor', output', expected, bits[bit..]);
      }
      if e.Err? {
        return;
      }
      bit := bit + 1;
    }
    e := Ok(());
  }

  method LiteralStep(stream: seq<byte>, start: nat, window: array<byte>, cursor: nat, output: seq<byte>, expected: nat,
                     ghost bits: seq<bool>)
    returns (e: Result<()>, source: nat, cursor': nat, output': seq<byte>)
    requires start <= |stream| && |output| < expected && bits != [] && bits[0]
    requires window.Length == WINDOW_SIZE && RingOf(window[..], output) && cursor == Cursor(|output|)
    modifies window
    ensures e.Err? ==> ItemsResult(stream[start..], bits, output, expected) == Err(e.error)
    ensures e.Ok? ==> start <= source <= |stream| && |output'| <= expected
    ensures e.Ok? ==> RingOf(window[..], output') && cursor' == Cursor(|output'|)
    ensures e.Ok? ==>
      ItemsResult(stream[source..], bits[1..], output', expected)
      == ItemsResult(stream[start..], bits, output, expected)
  {
    source, cursor', output' := start, cursor, output;
    if source >= |stream| {
      return Err(TruncatedLiteral), source, cursor', output';
    }
    LiteralResult(stream[start..], bits, output, expected);
    assert stream[start..][1..] == stream[start + 1..];
    cursor', output' := PutByte(window, cursor, output, stream[source]);
    source := source + 1;
    e := Ok(());
  }

  method MatchStep(stream: seq<byte>, start: nat, window: array<byte>, cursor: nat, output: seq<byte>, expected: nat,
                   ghost bits: seq<bool>)
    returns (e: Result<()>, source: nat, cursor': nat, output': seq<byte>)
    requires start <= |stream| && |output| < expected && bits != [] && !bits[0]
    requires window.Length == WINDOW_SIZE && RingOf(window[..], output) && cursor == Cursor(|output|)
    modifies window
    ensures e.Err? ==> ItemsResult(stream[start..], bits, output, expected) == Err(e.error)
    ensures e.Ok? ==> start <= source <= |stream| && |output'| <= expected
    ensures e.Ok? ==> RingOf(window[..], output') && cursor' == Cursor(|output'|)
    ensures e.Ok? ==>
      ItemsResult(stream[source..], bits[1..], output', expected)
      == ItemsResult(stream[start..], bits, output, expected)
  {
    source, cursor', output' := start, cursor, output;
    if source + 2 > |stream| {
      return Err(TruncatedMatch), source, cursor', output';
    }
    MatchAt(stream, start, bits, output, expected);
    cursor', output' := DecodeMatch(stream[source], stream[source + 1], window, cursor, output, expected);
    source := source + 2;
    e := Ok(());
  }

  lemma {:induction false} MatchAt(stream: seq<byte>, start: nat, bits: seq<bool>, output: seq<byte>, expected: nat)
    requires start + 2 <= |stream| && |output| < expected && bits != [] && !bits[0]
    ensures var full := ApplyToken(output, MatchOf(stream[start], stream[start + 1]));
      ItemsResult(stream[start..], bits, output, expected)
      == ItemsResult(stream[start + 2..], bits[1..], Truncated(full, expected), expected)
  {
    MatchResult(stream[start..], bits, output, expected);
    assert stream[start..][2..] == stream[start + 2..];
  }

  method DecodeMatch(first: byte, second: byte, window: array<byte>, cursor: nat, output: seq<byte>, expected: nat)
    returns (cursor': nat, output': seq<byte>)
    requires window.Length == WINDOW_SIZE && RingOf(window[..], output) && cursor == Cursor(|output|)
    requires |output| < expected
    modifies window
    ensures output' == Truncated(ApplyToken(output, MatchOf(first, second)), expected)
    ensures RingOf(window[..], output') && cursor' == Cursor(|output'|)
  {
    var t := MatchOf(first, second);
    cursor', output' := CopyThrough(window, cursor, t.position, t.length, output, expected);
  }
}
