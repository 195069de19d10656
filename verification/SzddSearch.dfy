/** Which tokens the encoder chooses, and that they always decode to the input. */
module SzddSearch {
  import opened Bytes
  import opened SzddFormat
  import opened SzddRoundTrip

  const MAX_MATCH: nat := 18
  const MAX_CANDIDATES: nat := 256

  // Sort key of a ring buffer position: 0 for the cursor, which holds the byte written
  // 4096 bytes ago, otherwise how far back the position lies.
  function KeyDistance(key: nat): (d: nat)
    ensures d >= 1 || key == 0
  {
    if key == 0 then WINDOW_SIZE else key
  }

  function RingIndex(cursor: nat, key: nat): (i: nat)
    ensures i < WINDOW_SIZE
  {
    (cursor - key) % WINDOW_SIZE
  }

  lemma {:induction false} KeyIsDistance(n: nat, key: nat)
    requires key < WINDOW_SIZE
    ensures Distance(n, RingIndex(Cursor(n), key)) == KeyDistance(key)
  {
  }

  // How many bytes from `at` on repeat those d before, from the k known to do so.
  function Extent(data: seq<byte>, at: nat, d: nat, k: nat, limit: nat): (n: nat)
    requires k <= limit && at + limit <= |data|
    ensures k <= n <= limit
    decreases limit - k
  {
    if k < limit && data[at + k] == Past(data, at + k - d) then Extent(data, at, d, k + 1, limit) else k
  }

  lemma {:induction false} ExtentRepeats(data: seq<byte>, at: nat, d: nat, k: nat, limit: nat)
    requires k <= limit && at + limit <= |data| && Repeats(data, at, d, k)
    ensures Repeats(data, at, d, Extent(data, at, d, k, limit))
    ensures var n := Extent(data, at, d, k, limit); n == limit || data[at + n] != Past(data, at + n - d)
    decreases limit - k
  {
    if k < limit && data[at + k] == Past(data, at + k - d) {
      ExtentRepeats(data, at, d, k + 1, limit);
    }
  }

  function Limit(data: seq<byte>, at: nat): nat
    requires at <= |data|
  {
    if MAX_MATCH < |data| - at then MAX_MATCH else |data| - at
  }

  function MatchExtent(data: seq<byte>, at: nat, key: nat): nat
    requires at < |data|
  {
    Extent(data, at, KeyDistance(key), 1, Limit(data, at))
  }

  // The keys, in their order, at which the next byte of data is found.
  function Hits(data: seq<byte>, at: nat, keys: seq<nat>): seq<nat>
    requires at < |data|
  {
    if keys == [] then []
    else if Past(data, at - KeyDistance(keys[0])) == data[at] then [keys[0]] + Hits(data, at, keys[1..])
    else Hits(data, at, keys[1..])
  }

  function AllKeys(): (keys: seq<nat>)
    ensures |keys| == WINDOW_SIZE && forall i | 0 <= i < WINDOW_SIZE :: keys[i] == i
  {
    seq(WINDOW_SIZE, i requires 0 <= i => i)
  }

  lemma {:induction false} AllKeysHas(i: nat)
    ensures i in AllKeys() <==> i < WINDOW_SIZE
  {
    assert i < WINDOW_SIZE ==> AllKeys()[i] == i;
  }

  function Candidates(data: seq<byte>, at: nat): (keys: seq<nat>)
    requires at < |data|
    ensures |keys| <= MAX_CANDIDATES
  {
    var all := Hits(data, at, AllKeys());
    if |all| <= MAX_CANDIDATES then all else all[..MAX_CANDIDATES]
  }

  // The longest match among the keys, the first one of that length; the search stops at
  // a match that cannot be beaten.
  function Best(data: seq<byte>, at: nat, keys: seq<nat>, bestKey: nat, bestLength: nat): (nat, nat)
    requires at < |data|
    decreases keys
  {
    if keys == [] then (bestKey, bestLength)
    else
      var n := MatchExtent(data, at, keys[0]);
      if n > bestLength then
        if n == Limit(data, at) then (keys[0], n) else Best(data, at, keys[1..], keys[0], n)
      else Best(data, at, keys[1..], bestKey, bestLength)
  }

  // Nothing among the keys is longer than the best, and nothing before it is as long.
  lemma {:induction false} BestIsLongest(data: seq<byte>, at: nat, keys: seq<nat>, bestKey: nat, bestLength: nat)
    requires at < |data|
    ensures var (key, n) := Best(data, at, keys, bestKey, bestLength);
            (forall i | 0 <= i < |keys| :: MatchExtent(data, at, keys[i]) <= n) && n >= bestLength &&
            if n == bestLength then key == bestKey
            else exists i :: FirstBest(data, at, keys, i, key, n)
    decreases keys
  {
    if keys != [] {
      var m := MatchExtent(data, at, keys[0]);
      var (key, n) := Best(data, at, keys, bestKey, bestLength);
      if m > bestLength && m == Limit(data, at) {
        assert FirstBest(data, at, keys, 0, key, n);
      } else {
        var (k', l') := if m > bestLength then (keys[0], m) else (bestKey, bestLength);
        BestIsLongest(data, at, keys[1..], k', l');
        assert forall i | 1 <= i < |keys| :: keys[i] == keys[1..][i - 1];
        if n > l' {
          var i: nat :| FirstBest(data, at, keys[1..], i, key, n);
          assert keys[i + 1] == keys[1..][i];
          forall j | 0 <= j < i + 1 ensures MatchExtent(data, at, keys[j]) < n {
            assert j > 0 ==> keys[j] == keys[1..][j - 1];
          }
          assert FirstBest(data, at, keys, i + 1, key, n);
        } else if n > bestLength {
          assert FirstBest(data, at, keys, 0, key, n);
        }
      }
    }
  }

  predicate FirstBest(data: seq<byte>, at: nat, keys: seq<nat>, i: nat, key: nat, n: nat)
    requires at < |data|
  {
    i < |keys| && keys[i] == key && MatchExtent(data, at, key) == n &&
    forall j | 0 <= j < i :: MatchExtent(data, at, keys[j]) < n
  }

  lemma {:induction false} HitsMatch(data: seq<byte>, at: nat, keys: seq<nat>, i: nat)
    requires at < |data| && i < |Hits(data, at, keys)|
    ensures var key := Hits(data, at, keys)[i]; key in keys && Past(data, at - KeyDistance(key)) == data[at]
    decreases keys
  {
    if Past(data, at - KeyDistance(keys[0])) == data[at] {
      if i > 0 {
        HitsMatch(data, at, keys[1..], i - 1);
      }
    } else {
      HitsMatch(data, at, keys[1..], i);
    }
  }

  // ----- tokens

  function TokenAt(data: seq<byte>, at: nat): Token
    requires at < |data|
  {
    var (key, n) := Best(data, at, Candidates(data, at), 0, 0);
    if n >= 3 then Match(RingIndex(Cursor(at), key), n) else Literal(data[at])
  }

  lemma {:induction false} TokenDescribes(data: seq<byte>, at: nat)
    requires at < |data|
    ensures Describes(data, at, TokenAt(data, at))
  {
    var keys := Candidates(data, at);
    var (key, n) := Best(data, at, keys, 0, 0);
    if n >= 3 {
      BestIsLongest(data, at, keys, 0, 0);
      var i: nat :| FirstBest(data, at, keys, i, key, n);
      HitsMatch(data, at, AllKeys(), i);
      KeyIsDistance(at, key);
      ExtentRepeats(data, at, KeyDistance(key), 1, Limit(data, at));
    }
  }

  // The tokens for bytes `at` to n, when `choose` picks the token for each place.
  function TokensFrom(choose: nat -> Token, n: nat, at: nat): seq<Token>
    decreases n - at
  {
    if at >= n || Span(choose(at)) == 0 then [] else [choose(at)] + TokensFrom(choose, n, at + Span(choose(at)))
  }

  function Chooser(data: seq<byte>): nat -> Token {
    (at: nat) => if at < |data| then TokenAt(data, at) else Literal(0)
  }

  function Tokenize(data: seq<byte>, at: nat): seq<Token> {
    TokensFrom(Chooser(data), |data|, at)
  }

  lemma {:induction false} TokensCover(choose: nat -> Token, data: seq<byte>, at: nat)
    requires at <= |data| && forall i: nat :: i < |data| ==> Describes(data, i, choose(i))
    ensures Covers(TokensFrom(choose, |data|, at), data, at)
    decreases |data| - at
  {
    if at < |data| {
      assert Describes(data, at, choose(at));
      TokensCover(choose, data, at + Span(choose(at)));
    }
  }

  lemma {:induction false} TokenizeCovers(data: seq<byte>, at: nat)
    requires at <= |data|
    ensures Covers(Tokenize(data, at), data, at)
  {
    forall i: nat | i < |data| ensures Describes(data, i, Chooser(data)(i)) {
      TokenDescribes(data, i);
    }
    TokensCover(Chooser(data), data, at);
  }

  // ----- the whole stream

  function Encoded(data: seq<byte>, missing: int): (r: Result<seq<byte>>) {
    if missing < 0 || missing > 255 then Err(BadMissingCharacter)
    else if |data| >= 0x1_0000_0000 then Err(TooLong)
    else Ok(Header(|data|, missing) + Serialize(Tokenize(data, 0)))
  }

  lemma {:induction false} HeaderFields(n: nat, missing: byte, rest: seq<byte>)
    requires n < 0x1_0000_0000
    ensures var s := Header(n, missing) + rest;
            s[..8] == MAGIC && s[8] == 0x41 && s[9] == missing && FromLe32(s[10..14]) == n && s[14..] == rest
  {
    var s := Header(n, missing) + rest;
    Le32RoundTrip(n);
    assert s[10..14] == Le32(n);
    assert s[14..] == rest;
  }

  lemma {:induction false} ExpandTokens(data: seq<byte>, ts: seq<Token>, missing: byte, tail: seq<byte>)
    requires |data| < 0x1_0000_0000 && Covers(ts, data, 0)
    ensures Expand(Header(|data|, missing) + (Serialize(ts) + tail)) == Ok((data, missing))
  {
    HeaderFields(|data|, missing, Serialize(ts) + tail);
    TokensReadAndApplied(data, ts, tail);
  }

  lemma {:induction false} TokensReadAndApplied(data: seq<byte>, ts: seq<Token>, tail: seq<byte>)
    requires Covers(ts, data, 0)
    ensures ReadTokens(Serialize(ts) + tail, 0, |data|) == Ok(ts) && Apply(ts, []) == data
  {
    FitsValid(ts, data, 0);
    ReadSerialized(ts, tail, 0, Spans(ts));
    assert data[..0] == [];
    CoversApplies(ts, data, 0);
  }

  lemma {:induction false} ExpandStream(data: seq<byte>, missing: byte, tail: seq<byte>)
    requires |data| < 0x1_0000_0000
    ensures Expand(Header(|data|, missing) + (Serialize(Tokenize(data, 0)) + tail)) == Ok((data, missing))
  {
    TokenizeCovers(data, 0);
    ExpandTokens(data, Tokenize(data, 0), missing, tail);
  }

  // Decoding inverts encoding, for every input that can be encoded.
  lemma {:induction false} RoundTrip(data: seq<byte>, missing: int)
    ensures Encoded(data, missing).Ok? <==> 0 <= missing <= 255 && |data| < 0x1_0000_0000
    ensures Encoded(data, missing) == Err(BadMissingCharacter) <==> !(0 <= missing <= 255)
    ensures Encoded(data, missing).Ok? ==> Expand(Encoded(data, missing).value) == Ok((data, missing as byte))
  {
    if Encoded(data, missing).Ok? {
      ExpandStream(data, missing, []);
      assert Serialize(Tokenize(data, 0)) + [] == Serialize(Tokenize(data, 0));
    }
  }

  // No strict prefix of an encoded stream decodes.
  lemma {:induction false} CutStreamRejected(data: seq<byte>, missing: int, m: nat)
    requires Encoded(data, missing).Ok? && m < |Encoded(data, missing).value|
    ensures Expand(Encoded(data, missing).value[..m]).Err?
  {
    var stream, ts := Encoded(data, missing).value, Tokenize(data, 0);
    if m >= 14 {
      TokenizeCovers(data, 0);
      FitsValid(ts, data, 0);
      TokensCut(ts, m - 14, 0);
      HeaderCut(|data|, missing, Serialize(ts), m);
    }
  }

  lemma {:induction false} HeaderCut(n: nat, missing: byte, rest: seq<byte>, m: nat)
    requires n < 0x1_0000_0000 && 14 <= m <= 14 + |rest|
    ensures var cut := (Header(n, missing) + rest)[..m];
            cut[14..] == rest[..m - 14] && FromLe32(cut[10..14]) == n && cut[..8] == MAGIC && cut[8] == 0x41
  {
    var s := Header(n, missing) + rest;
    HeaderFields(n, missing, rest);
    assert s[..m][10..14] == s[10..14] && s[..m][..8] == s[..8];
    assert s[..m][14..] == s[14..][..m - 14];
  }

  // An encoded stream exceeds its input by at most the header and one byte in eight.
  lemma {:induction false} StreamSize(data: seq<byte>, missing: int)
    requires Encoded(data, missing).Ok?
    ensures |Encoded(data, missing).value| <= 14 + |data| + (|data| + 7) / 8
  {
    var ts := Tokenize(data, 0);
    TokenizeCovers(data, 0);
    FitsValid(ts, data, 0);
    SerializeSize(ts);
    SpansBound(ts);
  }
}
