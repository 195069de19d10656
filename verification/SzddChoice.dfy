/**
  Which tokens an encoded stream holds, told from the data alone: at every place the longest
  repetition among the first 256 distances at which the next byte recurs.
 */
module SzddChoice {
  import opened Bytes
  import opened SzddFormat
  import opened SzddRoundTrip
  import opened SzddSearch

  // ----- the choice

  // The n bytes from `at` on are there, and each is equal to the byte d places before it.
  predicate Repeated(data: seq<byte>, at: nat, d: nat, n: nat) {
    at + n <= |data| && Repeats(data, at, d, n)
  }

  // The distances at which the next byte recurs.
  function Recurring(data: seq<byte>, at: nat): set<nat> {
    set d: nat | 1 <= d <= 4096 && Repeated(data, at, d, 1)
  }

  // Those that are tried before d: the distance 4096 comes first, then 1, 2 and so on.
  function TriedBefore(data: seq<byte>, at: nat, d: nat): set<nat> {
    set e: nat | e in Recurring(data, at) && e % 4096 < d % 4096
  }

  predicate Tried(data: seq<byte>, at: nat, d: nat) {
    d in Recurring(data, at) && |TriedBefore(data, at, d)| < 256
  }

  // A literal when nothing tried repeats three bytes; otherwise the first match among the
  // longest ones of at most eighteen.
  ghost predicate Chosen(data: seq<byte>, at: nat, t: Token) {
    at < |data| &&
    match t
    case Literal(v) => v == data[at] && forall d: nat | Tried(data, at, d) :: !Repeated(data, at, d, 3)
    case Match(p, n) => 3 <= n <= 18 && exists d: nat :: FirstLongest(data, at, d, n) && p == (0xFEE + at - d) % 4096
  }

  ghost predicate FirstLongest(data: seq<byte>, at: nat, d: nat, n: nat) {
    Tried(data, at, d) && Repeated(data, at, d, n)
    && (forall e: nat, m: nat | Tried(data, at, e) && n < m <= 18 :: !Repeated(data, at, e, m))
    && (forall e: nat | Tried(data, at, e) && e % 4096 < d % 4096 :: !Repeated(data, at, e, n))
  }

  lemma {:induction false} RepeatedLess(data: seq<byte>, at: nat, d: nat, m: nat, n: nat)
    requires m <= n && Repeated(data, at, d, n)
    ensures Repeated(data, at, d, m)
  {
  }

  // The choice leaves nothing open.
  lemma {:induction false} ChosenUnique(data: seq<byte>, at: nat, t: Token, u: Token)
    requires Chosen(data, at, t) && Chosen(data, at, u)
    ensures t == u
  {
    if t.Match? && u.Match? {
      var d: nat :| FirstLongest(data, at, d, t.length) && t.position == (0xFEE + at - d) % 4096;
      var e: nat :| FirstLongest(data, at, e, u.length) && u.position == (0xFEE + at - e) % 4096;
      assert !(t.length < u.length) && !(u.length < t.length);
      assert d % 4096 == e % 4096;
      SameDistance(d, e);
    } else if t.Match? {
      var d: nat :| FirstLongest(data, at, d, t.length) && t.position == (0xFEE + at - d) % 4096;
      RepeatedLess(data, at, d, 3, t.length);
    } else if u.Match? {
      var e: nat :| FirstLongest(data, at, e, u.length) && u.position == (0xFEE + at - e) % 4096;
      RepeatedLess(data, at, e, 3, u.length);
    }
  }

  lemma {:induction false} SameDistance(d: nat, e: nat)
    requires 1 <= d <= 4096 && 1 <= e <= 4096 && d % 4096 == e % 4096
    ensures d == e
  {
  }

  // ----- the encoder's candidates are the distances tried

  predicate Ascending(s: seq<nat>) {
    forall i, j | 0 <= i < j < |s| :: s[i] < s[j]
  }

  // Those of the keys at which the next byte is found, in the order of the keys.
  lemma {:induction false} HitsAre(data: seq<byte>, at: nat, keys: seq<nat>)
    requires at < |data| && Ascending(keys)
    ensures Ascending(Hits(data, at, keys))
    ensures forall k: nat :: k in Hits(data, at, keys) <==> k in keys && Past(data, at - KeyDistance(k)) == data[at]
    decreases keys
  {
    if keys != [] {
      var first, rest := keys[0], keys[1..];
      assert keys == [first] + rest;
      HitsAre(data, at, rest);
      var later := Hits(data, at, rest);
      forall i | 0 <= i < |later| ensures first < later[i] {
        assert later[i] in rest;
      }
    }
  }

  lemma {:induction false} KeyOf(d: nat, k: nat)
    requires 1 <= d <= 4096 && k < 4096
    ensures KeyDistance(k) == d <==> k == d % 4096
  {
  }

  lemma {:induction false} RecursAt(data: seq<byte>, at: nat, d: nat)
    requires at < |data|
    ensures Repeated(data, at, d, 1) <==> Past(data, at - d) == data[at]
  {
  }

  lemma {:induction false} RecurringHits(data: seq<byte>, at: nat, d: nat)
    requires at < |data| && 1 <= d <= 4096
    ensures d in Recurring(data, at) <==> d % 4096 in Hits(data, at, AllKeys())
  {
    HitsAre(data, at, AllKeys());
    AllKeysHas(d % 4096);
    KeyOf(d, d % 4096);
    RecursAt(data, at, d);
  }

  // The distances of the first i keys.
  function Distances(keys: seq<nat>, i: nat): (s: set<nat>)
    requires i <= |keys|
  {
    if i == 0 then {} else Distances(keys, i - 1) + {KeyDistance(keys[i - 1])}
  }

  lemma {:induction false} InDistances(keys: seq<nat>, i: nat, d: nat)
    requires i <= |keys| && forall j | 0 <= j < |keys| :: keys[j] < 4096
    ensures d in Distances(keys, i) <==> 1 <= d <= 4096 && exists j | 0 <= j < i :: keys[j] == d % 4096
  {
    if i > 0 {
      InDistances(keys, i - 1, d);
      if 1 <= d <= 4096 {
        KeyOf(d, keys[i - 1]);
      }
    }
  }

  lemma {:induction false} DistancesSize(keys: seq<nat>, i: nat)
    requires i <= |keys| && Ascending(keys) && forall j | 0 <= j < |keys| :: keys[j] < 4096
    ensures |Distances(keys, i)| == i
  {
    if i > 0 {
      DistancesSize(keys, i - 1);
      var last := KeyDistance(keys[i - 1]);
      KeyOf(last, keys[i - 1]);
      InDistances(keys, i - 1, last);
    }
  }

  lemma {:induction false} HitsBelow(data: seq<byte>, at: nat)
    requires at < |data|
    ensures var all := Hits(data, at, AllKeys()); Ascending(all) && forall j | 0 <= j < |all| :: all[j] < 4096
  {
    var all := Hits(data, at, AllKeys());
    HitsAre(data, at, AllKeys());
    forall j | 0 <= j < |all| ensures all[j] < 4096 {
      assert all[j] in AllKeys();
      AllKeysHas(all[j]);
    }
  }

  // As many are tried before a distance as there are hits before its key.
  lemma {:induction false} Rank(data: seq<byte>, at: nat, d: nat, i: nat)
    requires at < |data| && 1 <= d <= 4096 && i < |Hits(data, at, AllKeys())|
    requires Hits(data, at, AllKeys())[i] == d % 4096
    ensures |TriedBefore(data, at, d)| == i
  {
    var all := Hits(data, at, AllKeys());
    HitsBelow(data, at);
    DistancesSize(all, i);
    forall e: nat ensures e in TriedBefore(data, at, d) <==> e in Distances(all, i) {
      InDistances(all, i, e);
      if 1 <= e <= 4096 {
        RecurringHits(data, at, e);
        if e % 4096 in all {
          var j: nat :| j < |all| && all[j] == e % 4096;
          assert all[j] < all[i] <==> j < i;
        }
      }
    }
    assert TriedBefore(data, at, d) == Distances(all, i);
  }

  lemma {:induction false} TriedCandidate(data: seq<byte>, at: nat, d: nat)
    requires at < |data| && Tried(data, at, d)
    ensures d % 4096 in Candidates(data, at)
  {
    var all := Hits(data, at, AllKeys());
    RecurringHits(data, at, d);
    var i: nat :| i < |all| && all[i] == d % 4096;
    Rank(data, at, d, i);
    assert i < |Candidates(data, at)| && Candidates(data, at)[i] == all[i];
  }

  lemma {:induction false} CandidateTried(data: seq<byte>, at: nat, i: nat)
    requires at < |data| && i < |Candidates(data, at)|
    ensures var key := Candidates(data, at)[i]; key < 4096 && KeyDistance(key) % 4096 == key
    ensures Tried(data, at, KeyDistance(Candidates(data, at)[i]))
  {
    var all := Hits(data, at, AllKeys());
    var d := KeyDistance(all[i]);
    assert Candidates(data, at)[i] == all[i];
    HitsBelow(data, at);
    KeyOf(d, all[i]);
    RecurringHits(data, at, d);
    Rank(data, at, d, i);
  }

  // ----- the encoder's matches are the longest

  lemma {:induction false} ExtentExactly(data: seq<byte>, at: nat, key: nat, m: nat)
    requires at < |data| && Repeated(data, at, KeyDistance(key), 1) && m <= 18
    ensures Repeated(data, at, KeyDistance(key), m) <==> m <= MatchExtent(data, at, key)
    ensures MatchExtent(data, at, key) <= 18
  {
    var d, n := KeyDistance(key), MatchExtent(data, at, key);
    ExtentRepeats(data, at, d, 1, Limit(data, at));
    if m <= n {
      RepeatedLess(data, at, d, m, n);
    }
  }

  // No distance tried repeats more than the best.
  lemma {:induction false} NoneLonger(data: seq<byte>, at: nat, e: nat, m: nat)
    requires at < |data| && Tried(data, at, e) && m <= 18
    requires m > Best(data, at, Candidates(data, at), 0, 0).1
    ensures !Repeated(data, at, e, m)
  {
    var keys := Candidates(data, at);
    TriedCandidate(data, at, e);
    BestIsLongest(data, at, keys, 0, 0);
    var i: nat :| i < |keys| && keys[i] == e % 4096;
    KeyOf(e, keys[i]);
    ExtentExactly(data, at, keys[i], m);
  }

  lemma {:induction false} NoneEarlier(data: seq<byte>, at: nat, i: nat, key: nat, n: nat, e: nat)
    requires at < |data| && FirstBest(data, at, Candidates(data, at), i, key, n) && n <= 18
    requires Tried(data, at, e) && e % 4096 < key
    ensures !Repeated(data, at, e, n)
  {
    var keys, all := Candidates(data, at), Hits(data, at, AllKeys());
    TriedCandidate(data, at, e);
    HitsBelow(data, at);
    var j: nat :| j < |keys| && keys[j] == e % 4096;
    assert all[j] == keys[j] && all[i] == key;
    assert j < i;
    KeyOf(e, keys[j]);
    ExtentExactly(data, at, keys[j], n);
  }

  lemma {:induction false} TokenChosen(data: seq<byte>, at: nat)
    requires at < |data|
    ensures Chosen(data, at, TokenAt(data, at))
  {
    var keys := Candidates(data, at);
    var (key, n) := Best(data, at, keys, 0, 0);
    if n >= 3 {
      BestIsLongest(data, at, keys, 0, 0);
      var i: nat :| FirstBest(data, at, keys, i, key, n);
      MatchChosen(data, at, i, key, n);
    } else {
      forall d: nat | Tried(data, at, d) ensures !Repeated(data, at, d, 3) {
        NoneLonger(data, at, d, 3);
      }
    }
  }

  lemma {:induction false} MatchChosen(data: seq<byte>, at: nat, i: nat, key: nat, n: nat)
    requires at < |data| && (key, n) == Best(data, at, Candidates(data, at), 0, 0) && n >= 3
    requires FirstBest(data, at, Candidates(data, at), i, key, n)
    ensures Chosen(data, at, Match(RingIndex(Cursor(at), key), n))
  {
    var d := KeyDistance(key);
    CandidateTried(data, at, i);
    ExtentExactly(data, at, key, n);
    forall e: nat, m: nat | Tried(data, at, e) && n < m <= 18 ensures !Repeated(data, at, e, m) {
      NoneLonger(data, at, e, m);
    }
    forall e: nat | Tried(data, at, e) && e % 4096 < d % 4096 ensures !Repeated(data, at, e, n) {
      NoneEarlier(data, at, i, key, n, e);
    }
    assert FirstLongest(data, at, d, n);
    IndexOf(at, key);
  }

  lemma {:induction false} IndexOf(at: nat, key: nat)
    requires key < 4096
    ensures RingIndex(Cursor(at), key) == (0xFEE + at - KeyDistance(key)) % 4096
  {
  }

  // ----- the stream

  // The tokens from `at` on are those chosen, and they end where the data ends.
  ghost predicate AllChosen(data: seq<byte>, ts: seq<Token>, at: nat) {
    if ts == [] then at == |data|
    else Chosen(data, at, ts[0]) && AllChosen(data, ts[1..], at + Span(ts[0]))
  }

  lemma {:induction false} AllChosenUnique(data: seq<byte>, ts: seq<Token>, us: seq<Token>, at: nat)
    requires AllChosen(data, ts, at) && AllChosen(data, us, at)
    ensures ts == us
    decreases ts
  {
    if ts != [] && us != [] {
      ChosenUnique(data, at, ts[0], us[0]);
      AllChosenUnique(data, ts[1..], us[1..], at + Span(ts[0]));
      assert ts == [ts[0]] + ts[1..] && us == [us[0]] + us[1..];
    }
  }

  lemma {:induction false} TokensChosen(data: seq<byte>, choose: nat -> Token, at: nat)
    requires at <= |data| && forall i: nat :: i < |data| ==> Describes(data, i, choose(i)) && Chosen(data, i, choose(i))
    ensures AllChosen(data, TokensFrom(choose, |data|, at), at)
    decreases |data| - at
  {
    if at < |data| {
      assert Describes(data, at, choose(at));
      TokensChosen(data, choose, at + Span(choose(at)));
    }
  }

  lemma {:induction false} TokenizeChosen(data: seq<byte>)
    ensures AllChosen(data, Tokenize(data, 0), 0)
  {
    forall i: nat | i < |data| ensures Describes(data, i, Chooser(data)(i)) && Chosen(data, i, Chooser(data)(i)) {
      TokenDescribes(data, i);
      TokenChosen(data, i);
    }
    TokensChosen(data, Chooser(data), 0);
  }

  // A reader of the stream finds exactly the tokens chosen, and no others would be.
  lemma {:induction false} StreamTokens(data: seq<byte>, missing: int, ts: seq<Token>)
    requires Encoded(data, missing).Ok?
    ensures |Encoded(data, missing).value| >= 14
    ensures ReadTokens(Encoded(data, missing).value[14..], 0, |data|) == Ok(ts) <==> AllChosen(data, ts, 0)
  {
    var us := Tokenize(data, 0);
    TokenizeChosen(data);
    TokenizeCovers(data, 0);
    TokensReadAndApplied(data, us, []);
    HeaderFields(|data|, missing, Serialize(us));
    assert Serialize(us) + [] == Serialize(us);
    if AllChosen(data, ts, 0) {
      AllChosenUnique(data, ts, us, 0);
    }
  }

  // ----- spaces

  function Spaces(n: nat): (data: seq<byte>)
    ensures |data| == n && forall i | 0 <= i < n :: data[i] == 0x20
  {
    seq(n, _ => 0x20)
  }

  function SpaceToken(n: nat, at: nat): Token
    requires at < n
  {
    if n - at < 3 then Literal(0x20) else Match((0xFEE + at) % 4096, if n - at < 18 then n - at else 18)
  }

  function SpaceTokens(n: nat, at: nat): seq<Token>
    requires at <= n
    decreases n - at
  {
    if at == n then [] else [SpaceToken(n, at)] + SpaceTokens(n, at + Span(SpaceToken(n, at)))
  }

  lemma {:induction false} SpaceRepeated(n: nat, at: nat, d: nat, m: nat)
    ensures Repeated(Spaces(n), at, d, m) <==> at + m <= n
  {
  }

  lemma {:induction false} SpaceChosen(n: nat, at: nat)
    requires at < n
    ensures Chosen(Spaces(n), at, SpaceToken(n, at))
  {
    var data := Spaces(n);
    forall d: nat, m: nat ensures Repeated(data, at, d, m) <==> at + m <= n {
      SpaceRepeated(n, at, d, m);
    }
    if n - at >= 3 {
      var m := if n - at < 18 then n - at else 18;
      assert TriedBefore(data, at, 4096) == {};
      assert 4096 in Recurring(data, at);
      assert FirstLongest(data, at, 4096, m);
      assert (0xFEE + at - 4096) % 4096 == (0xFEE + at) % 4096;
    }
  }

  lemma {:induction false} SpacesChosen(n: nat, at: nat)
    requires at <= n
    ensures AllChosen(Spaces(n), SpaceTokens(n, at), at)
    decreases n - at
  {
    if at < n {
      SpaceChosen(n, at);
      SpacesChosen(n, at + Span(SpaceToken(n, at)));
    }
  }

  lemma {:induction false} SpaceTokenAt(n: nat, at: nat, i: nat)
    requires at + 18 * (i + 1) <= n
    ensures i < |SpaceTokens(n, at)| && SpaceTokens(n, at)[i] == Match((0xFEE + at + 18 * i) % 4096, 18)
    decreases i
  {
    if i > 0 {
      SpaceTokenAt(n, at + 18, i - 1);
      assert SpaceTokens(n, at)[1..] == SpaceTokens(n, at + 18);
    }
  }

  lemma {:induction false} SpaceTokenCount(n: nat, at: nat)
    requires at <= n
    ensures var rest := (n - at) % 18;
      |SpaceTokens(n, at)| == (n - at) / 18 + if rest < 3 then rest else 1
    decreases n - at
  {
    if at < n {
      SpaceTokenCount(n, at + Span(SpaceToken(n, at)));
    }
  }

  lemma {:induction false} SpacesTokenized(n: nat)
    ensures Tokenize(Spaces(n), 0) == SpaceTokens(n, 0)
  {
    TokenizeChosen(Spaces(n));
    SpacesChosen(n, 0);
    AllChosenUnique(Spaces(n), Tokenize(Spaces(n), 0), SpaceTokens(n, 0), 0);
  }

  // One match for every full eighteen spaces, each at the place it is written to, and at
  // most two more tokens.
  ghost predicate Runs(ts: seq<Token>, n: nat) {
    |ts| == n / 18 + (if n % 18 < 3 then n % 18 else 1)
    && forall i | 0 <= i < n / 18 :: ts[i] == Match((0xFEE + 18 * i) % 4096, 18)
  }

  lemma {:induction false} SpaceTokensRun(n: nat)
    ensures Runs(SpaceTokens(n, 0), n)
  {
    SpaceTokenCount(n, 0);
    forall i | 0 <= i < n / 18 ensures SpaceTokens(n, 0)[i] == Match((0xFEE + 18 * i) % 4096, 18) {
      SpaceTokenAt(n, 0, i);
    }
  }

  // That is what the stream of n spaces holds.
  lemma {:induction false} SpacesStream(n: nat, missing: int)
    requires Encoded(Spaces(n), missing).Ok?
    ensures var stream := Encoded(Spaces(n), missing).value;
      |stream| >= 14 && ReadTokens(stream[14..], 0, n).Ok? && Runs(ReadTokens(stream[14..], 0, n).value, n)
  {
    SpacesChosen(n, 0);
    StreamTokens(Spaces(n), missing, SpaceTokens(n, 0));
    SpaceTokensRun(n);
  }

  lemma {:induction false} MatchesSize(ts: seq<Token>)
    requires forall i | 0 <= i < |ts| :: ts[i].Match?
    ensures |Bodies(ts)| == 2 * |ts|
  {
    if ts != [] {
      MatchesSize(ts[1..]);
    }
  }

  lemma {:induction false} MatchStreamSize(ts: seq<Token>)
    requires forall i | 0 <= i < |ts| :: ts[i].Match?
    ensures |Serialize(ts)| == 2 * |ts| + (|ts| + 7) / 8
    decreases |ts|
  {
    if ts != [] {
      var k := GroupSize(ts);
      MatchesSize(ts[..k]);
      MatchStreamSize(ts[k..]);
    }
  }

  lemma {:induction false} BehindHeader(data: seq<byte>, missing: int, ts: seq<Token>)
    requires Encoded(data, missing).Ok? && ts == Tokenize(data, 0)
    ensures |Encoded(data, missing).value| == 14 + |Serialize(ts)|
    ensures Encoded(data, missing).value[14..] == Serialize(ts)
  {
  }

  lemma {:induction false} OnlyMatches(ts: seq<Token>, n: nat, m: nat)
    requires Runs(ts, n) && n == 18 * m
    ensures |Serialize(ts)| == 2 * m + (m + 7) / 8
  {
    assert n / 18 == m && n % 18 == 0;
    MatchStreamSize(ts);
  }

  // So it is about a ninth as long.
  lemma {:induction false} SpacesShrink(n: nat, m: nat, missing: int)
    requires n == 18 * m && Encoded(Spaces(n), missing).Ok?
    ensures |Encoded(Spaces(n), missing).value| == 14 + 2 * m + (m + 7) / 8
  {
    SpacesTokenized(n);
    BehindHeader(Spaces(n), missing, SpaceTokens(n, 0));
    SpaceTokensRun(n);
    OnlyMatches(SpaceTokens(n, 0), n, m);
  }

  // Eighteen spaces are a flag byte and one match.
  lemma {:induction false} EighteenSpaces(n: nat, missing: int)
    requires n == 18 && Encoded(Spaces(n), missing).Ok?
    ensures Encoded(Spaces(n), missing).value[14..] == [0x00, 0xEE, 0xFF]
  {
    var ts := SpaceTokens(n, 0);
    SpacesTokenized(n);
    BehindHeader(Spaces(n), missing, ts);
    assert SpaceToken(n, 0) == Match(0xFEE, 18) && SpaceTokens(n, 18) == [];
    OneMatch(ts, 0xFEE, 18);
  }

  lemma {:induction false} OneMatch(ts: seq<Token>, p: nat, n: nat)
    requires ts == [Match(p, n)] && p < 4096 && 3 <= n <= 18
    ensures Serialize(ts) == [0, p % 256, p / 256 * 16 + (n - 3)]
  {
    assert ts[..1] == ts && ts[1..] == [];
    assert Serialize(ts[1..]) == [] && Bodies(ts[1..]) == [] && Flags(ts[1..]) == 0;
  }
}
