/**
  The SZDD stream format: what a stream means, over an unbounded history instead of a
  ring buffer.  The history is 4096 spaces followed by the output.
 */
module SzddFormat {
  import opened Bytes

  const WINDOW_SIZE: nat := 4096
  const WINDOW_START: nat := 0xFEE
  const MAGIC: seq<byte> := [0x53, 0x5A, 0x44, 0x44, 0x88, 0xF0, 0x27, 0x33]

  datatype Error = BadMissingCharacter | TooLong | NotSzdd | TruncatedStream | TruncatedLiteral | TruncatedMatch

  datatype Result<T> = Ok(value: T) | Err(error: Error)

  // The byte j places after the start of the output; before it there are only spaces.
  function Past(out: seq<byte>, j: int): byte {
    if 0 <= j < |out| then out[j] else 0x20
  }

  // Where the ring buffer is written next, after n bytes of output.
  function Cursor(n: nat): (c: nat)
    ensures c < WINDOW_SIZE
  {
    (WINDOW_START + n) % WINDOW_SIZE
  }

  // How far back the ring buffer index `position` lies after n bytes; the cursor itself
  // holds the oldest byte.
  function Distance(n: nat, position: nat): (d: nat)
    ensures 1 <= d <= WINDOW_SIZE
  {
    var r := (WINDOW_START + n - position) % WINDOW_SIZE;
    if r == 0 then WINDOW_SIZE else r
  }

  // n bytes copied from d back, one at a time, so that a copy may read its own output.
  function Copy(out: seq<byte>, d: nat, n: nat): (r: seq<byte>)
    ensures |r| == |out| + n && r[..|out|] == out
    decreases n
  {
    if n == 0 then out else Copy(out + [Past(out, |out| - d)], d, n - 1)
  }

  // ----- tokens

  // A match has a ring buffer position below 4096 and a length from 3 to 18.
  datatype Token = Literal(value: byte) | Match(position: nat, length: nat)

  predicate Valid(t: Token) {
    t.Match? ==> t.position < WINDOW_SIZE && 3 <= t.length <= 18
  }

  // How many bytes of output a token stands for.
  function Span(t: Token): (n: nat)
  {
    if t.Literal? then 1 else t.length
  }

  function Spans(ts: seq<Token>): nat {
    if ts == [] then 0 else Span(ts[0]) + Spans(ts[1..])
  }

  function ApplyToken(out: seq<byte>, t: Token): (r: seq<byte>)
    ensures |r| == |out| + Span(t)
  {
    match t
    case Literal(v) => out + [v]
    case Match(p, n) => Copy(out, Distance(|out|, p), n)
  }

  // The output after all tokens.
  function Apply(ts: seq<Token>, out: seq<byte>): (r: seq<byte>)
    ensures |r| == |out| + Spans(ts)
    decreases ts
  {
    if ts == [] then out else Apply(ts[1..], ApplyToken(out, ts[0]))
  }

  // ----- reading tokens

  function MatchOf(first: byte, second: byte): (t: Token)
    ensures Valid(t) && t.Match?
  {
    Match(first as nat + second as nat / 16 * 256, second as nat % 16 + 3)
  }

  function Prepend(t: Token, r: Result<(seq<byte>, seq<Token>)>): Result<(seq<byte>, seq<Token>)> {
    match r
    case Err(e) => Err(e)
    case Ok((rest, ts)) => Ok((rest, [t] + ts))
  }

  // The eight flags of a group, the lowest bit first; a set flag means a literal.
  function FlagBits(flags: byte): (bits: seq<bool>)
    ensures |bits| == 8 && forall i | 0 <= i < 8 :: bits[i] == BitSet(flags, i)
  {
    seq(8, i requires 0 <= i => BitSet(flags, i))
  }

  // The remaining items of a group, when n bytes of output are done: the bytes that
  // follow, and the tokens.
  function ReadItems(rest: seq<byte>, bits: seq<bool>, n: nat, expected: nat): (r: Result<(seq<byte>, seq<Token>)>)
    ensures r.Ok? ==> |r.value.0| <= |rest|
    decreases bits
  {
    if bits == [] || n >= expected then Ok((rest, []))
    else if bits[0] then
      if |rest| == 0 then Err(TruncatedLiteral)
      else Prepend(Literal(rest[0]), ReadItems(rest[1..], bits[1..], n + 1, expected))
    else
      if |rest| < 2 then Err(TruncatedMatch)
      else
        var t := MatchOf(rest[0], rest[1]);
        Prepend(t, ReadItems(rest[2..], bits[1..], n + Span(t), expected))
  }

  // All tokens of a stream that is to give `expected` bytes.
  function ReadTokens(rest: seq<byte>, n: nat, expected: nat): Result<seq<Token>>
    decreases |rest|
  {
    if n >= expected then Ok([])
    else if |rest| == 0 then Err(TruncatedStream)
    else
      match ReadItems(rest[1..], FlagBits(rest[0]), n, expected)
      case Err(e) => Err(e)
      case Ok((rest', ts)) =>
        match ReadTokens(rest', n + Spans(ts), expected)
        case Err(e) => Err(e)
        case Ok(more) => Ok(ts + more)
  }

  function Header(n: nat, missing: byte): (h: seq<byte>)
    requires n < 0x1_0000_0000
    ensures |h| == 14
  {
    MAGIC + [0x41, missing] + Le32(n)
  }

  // The file contents and the missing character.  The last match may be longer than
  // what is still expected; its excess is dropped.
  function Expand(stream: seq<byte>): Result<(seq<byte>, byte)> {
    if |stream| < 14 || stream[..8] != MAGIC || stream[8] != 0x41 then Err(NotSzdd)
    else
      var expected := FromLe32(stream[10..14]);
      match ReadTokens(stream[14..], 0, expected)
      case Err(e) => Err(e)
      case Ok(ts) =>
        var out := Apply(ts, []);
        Ok((if |out| > expected then out[..expected] else out, stream[9]))
  }

  // ----- writing tokens

  function TokenBytes(t: Token): (s: seq<byte>)
    ensures |s| == if t.Literal? then 1 else 2
  {
    match t
    case Literal(v) => [v]
    case Match(p, n) => [p % 256, (p / 256 % 16) * 16 + (n - 3) % 16]
  }

  function Bodies(ts: seq<Token>): seq<byte> {
    if ts == [] then [] else TokenBytes(ts[0]) + Bodies(ts[1..])
  }

  // The flag byte has a one for every literal; the first item has the lowest bit.
  function Flags(ts: seq<Token>): nat {
    if ts == [] then 0 else (if ts[0].Literal? then 1 else 0) + 2 * Flags(ts[1..])
  }

  lemma {:induction false} FlagsBound(ts: seq<Token>)
    ensures Flags(ts) < Pow2(|ts|)
  {
    if ts != [] {
      FlagsBound(ts[1..]);
    }
  }

  lemma {:induction false} FlagsBit(ts: seq<Token>, bit: nat)
    requires bit < |ts|
    ensures BitSet(Flags(ts), bit) <==> ts[bit].Literal?
  {
    if bit > 0 {
      FlagsBit(ts[1..], bit - 1);
    }
  }

  lemma {:induction false} PowLess(a: nat, b: nat)
    requires a < b
    ensures Pow2(a) < Pow2(b)
  {
    if a + 1 < b {
      PowLess(a, b - 1);
    }
  }

  lemma {:induction false} PowLe256(n: nat)
    requires n <= 8
    ensures Pow2(n) <= 256
  {
    assert Pow2(4) == 16 && Pow2(8) == 256;
    if n < 8 {
      PowLess(n, 8);
    }
  }

  function GroupFlags(ts: seq<Token>): (f: byte)
    requires |ts| <= 8
    ensures f as nat == Flags(ts)
  {
    FlagsBound(ts);
    PowLe256(|ts|);
    Flags(ts)
  }

  function Group(ts: seq<Token>): seq<byte>
    requires |ts| <= 8
  {
    [GroupFlags(ts)] + Bodies(ts)
  }

  function GroupSize(ts: seq<Token>): nat { if |ts| <= 8 then |ts| else 8 }

  // Groups of eight tokens, each after its flag byte.
  function Serialize(ts: seq<Token>): seq<byte> {
    if ts == [] then [] else Group(ts[..GroupSize(ts)]) + Serialize(ts[GroupSize(ts)..])
  }
}
