/** The LZO2A block format (lzo2a_9x.c, lzo2a_d.ch, config2a.h with N = 8191): one bit before every literal,
    two before every match, interleaved with the bytes they announce. */
module Lzo2aFormat {
  import opened Bytes
  import opened Window
  import opened Tokens
  import opened LengthCode
  import opened BitStream

  const N: nat := 8191

  predicate IsM1(off: nat, len: nat) {
    2 <= len <= 5 && off <= 256
  }

  predicate Codable(off: nat, len: nat) {
    1 <= off <= N && (3 <= len || IsM1(off, len))
  }

  predicate Legal(t: Token, w: seq<byte>) {
    match t
    case Run(lit) => |lit| == 1
    case Match(off, len, tail) => Codable(off, len) && off <= |w| && tail == []
  }

  predicate LegalAll(ts: seq<Token>) {
    ts == [] || (LegalAll(ts[..|ts| - 1]) && Legal(ts[|ts| - 1], Expand([], ts[..|ts| - 1])))
  }

  // ----- writing -----

  function BytesOf(s: seq<byte>): Items {
    seq(|s|, i requires 0 <= i < |s| => Byte(s[i]))
  }

  const ONE: Item := Bits(1, 1)
  const ZERO: Item := Bits(1, 0)

  lemma BitsValid(x: nat, n: nat)
    requires n == 1 || n == 2
    requires x < (if n == 1 then 2 else 4)
    ensures Valid(Bits(n, x))
  {
    assert Pow2(1) == 2 && Pow2(2) == 4;
  }

  /** The items of a token; a token that is not legal has none. */
  function Code(t: Token): Items {
    BitsValid(0, 1);
    BitsValid(1, 1);
    match t
    case Run(lit) => if |lit| == 1 then [ZERO, Byte(lit[0])] else []
    case Match(off, len, tail) =>
      if !Codable(off, len) then []
      else if IsM1(off, len) then
        BitsValid(len - 2, 2);
        [ONE, ZERO, Bits(2, len - 2), Byte(LowByte(off - 1))]
      else if len <= 9 then [ONE, ONE, Byte(LowByte((len - 2) * 32 + off % 32)), Byte(LowByte(off / 32))]
      else [ONE, ONE, Byte(LowByte(off % 32)), Byte(LowByte(off / 32))] + BytesOf(Ext(len - 9))
  }

  function Encode(ts: seq<Token>): Items {
    if ts == [] then [] else Encode(ts[..|ts| - 1]) + Code(ts[|ts| - 1])
  }

  function EofItems(): Items {
    BitsValid(1, 1);
    [ONE, ONE, Byte(32), Byte(0)]
  }

  // ----- reading -----

  datatype State = State(r: Reader, out: seq<byte>)

  datatype Outcome =
    | Next(st: State)
    | End(ip: nat)
    | Stray   // the C code would read past the block or before the start of the output

  function TakeMatch(r: Reader, off: nat, len: nat, out: seq<byte>): Outcome {
    if off == 0 || off > |out| then Stray else Next(State(r, Copy(out, off, len)))
  }

  /** The two offset bytes of a far match, the length in the upper three bits of the first or in a code. */
  function Far(s: seq<byte>, r: Reader, out: seq<byte>): Outcome {
    if |s| < r.ip + 2 then Stray
    else
      var t: int := s[r.ip];
      var off: int := t % 32 + 32 * (s[r.ip + 1] as int);
      if t / 32 > 0 then
        if off == 0 then End(r.ip + 2) else TakeMatch(r.(ip := r.ip + 2), off, t / 32 + 2, out)
      else
        match ReadExt(s, r.ip + 2)
        case None => Stray
        case Some(l) => TakeMatch(r.(ip := l.ip), off, 9 + l.value, out)
  }

  function Literal(s: seq<byte>, r: Reader, out: seq<byte>): Outcome {
    match ReadByte(s, r)
    case None => Stray
    case Some(g) => Next(State(g.r, out + [g.value]))
  }

  function Near(s: seq<byte>, r: Reader, out: seq<byte>): Outcome {
    match ReadBits(s, r, 2)
    case None => Stray
    case Some(g) =>
      match ReadByte(s, g.r)
      case None => Stray
      case Some(h) => TakeMatch(h.r, h.value + 1, g.value + 2, out)
  }

  function Step(s: seq<byte>, st: State): Outcome {
    match ReadBits(s, st.r, 1)
    case None => Stray
    case Some(g) =>
      if g.value == 0 then Literal(s, g.r, st.out)
      else
        match ReadBits(s, g.r, 1)
        case None => Stray
        case Some(h) => if h.value == 0 then Near(s, h.r, st.out) else Far(s, h.r, st.out)
  }

  lemma StepMoves(s: seq<byte>, st: State)
    ensures var n := Step(s, st); n.Next? ==> st.r.ip < n.st.r.ip <= |s| && |st.out| <= |n.st.out|
  {
    hide Pow2, Shl, Shr, Mask, NeedBits;
  }

  datatype Result = Result(out: seq<byte>, ip: nat)

  function DecodeFrom(s: seq<byte>, st: State): Option<Result>
    decreases |s| - st.r.ip
  {
    StepMoves(s, st);
    match Step(s, st)
    case Stray => None
    case End(ip) => Some(Result(st.out, ip))
    case Next(next) => DecodeFrom(s, next)
  }

  function Decode(s: seq<byte>): Option<Result> {
    DecodeFrom(s, State(Reader(0, 0, 0), []))
  }
}
