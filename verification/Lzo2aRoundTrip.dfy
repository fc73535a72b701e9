/** LZO2A token streams decode to what they stand for, whatever bits happen to be pending between tokens. */
module Lzo2aRoundTrip {
  import opened Bytes
  import opened Window
  import opened Tokens
  import opened LengthCode
  import opened BitStream
  import opened Lzo2aFormat

  /** A run of byte items stands in the stream as it is, and pending bits stay pending. */
  lemma {:induction false} FacingBytes(s: seq<byte>, r: Reader, e: seq<byte>, rest: Items, k: nat, b: nat)
    requires k < 8 && Facing(s, r, BytesOf(e) + rest, k, b)
    ensures At(s, r.ip, e) && Facing(s, r.(ip := r.ip + |e|), rest, k, b)
    decreases |e|
  {
    hide Facing;
    if e == [] {
      assert BytesOf(e) + rest == rest;
      FacingInBounds(s, r, rest, k, b);
    } else {
      var tail := BytesOf(e[1..]) + rest;
      assert BytesOf(e) + rest == [Byte(e[0])] + tail;
      var next := FacingByte(s, r, e[0], tail, k, b);
      FacingBytes(s, next, e[1..], rest, k, b);
      assert s[r.ip..r.ip + |e|] == [s[r.ip]] + s[r.ip + 1..r.ip + 1 + |e[1..]|] == e;
    }
  }

  lemma FacingInBounds(s: seq<byte>, r: Reader, items: Items, k: nat, b: nat)
    requires k < 8 && Facing(s, r, items, k, b)
    ensures r.ip <= |s|
  {
  }

  lemma FacingFlag(s: seq<byte>, r: Reader, x: nat, rest: Items, k: nat, b: nat)
    returns (next: Reader, k': nat, b': nat)
    requires k < 8 && b < Pow2(k) && Valid(Bits(1, x)) && Facing(s, r, [Bits(1, x)] + rest, k, b)
    ensures ReadBits(s, r, 1) == Some(Got(x, next))
    ensures k' < 8 && b' < Pow2(k') && Facing(s, next, rest, k', b')
  {
    hide Facing, ReadBits;
    next := FacingBits(s, r, 1, x, rest, k, b);
    var p := PendingAfter(k, b, Bits(1, x));
    k', b' := p.0, p.1;
  }

  lemma StepReadsLiteral(s: seq<byte>, st: State, c: byte, rest: Items, k: nat, b: nat)
    returns (next: Reader, k': nat, b': nat)
    requires k < 8 && b < Pow2(k) && Facing(s, st.r, Code(Run([c])) + rest, k, b)
    ensures Step(s, st) == Next(State(next, st.out + [c]))
    ensures k' < 8 && b' < Pow2(k') && Facing(s, next, rest, k', b')
  {
    hide Facing, ReadBits, ReadByte;
    BitsValid(0, 1);
    assert Code(Run([c])) + rest == [ZERO] + ([Byte(c)] + rest);
    next, k', b' := FacingFlag(s, st.r, 0, [Byte(c)] + rest, k, b);
    next := FacingByte(s, next, c, rest, k', b');
  }

  lemma StepReadsNear(s: seq<byte>, st: State, off: nat, len: nat, rest: Items, k: nat, b: nat)
    returns (next: Reader, k': nat, b': nat)
    requires Codable(off, len) && IsM1(off, len) && off <= |st.out|
    requires k < 8 && b < Pow2(k) && Facing(s, st.r, Code(Match(off, len, [])) + rest, k, b)
    ensures Step(s, st) == Next(State(next, Copy(st.out, off, len)))
    ensures k' < 8 && b' < Pow2(k') && Facing(s, next, rest, k', b')
  {
    hide Facing, ReadBits, ReadByte, PendingAfter, Pow2, Shl, Copy;
    BitsValid(1, 1);
    BitsValid(0, 1);
    BitsValid(len - 2, 2);
    var size, o := Bits(2, len - 2), Byte(LowByte(off - 1));
    assert Code(Match(off, len, [])) + rest == [ONE] + ([ZERO] + ([size] + ([o] + rest)));
    next, k', b' := FacingFlag(s, st.r, 1, [ZERO] + ([size] + ([o] + rest)), k, b);
    next, k', b' := FacingFlag(s, next, 0, [size] + ([o] + rest), k', b');
    var p := PendingAfter(k', b', size);
    next := FacingBits(s, next, 2, len - 2, [o] + rest, k', b');
    k', b' := p.0, p.1;
    next := FacingByte(s, next, LowByte(off - 1), rest, k', b');
  }

  lemma FarFields(off: nat, m: nat)
    requires off <= N && m < 8
    ensures var t, h := LowByte(m * 32 + off % 32), LowByte(off / 32);
            t % 32 == off % 32 && t / 32 == m && off == t % 32 + 32 * (h as int)
  {
  }

  function FarBytes(off: nat, len: nat): seq<byte>
    requires Codable(off, len) && !IsM1(off, len)
  {
    if len <= 9 then [LowByte((len - 2) * 32 + off % 32), LowByte(off / 32)]
    else [LowByte(off % 32), LowByte(off / 32)] + Ext(len - 9)
  }

  lemma FarItems(off: nat, len: nat)
    requires Codable(off, len) && !IsM1(off, len)
    ensures Valid(ONE) && Code(Match(off, len, [])) == [ONE, ONE] + BytesOf(FarBytes(off, len))
  {
    BitsValid(1, 1);
  }

  lemma FarParts(off: nat, len: nat) returns (t: byte, h: byte, more: seq<byte>)
    requires Codable(off, len) && !IsM1(off, len)
    ensures FarBytes(off, len) == [t, h] + more
    ensures t / 32 == (if len <= 9 then len - 2 else 0) && off == t % 32 + 32 * (h as int)
    ensures more == if len <= 9 then [] else Ext(len - 9)
  {
    hide Ext, LowByte;
    var m := if len <= 9 then len - 2 else 0;
    t, h := LowByte(m * 32 + off % 32), LowByte(off / 32);
    FarFields(off, m);
    more := if len <= 9 then [] else Ext(len - 9);
  }

  /** The bytes of a far match, as the decoder reads them. */
  lemma FarReads(s: seq<byte>, r: Reader, out: seq<byte>, off: nat, len: nat)
    requires Codable(off, len) && !IsM1(off, len) && off <= |out| && At(s, r.ip, FarBytes(off, len))
    ensures Far(s, r, out) == Next(State(r.(ip := r.ip + |FarBytes(off, len)|), Copy(out, off, len)))
  {
    hide Far, FarBytes, Ext, ReadExt, At;
    var t, h, more := FarParts(off, len);
    AtSplit(s, r.ip, [t, h], more);
    AtIndex(s, r.ip, [t, h], 0);
    AtIndex(s, r.ip, [t, h], 1);
    if len > 9 {
      ReadExtReads(s, r.ip + 2, len - 9);
    }
    FarDecodes(s, r, out, off, len, r.ip + 2 + |more|);
  }

  lemma FarDecodes(s: seq<byte>, r: Reader, out: seq<byte>, off: nat, len: nat, end: nat)
    requires 3 <= len && 1 <= off <= |out| && r.ip + 2 <= |s|
    requires off == s[r.ip] % 32 + 32 * (s[r.ip + 1] as int) && s[r.ip] / 32 == (if len <= 9 then len - 2 else 0)
    requires if len <= 9 then end == r.ip + 2 else ReadExt(s, r.ip + 2) == Some(Length(len - 9, end))
    ensures Far(s, r, out) == Next(State(r.(ip := end), Copy(out, off, len)))
  {
    hide Copy, ReadExt;
  }

  lemma StepReadsFar(s: seq<byte>, st: State, off: nat, len: nat, rest: Items, k: nat, b: nat)
    returns (next: Reader, k': nat, b': nat)
    requires Codable(off, len) && !IsM1(off, len) && off <= |st.out|
    requires k < 8 && b < Pow2(k) && Facing(s, st.r, Code(Match(off, len, [])) + rest, k, b)
    ensures Step(s, st) == Next(State(next, Copy(st.out, off, len)))
    ensures k' < 8 && b' < Pow2(k') && Facing(s, next, rest, k', b')
  {
    hide Facing, ReadBits, ReadByte, Far, FarBytes, Code;
    var e := FarBytes(off, len);
    FarItems(off, len);
    assert Code(Match(off, len, [])) + rest == [ONE] + ([ONE] + (BytesOf(e) + rest));
    next, k', b' := FacingFlag(s, st.r, 1, [ONE] + (BytesOf(e) + rest), k, b);
    next, k', b' := FacingFlag(s, next, 1, BytesOf(e) + rest, k', b');
    FacingBytes(s, next, e, rest, k', b');
    FarReads(s, next, st.out, off, len);
    next := next.(ip := next.ip + |e|);
  }

  lemma StepReadsToken(s: seq<byte>, st: State, t: Token, rest: Items, k: nat, b: nat)
    returns (next: Reader, k': nat, b': nat)
    requires Legal(t, st.out) && k < 8 && b < Pow2(k) && Facing(s, st.r, Code(t) + rest, k, b)
    ensures Step(s, st) == Next(State(next, Grow(st.out, t)))
    ensures k' < 8 && b' < Pow2(k') && Facing(s, next, rest, k', b')
  {
    hide Facing, Step, Code;
    match t
    case Run(lit) =>
      assert lit == [lit[0]];
      next, k', b' := StepReadsLiteral(s, st, lit[0], rest, k, b);
    case Match(off, len, tail) =>
      assert Copy(st.out, off, len) + [] == Copy(st.out, off, len);
      if IsM1(off, len) {
        next, k', b' := StepReadsNear(s, st, off, len, rest, k, b);
      } else {
        next, k', b' := StepReadsFar(s, st, off, len, rest, k, b);
      }
  }

  lemma StepReadsEnd(s: seq<byte>, st: State, k: nat, b: nat)
    requires k < 8 && b < Pow2(k) && Facing(s, st.r, EofItems(), k, b)
    ensures Step(s, st) == End(|s|)
  {
    hide ReadBits, ReadByte, Pow2;
    BitsValid(1, 1);
    var two: Items := [Byte(32), Byte(0)];
    assert EofItems() == [ONE] + ([ONE] + two);
    var next, k', b' := FacingFlag(s, st.r, 1, [ONE] + two, k, b);
    next, k', b' := FacingFlag(s, next, 1, two, k', b');
    assert two == BytesOf([32, 0]) + [];
    FacingBytes(s, next, [32, 0], [], k', b');
    AtIndex(s, next.ip, [32, 0], 0);
    AtIndex(s, next.ip, [32, 0], 1);
    assert s[next.ip + 2..] == [];
  }

  lemma {:induction false} DecodeReaches(s: seq<byte>, ts: seq<Token>, rest: Items) returns (r: Reader, k: nat, b: nat)
    requires LegalAll(ts) && Facing(s, Reader(0, 0, 0), Encode(ts) + rest, 0, 0)
    ensures k < 8 && b < Pow2(k) && Facing(s, r, rest, k, b)
    ensures DecodeFrom(s, State(Reader(0, 0, 0), [])) == DecodeFrom(s, State(r, Expand([], ts)))
  {
    hide Facing, Step, Code, Legal;
    if ts == [] {
      assert Encode(ts) + rest == rest;
      r, k, b := Reader(0, 0, 0), 0, 0;
    } else {
      var init, t := ts[..|ts| - 1], ts[|ts| - 1];
      assert Encode(ts) + rest == Encode(init) + (Code(t) + rest);
      r, k, b := DecodeReaches(s, init, Code(t) + rest);
      r, k, b := StepReadsToken(s, State(r, Expand([], init)), t, rest, k, b);
    }
  }

  /** Every legal token stream, closed with the end code and flushed, decodes to what it stands for, and the
      decoder stops exactly at the end of the block. */
  lemma DecodeEncode(ts: seq<Token>)
    requires LegalAll(ts)
    ensures var s := Emit(Encode(ts) + EofItems(), 0, 0).bytes; Decode(s) == Some(Result(Expand([], ts), |s|))
  {
    hide LegalAll, Encode, Step, Emit;
    var s := Emit(Encode(ts) + EofItems(), 0, 0).bytes;
    assert s[0..] == s;
    var r, k, b := DecodeReaches(s, ts, EofItems());
    StepReadsEnd(s, State(r, Expand([], ts)), k, b);
  }

  lemma Snoc(ts: seq<Token>, t: Token)
    requires LegalAll(ts) && Legal(t, Expand([], ts))
    ensures LegalAll(ts + [t])
    ensures Encode(ts + [t]) == Encode(ts) + Code(t)
    ensures Expand([], ts + [t]) == Grow(Expand([], ts), t)
  {
    assert (ts + [t])[..|ts|] == ts;
  }
}
