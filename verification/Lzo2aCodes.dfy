/** The code book of LZO2A in plain numbers. Bits come one after the other, bytes in between. */
module Lzo2aCodes {
  import opened Bytes
  import opened Tokens
  import opened LengthCode
  import opened BitStream
  import opened Lzo2aFormat

  lemma WritesLiteral(c: byte)
    ensures Code(Run([c])) == [Bits(1, 0), Byte(c)]
  {
  }

  /** A near match, of 2 to 5 bytes from 1 to 256 back, takes twelve bits; ... */
  lemma WritesNear(off: nat, len: nat)
    requires 1 <= off <= 256 && 2 <= len <= 5
    ensures Code(Match(off, len, [])) == [Bits(1, 1), Bits(1, 0), Bits(2, len - 2), Byte(off - 1)]
  {
  }

  /** ... any other has a length from 3 and an offset up to 8191 in two bytes, the length in three bits or, from 10 on,
      in a length code. */
  lemma WritesFar(off: nat, len: nat)
    requires 1 <= off <= 8191 && 3 <= len && !(len <= 5 && off <= 256)
    ensures Code(Match(off, len, [])) ==
            if len <= 9 then [Bits(1, 1), Bits(1, 1), Byte((len - 2) * 32 + off % 32), Byte(off / 32)]
            else [Bits(1, 1), Bits(1, 1), Byte(off % 32), Byte(off / 32)] + BytesOf(Ext(len - 9))
  {
    hide Ext, BytesOf;
    FarBytes(off, len);
    LowByteId(off / 32);
    LowByteId(if len <= 9 then (len - 2) * 32 + off % 32 else off % 32);
  }

  lemma FarBytes(off: nat, len: nat)
    requires 1 <= off <= 8191 && 3 <= len
    ensures off / 32 < 256 && (len <= 9 ==> (len - 2) * 32 + off % 32 < 256)
  {
  }

  /** Bits of offset 0 with a length in the marker are the end code. */
  lemma WritesEnd()
    ensures EofItems() == [Bits(1, 1), Bits(1, 1), Byte(32), Byte(0)]
  {
  }

  /** The tokens that may be written. */
  lemma LegalIs(t: Token, w: seq<byte>)
    ensures Legal(t, w) <==>
            match t
            case Run(lit) => |lit| == 1
            case Match(off, len, tail) =>
              && 1 <= off <= 8191 && off <= |w| && tail == [] && (3 <= len || (len == 2 && off <= 256))
  {
  }

  // ----- the stream -----

  function Bit(x: nat): (i: Item)
    ensures x <= 1 ==> Valid(i)
  {
    BitsValid(0, 1);
    BitsValid(1, 1);
    Bits(1, x)
  }

  lemma OneBit(x: nat, rest: Items, k: nat, b: nat)
    requires x <= 1 && k < 8
    ensures var b' := b + x * Pow2(k);
            Emit([Bit(x)] + rest, k, b) ==
            if k == 7 then Future(LowByte(b'), Emit(rest, 0, b' / 256).bytes)
            else if k == 0 then Future(0, [Emit(rest, 1, b').reserved] + Emit(rest, 1, b').bytes)
            else Emit(rest, k + 1, b')
  {
    hide Pow2;
    assert ([Bit(x)] + rest)[1..] == rest;
  }

  lemma LowBits(x0: nat, x1: nat, x2: nat, x3: nat, rest: Items)
    requires x0 <= 1 && x1 <= 1 && x2 <= 1 && x3 <= 1
    ensures var f := Emit(rest, 4, x0 + 2 * x1 + 4 * x2 + 8 * x3);
            Emit([Bit(x0)] + ([Bit(x1)] + ([Bit(x2)] + ([Bit(x3)] + rest))), 0, 0) == Future(0, [f.reserved] + f.bytes)
  {
    hide Emit;
    var i3: Items := [Bit(x3)] + rest;
    var i2: Items := [Bit(x2)] + i3;
    var i1: Items := [Bit(x1)] + i2;
    Powers();
    OneBit(x0, i1, 0, 0);
    OneBit(x1, i2, 1, x0);
    OneBit(x2, i3, 2, x0 + 2 * x1);
    OneBit(x3, rest, 3, x0 + 2 * x1 + 4 * x2);
  }

  lemma HighBits(x0: nat, x1: nat, x2: nat, x3: nat, rest: Items, b: nat)
    requires x0 <= 1 && x1 <= 1 && x2 <= 1 && x3 <= 1 && b < 16
    ensures var v := b + 16 * x0 + 32 * x1 + 64 * x2 + 128 * x3;
            && v < 256
            && Emit([Bit(x0)] + ([Bit(x1)] + ([Bit(x2)] + ([Bit(x3)] + rest))), 4, b)
               == Future(v, Emit(rest, 0, 0).bytes)
  {
    hide Emit;
    var i3: Items := [Bit(x3)] + rest;
    var i2: Items := [Bit(x2)] + i3;
    var i1: Items := [Bit(x1)] + i2;
    var v := b + 16 * x0 + 32 * x1 + 64 * x2 + 128 * x3;
    Powers();
    OneBit(x0, i1, 4, b);
    OneBit(x1, i2, 5, b + 16 * x0);
    OneBit(x2, i3, 6, b + 16 * x0 + 32 * x1);
    OneBit(x3, rest, 7, b + 16 * x0 + 32 * x1 + 64 * x2);
    assert LowByte(v) == v && v / 256 == 0;
  }

  function Four(x0: nat, x1: nat, x2: nat, x3: nat, rest: Items): Items
    requires x0 <= 1 && x1 <= 1 && x2 <= 1 && x3 <= 1
  {
    [Bit(x0)] + ([Bit(x1)] + ([Bit(x2)] + ([Bit(x3)] + rest)))
  }

  /** Eight bits make a byte, the first of them its lowest bit, and what follows them follows it; ... */
  lemma BitsMakeByte(x: seq<nat>, rest: Items)
    requires |x| == 8 && forall i :: 0 <= i < 8 ==> x[i] <= 1
    ensures var items := Four(x[0], x[1], x[2], x[3], Four(x[4], x[5], x[6], x[7], rest));
            var v := x[0] + 2 * x[1] + 4 * x[2] + 8 * x[3] + 16 * x[4] + 32 * x[5] + 64 * x[6] + 128 * x[7];
            v < 256 && Emit(items, 0, 0).bytes == [v] + Emit(rest, 0, 0).bytes
  {
    hide Emit;
    var high := Four(x[4], x[5], x[6], x[7], rest);
    LowBits(x[0], x[1], x[2], x[3], high);
    HighBits(x[4], x[5], x[6], x[7], rest, x[0] + 2 * x[1] + 4 * x[2] + 8 * x[3]);
  }

  lemma Powers()
    ensures Pow2(0) == 1 && Pow2(1) == 2 && Pow2(2) == 4 && Pow2(3) == 8
    ensures Pow2(4) == 16 && Pow2(5) == 32 && Pow2(6) == 64 && Pow2(7) == 128
  {
  }

  /** ... and a byte in between comes behind the one that is being filled. */
  lemma ByteBetweenBits(x: nat, c: byte)
    requires x <= 1
    ensures var items: Items := [Bit(x), Byte(c)]; Emit(items, 0, 0).bytes == [x, c]
  {
    var items: Items := [Bit(x), Byte(c)];
    var rest: Items := [Byte(c)];
    Powers();
    assert items == [Bit(x)] + rest && rest[1..] == [];
    OneBit(x, rest, 0, 0);
    assert Emit([], 1, x) == Future(LowByte(x), []);
  }
}
