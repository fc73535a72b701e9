/** lzo_crc32 (lzo_crc.c): one table lookup a byte, sixteen bytes a round, proved equal to the check that takes
    one bit at a time; and what that check is good for. */
module Crc32 {
  import opened Bytes
  import opened Crc32Table

  lemma {:induction false} FeedAppend(c: bv32, x: seq<bv8>, y: seq<bv8>)
    ensures Feed(c, x + y) == Feed(Feed(c, x), y)
  {
    hide FeedByte;
    if y == [] {
      assert x + y == x;
    } else {
      var init := y[..|y| - 1];
      assert (x + y)[..|x + y| - 1] == x + init;
      FeedAppend(c, x, init);
    }
  }

  /** Checking a buffer in two parts, the second starting from the result of the first. */
  lemma CrcAppend(start: bv32, x: seq<bv8>, y: seq<bv8>)
    ensures Crc(start, x + y) == Crc(Crc(start, x), y)
  {
    hide Xor, Feed;
    var r := Feed(Xor(start, 0xffffffff), x);
    FeedAppend(Xor(start, 0xffffffff), x, y);
    XorAssoc(r, 0xffffffff, 0xffffffff);
    XorUnit(0xffffffff);
    XorUnit(r);
  }

  // ----- one table lookup a byte -----

  lemma ByteAtOnce(c: bv32, b: bv8)
    ensures FeedByte(c, b) == Shift8(Xor(c, b as bv32))
  {
    hide Xor, Half, Shift, Shift8;
    var r := b as bv32;
    FeedBitsAtOnce(c, r, 8);
    DropByte(b);
    XorUnit(FeedBits(c, r, 8));
    Shift8Times(Xor(c, r));
  }

  lemma DropByte(b: bv8)
    ensures Drop(b as bv32, 8) == 0
  {
    var h4 := Half(Half(Half(Half(b as bv32))));
    assert Drop(b as bv32, 8) == Drop(h4, 4);
    assert Half(Half(Half(Half(h4)))) == 0;
  }

  /** Eight steps on a register whose low byte is clear only move it down. */
  lemma HighBytes(x: bv32)
    ensures Shift8(x & 0xffffff00) == x >> 8
  {
    hide Shift;
    var c := x & 0xffffff00;
    HighBits(x);
    FourEven(c);
    FourEven(c >> 4);
  }

  lemma HighBits(x: bv32)
    ensures x & 0xffffff00 & 15 == 0 && ((x & 0xffffff00) >> 4) & 15 == 0
    ensures ((x & 0xffffff00) >> 4) >> 4 == x >> 8
  {
  }

  lemma FourEven(c: bv32)
    requires c & 15 == 0
    ensures Shift(Shift(Shift(Shift(c)))) == c >> 4
  {
    hide Half, LowBit;
    FourBits(c);
    FourHalves(c);
  }

  lemma FourBits(c: bv32)
    requires c & 15 == 0
    ensures LowBit(c) == 0 == LowBit(Half(c)) && LowBit(Half(Half(c))) == 0 == LowBit(Half(Half(Half(c))))
  {
  }

  lemma FourHalves(c: bv32)
    ensures Half(Half(Half(Half(c)))) == c >> 4
  {
  }

  lemma Bytewise(x: bv32)
    ensures Xor(x & 0xff, x & 0xffffff00) == x
  {
  }

  /** Eight steps are one lookup for the low byte, while the others move down. */
  lemma Lookup(x: bv32)
    ensures Shift8(x) == Xor(Entry(x & 0xff), x >> 8)
  {
    hide Xor, Shift8, Entry;
    Bytewise(x);
    Shift8Linear(x & 0xff, x & 0xffffff00);
    EntryIs(x & 0xff);
    HighBytes(x);
  }

  /** One byte of the table-driven loop. */
  lemma TableStep(c: bv32, b: bv8)
    ensures FeedByte(c, b) == Xor(Entry(Xor(c, b as bv32) & 0xff), c >> 8)
  {
    hide Xor, Shift8, Entry, FeedByte;
    ByteAtOnce(c, b);
    Lookup(Xor(c, b as bv32));
    HighByteUnchanged(c, b);
  }

  lemma HighByteUnchanged(c: bv32, b: bv8)
    ensures Xor(c, b as bv32) >> 8 == c >> 8
  {
  }

  // ----- the loop -----

  /** LZO_DO1 */
  method Do1(crc: bv32, b: bv8) returns (r: bv32)
    ensures r == FeedByte(crc, b)
  {
    hide Entry, FeedByte;
    TableStep(crc, b);
    r := Xor(Entry(Xor(crc, b as bv32) & 0xff), crc >> 8);
  }

  /** LZO_DO4, the four bytes from position `i` */
  method Do4(crc: bv32, buf: seq<bv8>, i: nat) returns (r: bv32)
    requires i + 4 <= |buf|
    ensures r == Feed(crc, buf[i..i + 4])
  {
    hide FeedByte;
    r := crc;
    assert buf[i..i] == [];
    for k := 0 to 4
      invariant r == Feed(crc, buf[i..i + k])
    {
      assert buf[i..i + k + 1][..k] == buf[i..i + k];
      r := Do1(r, buf[i + k]);
    }
  }

  /** LZO_DO16 */
  method Do16(crc: bv32, buf: seq<bv8>, i: nat) returns (r: bv32)
    requires i + 16 <= |buf|
    ensures r == Feed(crc, buf[i..i + 16])
  {
    hide Feed;
    r := Do4(crc, buf, i);
    r := Do4(r, buf, i + 4);
    r := Do4(r, buf, i + 8);
    r := Do4(r, buf, i + 12);
    Extend(crc, buf, i, 4, 4);
    Extend(crc, buf, i, 8, 4);
    Extend(crc, buf, i, 12, 4);
  }

  lemma Extend(c: bv32, buf: seq<bv8>, i: nat, m: nat, n: nat)
    requires i + m + n <= |buf|
    ensures Feed(Feed(c, buf[i..i + m]), buf[i + m..i + m + n]) == Feed(c, buf[i..i + m + n])
  {
    FeedAppend(c, buf[i..i + m], buf[i + m..i + m + n]);
    assert buf[i..i + m] + buf[i + m..i + m + n] == buf[i..i + m + n];
  }

  /** lzo_crc32: None stands for a null buffer. */
  method Crc32(c: bv32, buf: Option<seq<bv8>>) returns (r: bv32)
    ensures r == if buf.None? then 0 else Crc(c, buf.value)
  {
    hide Feed, Xor;
    var crc := Xor(c, 0xffffffff);
    if buf.None? {
      return 0;
    }
    var s := buf.value;
    ghost var start := crc;
    var i := 0;
    FeedNothing(start, s);
    while |s| - i >= 16
      invariant 0 <= i <= |s| && crc == Feed(start, s[0..i])
    {
      crc := Do16(crc, s, i);
      Extend(start, s, 0, i, 16);
      i := i + 16;
    }
    while i < |s|
      invariant 0 <= i <= |s| && crc == Feed(start, s[0..i])
    {
      crc := Do1(crc, s[i]);
      FeedOne(start, s, i);
      i := i + 1;
    }
    assert s[0..|s|] == s;
    r := Xor(crc, 0xffffffff);
  }

  lemma FeedNothing(c: bv32, s: seq<bv8>)
    ensures Feed(c, s[0..0]) == c
  {
  }

  lemma FeedOne(c: bv32, s: seq<bv8>, i: nat)
    requires i < |s|
    ensures Feed(c, s[0..i + 1]) == FeedByte(Feed(c, s[0..i]), s[i])
  {
    assert s[0..i + 1][..i] == s[0..i];
  }

  // ----- what the check detects -----

  lemma ShiftInjective(a: bv32, b: bv32)
    requires Shift(a) == Shift(b)
    ensures a == b
  {
    hide Xor, Shift;
    ShiftLinear(a, b);
    XorUnit(Shift(a));
    NonZeroStays(Xor(a, b));
    XorZero(a, b);
  }

  lemma NonZeroStays(d: bv32)
    requires Shift(d) == 0
    ensures d == 0
  {
  }

  lemma XorZero(a: bv32, b: bv32)
    ensures Xor(a, b) == 0 <==> a == b
  {
    hide Xor;
    XorUnit(b);
    XorBack(a, b);
  }

  /** Different registers stay different, and different bytes make them different. */
  lemma FeedByteInjective(c: bv32, b: bv8, c': bv32, b': bv8)
    requires FeedByte(c, b) == FeedByte(c', b')
    ensures c == c' <==> b == b'
  {
    hide Xor, Shift, FeedByte;
    ByteAtOnce(c, b);
    ByteAtOnce(c', b');
    var x, x' := Xor(c, b as bv32), Xor(c', b' as bv32);
    ShiftInjective8(x, x');
    SameXor(c, b, c', b');
  }

  lemma SameXor(c: bv32, b: bv8, c': bv32, b': bv8)
    requires Xor(c, b as bv32) == Xor(c', b' as bv32)
    ensures c == c' <==> b == b'
  {
    hide Xor;
    XorBack(c, b as bv32);
    XorBack(c', b' as bv32);
    SameByte(b, b');
  }

  lemma SameByte(b: bv8, b': bv8)
    ensures b as bv32 == b' as bv32 ==> b == b'
  {
  }

  lemma XorBack(a: bv32, b: bv32)
    ensures Xor(Xor(a, b), a) == b && Xor(Xor(a, b), b) == a
  {
    hide Xor;
    XorSwap(a, b, a);
    XorAssoc(a, b, b);
    XorUnit(a);
    XorUnit(b);
  }

  lemma ShiftInjective8(a: bv32, b: bv32)
    requires Shift8(a) == Shift8(b)
    ensures a == b
  {
    hide Shift;
    ShiftInjective4(Shift(Shift(Shift(Shift(a)))), Shift(Shift(Shift(Shift(b)))));
    ShiftInjective4(a, b);
  }

  lemma ShiftInjective4(a: bv32, b: bv32)
    requires Shift(Shift(Shift(Shift(a)))) == Shift(Shift(Shift(Shift(b))))
    ensures a == b
  {
    hide Shift;
    ShiftInjective(Shift(Shift(Shift(a))), Shift(Shift(Shift(b))));
    ShiftInjective(Shift(Shift(a)), Shift(Shift(b)));
    ShiftInjective(Shift(a), Shift(b));
    ShiftInjective(a, b);
  }

  lemma {:induction false} FeedInjective(c: bv32, c': bv32, data: seq<bv8>)
    ensures c != c' ==> Feed(c, data) != Feed(c', data)
  {
    hide FeedByte;
    if data != [] && c != c' {
      var init, b := data[..|data| - 1], data[|data| - 1];
      FeedInjective(c, c', init);
      if FeedByte(Feed(c, init), b) == FeedByte(Feed(c', init), b) {
        FeedByteInjective(Feed(c, init), b, Feed(c', init), b);
        assert false;
      }
    }
  }

  /** Changing any one byte of any buffer changes the checksum. */
  lemma OneByteDetected(start: bv32, x: seq<bv8>, b: bv8, b': bv8, y: seq<bv8>)
    requires b != b'
    ensures Crc(start, x + [b] + y) != Crc(start, x + [b'] + y)
  {
    hide Xor, FeedByte, Feed;
    var c := Xor(start, 0xffffffff);
    FeedByteThen(c, x, b, y);
    FeedByteThen(c, x, b', y);
    var r, r' := FeedByte(Feed(c, x), b), FeedByte(Feed(c, x), b');
    if r == r' {
      FeedByteInjective(Feed(c, x), b, Feed(c, x), b');
    }
    FeedInjective(r, r', y);
    XorCancel(Feed(r, y), Feed(r', y), 0xffffffff);
    XorZero(Feed(r, y), Feed(r', y));
    XorZero(Xor(Feed(r, y), 0xffffffff), Xor(Feed(r', y), 0xffffffff));
  }

  lemma FeedByteThen(c: bv32, x: seq<bv8>, b: bv8, y: seq<bv8>)
    ensures Feed(c, x + [b] + y) == Feed(FeedByte(Feed(c, x), b), y)
  {
    hide FeedByte;
    FeedAppend(c, x + [b], y);
    assert (x + [b])[..|x|] == x;
  }

  // ----- the residue -----

  function Byte0(x: bv32): bv8 {
    (x & 0xff) as bv8
  }

  function NextByte(x: bv32): bv32 {
    x >> 8
  }

  /** The checksum as four bytes, lowest first. */
  function LittleEndian(x: bv32): seq<bv8> {
    var x1 := NextByte(x);
    var x2 := NextByte(x1);
    [Byte0(x), Byte0(x1), Byte0(x2), Byte0(NextByte(x2))]
  }

  /** Feeding the low byte of `r` is feeding all of `r` and taking out what is left of it. */
  lemma FeedLowByte(c: bv32, r: bv32)
    ensures Xor(FeedByte(c, Byte0(r)), NextByte(r)) == Shift8(Xor(c, r))
  {
    hide Xor, Shift8, FeedByte;
    var low, high := r & 0xff, r & 0xffffff00;
    ByteAtOnce(c, Byte0(r));
    Bytewise(r);
    LowByteIs(r);
    XorAssoc(c, low, high);
    Shift8Linear(Xor(c, low), high);
    HighBytes(r);
  }

  lemma LowByteIs(r: bv32)
    ensures Byte0(r) as bv32 == r & 0xff
  {
  }

  lemma FourBytes(x: bv32)
    ensures NextByte(NextByte(NextByte(NextByte(x)))) == 0
  {
  }

  /** What the register makes of a checksum that follows its own data: always the same. */
  lemma FeedComplement(c: bv32)
    ensures Feed(c, LittleEndian(Xor(c, 0xffffffff))) == 0xdebb20e3
  {
    hide Xor, Shift8, FeedByte, Byte0, NextByte, Feed;
    var r := Xor(c, 0xffffffff);
    var r1 := NextByte(r);
    var r2 := NextByte(r1);
    var r3 := NextByte(r2);
    var c1 := FeedByte(c, Byte0(r));
    var c2 := FeedByte(c1, Byte0(r1));
    var c3 := FeedByte(c2, Byte0(r2));
    var c4 := FeedByte(c3, Byte0(r3));
    FeedLowByte(c, r);
    FeedLowByte(c1, r1);
    FeedLowByte(c2, r2);
    FeedLowByte(c3, r3);
    FourBytes(r);
    XorUnit(c4);
    Complement(c);
    OnesShifted();
    FeedFour(c, Byte0(r), Byte0(r1), Byte0(r2), Byte0(r3));
  }

  lemma Complement(c: bv32)
    ensures Xor(c, Xor(c, 0xffffffff)) == 0xffffffff
  {
    hide Xor;
    XorAssoc(c, c, 0xffffffff);
    XorUnit(c);
    XorUnit(0xffffffff);
  }

  lemma OnesShifted()
    ensures Shift8(Shift8(Shift8(Shift8(0xffffffff)))) == 0xdebb20e3
  {
    assert Shift8(0xffffffff) == 0x2dfd1072;
    assert Shift8(0x2dfd1072) == 0xbe26ed00;
    assert Shift8(0xbe26ed00) == 0x00be26ed;
    assert Shift8(0x00be26ed) == 0xdebb20e3;
  }

  lemma FeedFour(c: bv32, a: bv8, b: bv8, d: bv8, e: bv8)
    ensures Feed(c, [a, b, d, e]) == FeedByte(FeedByte(FeedByte(FeedByte(c, a), b), d), e)
  {
    hide FeedByte;
    FeedOne(c, [a, b, d, e], 0);
    FeedOne(c, [a, b, d, e], 1);
    FeedOne(c, [a, b, d, e], 2);
    FeedOne(c, [a, b, d, e], 3);
    assert [a, b, d, e][0..4] == [a, b, d, e];
  }

  /** A buffer followed by its own checksum checks to one fixed value, whatever the buffer and the start. */
  lemma Residue(start: bv32, data: seq<bv8>)
    ensures Crc(start, data + LittleEndian(Crc(start, data))) == 0x2144df1c
  {
    hide Xor, Feed, LittleEndian;
    var c := Xor(start, 0xffffffff);
    FeedAppend(c, data, LittleEndian(Crc(start, data)));
    FeedComplement(Feed(c, data));
    ResidueValue();
  }

  lemma ResidueValue()
    ensures Xor(0xdebb20e3, 0xffffffff) == 0x2144df1c
  {
  }
}
