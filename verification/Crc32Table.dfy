/** The bit-at-a-time cyclic redundancy check of section 8 of RFC 1952, and the table of lzo_crc.c that takes
    eight of its steps at once. */
module Crc32Table {

  // ----- bits of a register -----

  function Xor(a: bv32, b: bv32): bv32 {
    a ^ b
  }

  function Half(a: bv32): bv32 {
    a >> 1
  }

  function LowBit(a: bv32): bv32 {
    a & 1
  }

  lemma XorAssoc(a: bv32, b: bv32, c: bv32)
    ensures Xor(Xor(a, b), c) == Xor(a, Xor(b, c))
  {
  }

  lemma XorComm(a: bv32, b: bv32)
    ensures Xor(a, b) == Xor(b, a)
  {
  }

  lemma XorUnit(a: bv32)
    ensures Xor(a, 0) == a == Xor(0, a) && Xor(a, a) == 0
  {
  }

  lemma XorSwap(a: bv32, b: bv32, c: bv32)
    ensures Xor(Xor(a, b), c) == Xor(Xor(a, c), b)
  {
    hide Xor;
    XorAssoc(a, b, c);
    XorComm(b, c);
    XorAssoc(a, c, b);
  }

  lemma XorCancel(a: bv32, b: bv32, c: bv32)
    ensures Xor(Xor(a, c), Xor(b, c)) == Xor(a, b)
  {
    hide Xor;
    XorAssoc(Xor(a, c), b, c);
    XorSwap(Xor(a, c), b, c);
    XorAssoc(a, c, c);
    XorUnit(c);
    XorUnit(a);
  }

  lemma HalfXor(a: bv32, b: bv32)
    ensures Half(Xor(a, b)) == Xor(Half(a), Half(b))
    ensures LowBit(Xor(a, b)) == Xor(LowBit(a), LowBit(b))
  {
  }

  lemma Parity(a: bv32)
    ensures LowBit(a) == 0 || LowBit(a) == 1
    ensures Half(LowBit(a)) == 0 && LowBit(LowBit(a)) == LowBit(a)
    ensures Xor(0, 0) == 0 == Xor(1, 1) && Xor(0, 1) == 1 == Xor(1, 0)
  {
  }

  // ----- one bit at a time -----

  const POLYNOMIAL: bv32 := 0xedb88320

  /** One step of the reflected shift register. */
  function Shift(c: bv32): bv32 {
    if LowBit(c) == 1 then Xor(Half(c), POLYNOMIAL) else Half(c)
  }

  /** Feed the `n` low bits of `r`, lowest first. */
  function FeedBits(c: bv32, r: bv32, n: nat): bv32
    decreases n
  {
    if n == 0 then c else FeedBits(Shift(Xor(c, LowBit(r))), Half(r), n - 1)
  }

  function FeedByte(c: bv32, b: bv8): bv32 {
    FeedBits(c, b as bv32, 8)
  }

  /** The register after a whole buffer. */
  function Feed(c: bv32, data: seq<bv8>): bv32 {
    if data == [] then c else FeedByte(Feed(c, data[..|data| - 1]), data[|data| - 1])
  }

  /** The checksum: the register starts and ends complemented. */
  function Crc(start: bv32, data: seq<bv8>): bv32 {
    Xor(Feed(Xor(start, 0xffffffff), data), 0xffffffff)
  }

  // ----- many bits at once -----

  lemma ShiftLinear(a: bv32, b: bv32)
    ensures Shift(Xor(a, b)) == Xor(Shift(a), Shift(b))
  {
    hide Xor, Half, LowBit;
    HalfXor(a, b);
    Parity(a);
    Parity(b);
    XorAssoc(Half(a), Half(b), POLYNOMIAL);
    XorSwap(Half(a), Half(b), POLYNOMIAL);
    XorCancel(Half(a), Half(b), POLYNOMIAL);
  }

  /** Only the lowest bit of what is fed matters to one step; the others move down. */
  lemma ShiftAbsorbs(c: bv32, r: bv32)
    ensures Shift(Xor(c, r)) == Xor(Shift(Xor(c, LowBit(r))), Half(r))
  {
    hide Xor, Half, LowBit;
    HalfXor(c, r);
    HalfXor(c, LowBit(r));
    Parity(r);
    XorUnit(Half(c));
    XorSwap(Half(c), Half(r), POLYNOMIAL);
  }

  function ShiftTimes(c: bv32, n: nat): bv32
    decreases n
  {
    if n == 0 then c else ShiftTimes(Shift(c), n - 1)
  }

  function Drop(r: bv32, n: nat): bv32
    decreases n
  {
    if n == 0 then r else Drop(Half(r), n - 1)
  }

  /** Feeding bits one at a time is the same as adding all of them at once and shifting. */
  lemma {:induction false} FeedBitsAtOnce(c: bv32, r: bv32, n: nat)
    ensures ShiftTimes(Xor(c, r), n) == Xor(FeedBits(c, r, n), Drop(r, n))
    decreases n
  {
    hide Xor, Half, LowBit, Shift;
    if n > 0 {
      ShiftAbsorbs(c, r);
      FeedBitsAtOnce(Shift(Xor(c, LowBit(r))), Half(r), n - 1);
    }
  }

  lemma {:induction false} ShiftTimesLinear(a: bv32, b: bv32, n: nat)
    ensures ShiftTimes(Xor(a, b), n) == Xor(ShiftTimes(a, n), ShiftTimes(b, n))
    decreases n
  {
    hide Xor, Shift;
    if n > 0 {
      ShiftLinear(a, b);
      ShiftTimesLinear(Shift(a), Shift(b), n - 1);
    }
  }

  // ----- the table -----

  type Row = r: seq<bv32> | |r| == 16 witness seq(16, _ => 0)

  const ROW0: Row := [
    0x00000000, 0x77073096, 0xee0e612c, 0x990951ba, 0x076dc419, 0x706af48f, 0xe963a535, 0x9e6495a3,
    0x0edb8832, 0x79dcb8a4, 0xe0d5e91e, 0x97d2d988, 0x09b64c2b, 0x7eb17cbd, 0xe7b82d07, 0x90bf1d91]
  const ROW1: Row := [
    0x1db71064, 0x6ab020f2, 0xf3b97148, 0x84be41de, 0x1adad47d, 0x6ddde4eb, 0xf4d4b551, 0x83d385c7,
    0x136c9856, 0x646ba8c0, 0xfd62f97a, 0x8a65c9ec, 0x14015c4f, 0x63066cd9, 0xfa0f3d63, 0x8d080df5]
  const ROW2: Row := [
    0x3b6e20c8, 0x4c69105e, 0xd56041e4, 0xa2677172, 0x3c03e4d1, 0x4b04d447, 0xd20d85fd, 0xa50ab56b,
    0x35b5a8fa, 0x42b2986c, 0xdbbbc9d6, 0xacbcf940, 0x32d86ce3, 0x45df5c75, 0xdcd60dcf, 0xabd13d59]
  const ROW3: Row := [
    0x26d930ac, 0x51de003a, 0xc8d75180, 0xbfd06116, 0x21b4f4b5, 0x56b3c423, 0xcfba9599, 0xb8bda50f,
    0x2802b89e, 0x5f058808, 0xc60cd9b2, 0xb10be924, 0x2f6f7c87, 0x58684c11, 0xc1611dab, 0xb6662d3d]
  const ROW4: Row := [
    0x76dc4190, 0x01db7106, 0x98d220bc, 0xefd5102a, 0x71b18589, 0x06b6b51f, 0x9fbfe4a5, 0xe8b8d433,
    0x7807c9a2, 0x0f00f934, 0x9609a88e, 0xe10e9818, 0x7f6a0dbb, 0x086d3d2d, 0x91646c97, 0xe6635c01]
  const ROW5: Row := [
    0x6b6b51f4, 0x1c6c6162, 0x856530d8, 0xf262004e, 0x6c0695ed, 0x1b01a57b, 0x8208f4c1, 0xf50fc457,
    0x65b0d9c6, 0x12b7e950, 0x8bbeb8ea, 0xfcb9887c, 0x62dd1ddf, 0x15da2d49, 0x8cd37cf3, 0xfbd44c65]
  const ROW6: Row := [
    0x4db26158, 0x3ab551ce, 0xa3bc0074, 0xd4bb30e2, 0x4adfa541, 0x3dd895d7, 0xa4d1c46d, 0xd3d6f4fb,
    0x4369e96a, 0x346ed9fc, 0xad678846, 0xda60b8d0, 0x44042d73, 0x33031de5, 0xaa0a4c5f, 0xdd0d7cc9]
  const ROW7: Row := [
    0x5005713c, 0x270241aa, 0xbe0b1010, 0xc90c2086, 0x5768b525, 0x206f85b3, 0xb966d409, 0xce61e49f,
    0x5edef90e, 0x29d9c998, 0xb0d09822, 0xc7d7a8b4, 0x59b33d17, 0x2eb40d81, 0xb7bd5c3b, 0xc0ba6cad]
  const ROW8: Row := [
    0xedb88320, 0x9abfb3b6, 0x03b6e20c, 0x74b1d29a, 0xead54739, 0x9dd277af, 0x04db2615, 0x73dc1683,
    0xe3630b12, 0x94643b84, 0x0d6d6a3e, 0x7a6a5aa8, 0xe40ecf0b, 0x9309ff9d, 0x0a00ae27, 0x7d079eb1]
  const ROW9: Row := [
    0xf00f9344, 0x8708a3d2, 0x1e01f268, 0x6906c2fe, 0xf762575d, 0x806567cb, 0x196c3671, 0x6e6b06e7,
    0xfed41b76, 0x89d32be0, 0x10da7a5a, 0x67dd4acc, 0xf9b9df6f, 0x8ebeeff9, 0x17b7be43, 0x60b08ed5]
  const ROWA: Row := [
    0xd6d6a3e8, 0xa1d1937e, 0x38d8c2c4, 0x4fdff252, 0xd1bb67f1, 0xa6bc5767, 0x3fb506dd, 0x48b2364b,
    0xd80d2bda, 0xaf0a1b4c, 0x36034af6, 0x41047a60, 0xdf60efc3, 0xa867df55, 0x316e8eef, 0x4669be79]
  const ROWB: Row := [
    0xcb61b38c, 0xbc66831a, 0x256fd2a0, 0x5268e236, 0xcc0c7795, 0xbb0b4703, 0x220216b9, 0x5505262f,
    0xc5ba3bbe, 0xb2bd0b28, 0x2bb45a92, 0x5cb36a04, 0xc2d7ffa7, 0xb5d0cf31, 0x2cd99e8b, 0x5bdeae1d]
  const ROWC: Row := [
    0x9b64c2b0, 0xec63f226, 0x756aa39c, 0x026d930a, 0x9c0906a9, 0xeb0e363f, 0x72076785, 0x05005713,
    0x95bf4a82, 0xe2b87a14, 0x7bb12bae, 0x0cb61b38, 0x92d28e9b, 0xe5d5be0d, 0x7cdcefb7, 0x0bdbdf21]
  const ROWD: Row := [
    0x86d3d2d4, 0xf1d4e242, 0x68ddb3f8, 0x1fda836e, 0x81be16cd, 0xf6b9265b, 0x6fb077e1, 0x18b74777,
    0x88085ae6, 0xff0f6a70, 0x66063bca, 0x11010b5c, 0x8f659eff, 0xf862ae69, 0x616bffd3, 0x166ccf45]
  const ROWE: Row := [
    0xa00ae278, 0xd70dd2ee, 0x4e048354, 0x3903b3c2, 0xa7672661, 0xd06016f7, 0x4969474d, 0x3e6e77db,
    0xaed16a4a, 0xd9d65adc, 0x40df0b66, 0x37d83bf0, 0xa9bcae53, 0xdebb9ec5, 0x47b2cf7f, 0x30b5ffe9]
  const ROWF: Row := [
    0xbdbdf21c, 0xcabac28a, 0x53b39330, 0x24b4a3a6, 0xbad03605, 0xcdd70693, 0x54de5729, 0x23d967bf,
    0xb3667a2e, 0xc4614ab8, 0x5d681b02, 0x2a6f2b94, 0xb40bbe37, 0xc30c8ea1, 0x5a05df1b, 0x2d02ef8d]

  /** _lzo_crc32_table, in rows of sixteen. */
  const TABLE: seq<Row> := 
    [ROW0, ROW1, ROW2, ROW3, ROW4, ROW5, ROW6, ROW7, ROW8, ROW9, ROWA, ROWB, ROWC, ROWD, ROWE, ROWF]

  function Entry(i: bv32): bv32
    requires i < 256
  {
    TABLE[(i >> 4) as nat][(i & 15) as nat]
  }

  function Shift8(c: bv32): bv32 {
    Shift(Shift(Shift(Shift(Shift(Shift(Shift(Shift(c))))))))
  }

  /** A row repeats the first one, changed by its own first entry. */
  ghost predicate Derived(row: Row) {
    && row[1] == Xor(row[0], ROW0[1]) && row[2] == Xor(row[0], ROW0[2]) && row[3] == Xor(row[0], ROW0[3])
    && row[4] == Xor(row[0], ROW0[4]) && row[5] == Xor(row[0], ROW0[5]) && row[6] == Xor(row[0], ROW0[6])
    && row[7] == Xor(row[0], ROW0[7]) && row[8] == Xor(row[0], ROW0[8]) && row[9] == Xor(row[0], ROW0[9])
    && row[10] == Xor(row[0], ROW0[10]) && row[11] == Xor(row[0], ROW0[11]) && row[12] == Xor(row[0], ROW0[12])
    && row[13] == Xor(row[0], ROW0[13]) && row[14] == Xor(row[0], ROW0[14]) && row[15] == Xor(row[0], ROW0[15])
  }

  lemma Rows1To5()
    ensures Derived(ROW1) && Derived(ROW2) && Derived(ROW3) && Derived(ROW4) && Derived(ROW5)
  {
  }

  lemma Rows6ToA()
    ensures Derived(ROW6) && Derived(ROW7) && Derived(ROW8) && Derived(ROW9) && Derived(ROWA)
  {
  }

  lemma RowsBToF()
    ensures Derived(ROWB) && Derived(ROWC) && Derived(ROWD) && Derived(ROWE) && Derived(ROWF)
  {
  }

  lemma FirstRowHigh()
    ensures ROW0[8] == Shift8(8) && ROW0[9] == Shift8(9) && ROW0[10] == Shift8(10) && ROW0[11] == Shift8(11)
    ensures ROW0[12] == Shift8(12) && ROW0[13] == Shift8(13) && ROW0[14] == Shift8(14) && ROW0[15] == Shift8(15)
  {
  }

  lemma FirstRowLow()
    ensures ROW0[0] == Xor(ROW0[8], ROW0[8]) && ROW0[1] == Xor(ROW0[9], ROW0[8])
    ensures ROW0[2] == Xor(ROW0[10], ROW0[8]) && ROW0[3] == Xor(ROW0[11], ROW0[8])
    ensures ROW0[4] == Xor(ROW0[12], ROW0[8]) && ROW0[5] == Xor(ROW0[13], ROW0[8])
    ensures ROW0[6] == Xor(ROW0[14], ROW0[8]) && ROW0[7] == Xor(ROW0[15], ROW0[8])
  {
  }

  lemma FirstColumn()
    ensures ROW0[0] == Shift8(0) && ROW1[0] == Shift8(0x10) && ROW2[0] == Shift8(0x20) && ROW3[0] == Shift8(0x30)
    ensures ROW4[0] == Shift8(0x40) && ROW5[0] == Shift8(0x50) && ROW6[0] == Shift8(0x60) && ROW7[0] == Shift8(0x70)
    ensures ROW8[0] == Shift8(0x80) && ROW9[0] == Shift8(0x90) && ROWA[0] == Shift8(0xa0) && ROWB[0] == Shift8(0xb0)
    ensures ROWC[0] == Shift8(0xc0) && ROWD[0] == Shift8(0xd0) && ROWE[0] == Shift8(0xe0) && ROWF[0] == Shift8(0xf0)
  {
  }

  lemma Shift8Linear(a: bv32, b: bv32)
    ensures Shift8(Xor(a, b)) == Xor(Shift8(a), Shift8(b))
  {
    hide Xor, Shift;
    Shift8Times(a);
    Shift8Times(b);
    Shift8Times(Xor(a, b));
    ShiftTimesLinear(a, b, 8);
  }

  lemma Shift8Times(c: bv32)
    ensures Shift8(c) == ShiftTimes(c, 8)
  {
    hide Shift;
    var c2 := Shift(Shift(c));
    var c4 := Shift(Shift(c2));
    var c6 := Shift(Shift(c4));
    assert ShiftTimes(c6, 2) == Shift(Shift(c6));
    assert ShiftTimes(c4, 4) == ShiftTimes(c6, 2);
    assert ShiftTimes(c2, 6) == ShiftTimes(c4, 4);
  }

  lemma Nibble(k: bv32) returns (j: nat)
    requires k < 16
    ensures j < 16 && k as nat == j && k == j as bv32
  {
    j := k as nat;
  }

  lemma FirstRowIs(k: bv32)
    requires k < 16
    ensures ROW0[k as nat] == Shift8(k)
  {
    hide Xor, Shift8;
    FirstRowHigh();
    FirstRowLow();
    if k < 8 {
      Shift8Linear(k + 8, 8);
      LowNibble(k);
    }
  }

  lemma LowNibble(k: bv32)
    requires k < 8
    ensures Xor(k + 8, 8) == k
  {
  }

  lemma {:induction false} RowIs(row: Row, k: bv32)
    requires Derived(row) && k < 16
    ensures row[k as nat] == Xor(row[0], ROW0[k as nat])
  {
    hide Xor;
    FirstEntry();
    XorUnit(row[0]);
    var j := Nibble(k);
  }

  lemma FirstEntry()
    ensures ROW0[0] == 0
  {
  }

  lemma HeadIs(h: bv32)
    requires 1 <= h < 16
    ensures var row := TABLE[h as nat]; Derived(row) && row[0] == Shift8(h << 4)
  {
    hide Derived, Shift8, Xor;
    Rows1To5();
    Rows6ToA();
    RowsBToF();
    FirstColumn();
    var j := Nibble(h);
  }

  /** Entry i is what eight steps make of i: all 256 constants are right. */
  lemma EntryIs(i: bv32)
    requires i < 256
    ensures Entry(i) == Shift8(i)
  {
    hide Derived, Shift8, Xor;
    var h, k := i >> 4, i & 15;
    Nibbles(i);
    FirstRowIs(k);
    if h != 0 {
      HeadIs(h);
      RowIs(TABLE[h as nat], k);
      Shift8Linear(h << 4, k);
    }
  }

  lemma Nibbles(i: bv32)
    requires i < 256
    ensures i >> 4 < 16 && i & 15 < 16 && Xor((i >> 4) << 4, i & 15) == i
    ensures i >> 4 == 0 ==> i & 15 == i
  {
  }
}
