/** The two hash functions of the sliding-window dictionary (lzo_swd.ch). HEAD2 is the two bytes themselves. HEAD3
    mixes three bytes into 14 bits; the search compares only the first two of them and trusts the hash for the
    third, which is right: three bytes that begin alike and hash alike are the same. */
module SwdHash {
  import opened Bytes
  import BitStream

  const HSIZE: nat := 16384
  const FACTOR: nat := 0x9f5f
  const KEPT: nat := 0x8_0000   // of the product, the hash keeps bits 5 to 18

  function Xor(a: nat, b: nat): nat
    decreases a + b
  {
    if a == 0 && b == 0 then 0 else 2 * Xor(a / 2, b / 2) + if a % 2 == b % 2 then 0 else 1
  }

  function Hash(x: nat): (r: nat)
    ensures r < HSIZE
  {
    FACTOR * x % 0x1_0000_0000 / 32 % HSIZE
  }

  function Head3(a: byte, b: byte, c: byte): (r: nat)
    ensures r < HSIZE
  {
    Hash(Xor(Xor(a * 32, b) * 32, c))
  }

  function Head2(a: byte, b: byte): (r: nat)
    ensures r < 65536
  {
    a + 256 * b
  }

  lemma {:induction false} XorNone(a: nat)
    ensures Xor(a, 0) == a
  {
    if a != 0 {
      XorNone(a / 2);
    }
  }

  /** Numbers without a common bit are added. */
  lemma {:induction false} XorApart(x: nat, y: nat, k: nat)
    requires y < BitStream.Pow2(k)
    ensures Xor(BitStream.Pow2(k) * x, y) == BitStream.Pow2(k) * x + y
    decreases k
  {
    if k == 0 {
      XorNone(x);
    } else {
      var m := BitStream.Pow2(k - 1);
      XorApart(x, y / 2, k - 1);
      Doubled(m, x);
      assert Xor(2 * (m * x), y) == 2 * Xor(m * x, y / 2) + y % 2;
    }
  }

  lemma Doubled(m: nat, x: nat)
    ensures 2 * m * x == 2 * (m * x) && 2 * (m * x) / 2 == m * x && 2 * (m * x) % 2 == 0
  {
  }

  /** The hash in plain numbers, for bytes that do not overlap where they are mixed. */
  lemma Head3Is(a: byte, b: byte, c: byte)
    requires b < 32 && c < 32
    ensures Head3(a, b, c) == 40799 * (1024 * a + 32 * b + c) % 0x1_0000_0000 / 32 % 16384
  {
    hide Xor;
    assert BitStream.Pow2(5) == 32;
    XorApart(a, b, 5);
    XorApart(a * 32 + b, c, 5);
  }

  lemma {:induction false} XorInjective(a: nat, c: nat, d: nat)
    requires Xor(a, c) == Xor(a, d)
    ensures c == d
    decreases a + c + d
  {
    if a != 0 || c != 0 || d != 0 {
      assert Xor(a, c) % 2 == (if a % 2 == c % 2 then 0 else 1);
      assert Xor(a, d) % 2 == (if a % 2 == d % 2 then 0 else 1);
      XorInjective(a / 2, c / 2, d / 2);
    }
  }

  /** Numbers that differ in the low `k` bits are less than 2^k apart. */
  lemma {:induction false} XorNear(a: nat, c: nat, d: nat, k: nat)
    requires c < BitStream.Pow2(k) && d < BitStream.Pow2(k)
    ensures var m: int := BitStream.Pow2(k); -m < Xor(a, c) - Xor(a, d) < m
    decreases k
  {
    if k > 0 {
      XorNear(a / 2, c / 2, d / 2, k - 1);
    }
  }

  /** No multiple of the factor by 1 to 255 comes within 32 of a multiple of 2^19. */
  lemma FactorSpreads(d: nat, q: int)
    requires 1 <= d < 256
    ensures !(-32 < FACTOR * d - KEPT * q < 32)
  {
    var e := 13 * q - d;
    assert FACTOR * d - KEPT * q == 6099 * q - FACTOR * e;
    if 0 < q < 20 && 0 < e < 3 {
      if e == 1 {
        assert q <= 6 || 7 <= q;
      } else {
        assert q <= 13 || 14 <= q;
      }
    }
  }

  lemma HashBits(p: nat)
    ensures p % 0x1_0000_0000 / 32 % HSIZE == p % KEPT / 32
  {
    var a, r := p / KEPT, p % KEPT;
    var b, c := a / 8192, a % 8192;
    assert p == 0x1_0000_0000 * b + KEPT * c + r;
    assert p % 0x1_0000_0000 == KEPT * c + r;
    assert (KEPT * c + r) / 32 == HSIZE * c + r / 32;
  }

  lemma HashTells(x: nat, y: nat)
    requires -256 < x - y < 256 && Hash(x) == Hash(y)
    ensures x == y
  {
    var p, q := FACTOR * x, FACTOR * y;
    HashBits(p);
    HashBits(q);
    if x > y {
      FactorSpreads(x - y, p / KEPT - q / KEPT);
    } else if y > x {
      FactorSpreads(y - x, q / KEPT - p / KEPT);
    }
  }

  /** The byte that the search does not compare. */
  lemma ThirdByteTold(a: byte, b: byte, c: byte, d: byte)
    requires Head3(a, b, c) == Head3(a, b, d)
    ensures c == d
  {
    hide Hash, Xor;
    var y := Xor(a * 32, b) * 32;
    assert BitStream.Pow2(8) == 256;
    XorNear(y, c, d, 8);
    HashTells(Xor(y, c), Xor(y, d));
    XorInjective(y, c, d);
  }
}
