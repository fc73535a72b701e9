/** lzo_adler32 (lzo_util.c): the two sums with the modulo put off to the end of every block of 5552 bytes,
    against the sums of section 2.2 of RFC 1950, which take it after every byte. */
module Adler32 {
  import opened Bytes

  const BASE: nat := 65521
  const NMAX: nat := 5552

  /** lzo_uint32. Every assignment to a variable of this type below is proved not to wrap around. */
  type word = x: int | 0 <= x < 0x1_0000_0000

  datatype Sums = Sums(a: nat, b: nat)

  // ----- the definition -----

  /** Both sums modulo 65521 after every byte. */
  function Checked(s: Sums, data: seq<byte>): Sums {
    if data == [] then s
    else
      var p := Checked(s, data[..|data| - 1]);
      var a := (p.a + data[|data| - 1]) % 65521;
      Sums(a, (p.b + a) % 65521)
  }

  function Pack(s: Sums): nat {
    s.b * 65536 + s.a
  }

  function Unpack(adler: word): (s: Sums)
    ensures s.a < 65536 && s.b < 65536 && Pack(s) == adler
  {
    Sums(adler % 65536, adler / 65536)
  }

  function Adler(start: word, data: seq<byte>): (r: word) {
    CheckedSmall(Unpack(start), data);
    Pack(Checked(Unpack(start), data))
  }

  lemma CheckedSmall(s: Sums, data: seq<byte>)
    requires s.a < 65536 && s.b < 65536
    ensures Checked(s, data).a < 65536 && Checked(s, data).b < 65536
  {
  }

  // ----- composition -----

  lemma {:induction false} CheckedAppend(s: Sums, x: seq<byte>, y: seq<byte>)
    ensures Checked(s, x + y) == Checked(Checked(s, x), y)
  {
    if y == [] {
      assert x + y == x;
    } else {
      var init := y[..|y| - 1];
      assert (x + y)[..|x + y| - 1] == x + init;
      CheckedAppend(s, x, init);
    }
  }

  /** Checking a buffer in two parts, the second starting from the result of the first. */
  lemma AdlerAppend(start: word, x: seq<byte>, y: seq<byte>)
    ensures Adler(start, x + y) == Adler(Adler(start, x), y)
  {
    var s := Unpack(start);
    CheckedAppend(s, x, y);
    CheckedSmall(s, x);
    PackUnpack(Checked(s, x));
  }

  lemma PackUnpack(s: Sums)
    requires s.a < 65536 && s.b < 65536
    ensures Pack(s) < 0x1_0000_0000 && Unpack(Pack(s)) == s
  {
  }

  // ----- the sums without any modulo -----

  function Raw(s: Sums, data: seq<byte>): Sums {
    if data == [] then s
    else
      var p := Raw(s, data[..|data| - 1]);
      var a := p.a + data[|data| - 1];
      Sums(a, p.b + a)
  }

  lemma {:induction false} RawAppend(s: Sums, x: seq<byte>, y: seq<byte>)
    ensures Raw(s, x + y) == Raw(Raw(s, x), y)
  {
    if y == [] {
      assert x + y == x;
    } else {
      var init := y[..|y| - 1];
      assert (x + y)[..|x + y| - 1] == x + init;
      RawAppend(s, x, init);
    }
  }

  /** Two states that agree modulo 65521. */
  predicate Congruent(s: Sums, t: Sums) {
    s.a % BASE == t.a % BASE && s.b % BASE == t.b % BASE
  }

  lemma AddCongruent(x: nat, y: nat, n: nat)
    requires x % BASE == y % BASE
    ensures (x + n) % BASE == (y + n) % BASE
  {
    var d := y / BASE - x / BASE;
    assert y + n == x + n + BASE * d;
    if d >= 0 {
      AddMultiples(x + n, d);
    } else {
      AddMultiples(y + n, -d);
    }
  }

  lemma {:induction false} AddMultiples(x: nat, d: nat)
    ensures (x + BASE * d) % BASE == x % BASE
  {
    if d > 0 {
      AddMultiples(x, d - 1);
      AddOne(x + BASE * (d - 1));
    }
  }

  lemma AddOne(x: nat)
    ensures (x + BASE) % BASE == x % BASE
  {
  }

  lemma ModTwice(x: nat)
    ensures x % BASE % BASE == x % BASE
  {
  }

  /** Putting the modulo off does not change what it gives in the end. */
  lemma {:induction false} RawCongruent(s: Sums, t: Sums, data: seq<byte>)
    requires Congruent(s, t)
    ensures Congruent(Raw(s, data), Checked(t, data))
    ensures data != [] ==> Checked(t, data).a < BASE && Checked(t, data).b < BASE
  {
    if data != [] {
      var init, c := data[..|data| - 1], data[|data| - 1];
      RawCongruent(s, t, init);
      var p, q := Raw(s, init), Checked(t, init);
      RawStep(p, q, c);
    }
  }

  lemma RawStep(p: Sums, q: Sums, c: byte)
    requires Congruent(p, q)
    ensures var a := (q.a + c) % BASE; Congruent(Sums(p.a + c, p.b + (p.a + c)), Sums(a, (q.b + a) % BASE))
  {
    var a := (q.a + c) % BASE;
    AddCongruent(p.a, q.a, c);
    ModTwice(q.a + c);
    AddCongruent(p.a + c, a, p.b);
    AddCongruent(p.b, q.b, a);
    ModTwice(q.b + a);
  }

  // ----- how large the sums get -----

  lemma Products(a: nat, n: nat)
    requires 1 <= n
    ensures a * n == a * (n - 1) + a
    ensures n * (n + 1) == (n - 1) * (n - 1 + 1) + 2 * n
  {
  }

  /** Each byte adds at most 255 to the first sum, and the first sum to the second. */
  lemma {:induction false} RawBound(s: Sums, data: seq<byte>)
    ensures Raw(s, data).a <= s.a + 255 * |data|
    ensures 2 * Raw(s, data).b <= 2 * s.b + 2 * (s.a * |data|) + 255 * (|data| * (|data| + 1))
  {
    if data != [] {
      var n := |data|;
      RawBound(s, data[..n - 1]);
      Products(s.a, n);
    }
  }

  /** The largest sums n bytes can make: every byte 255. */
  lemma {:induction false} RawWorst(s: Sums, n: nat)
    ensures Raw(s, seq(n, _ => 255)).a == s.a + 255 * n
    ensures 2 * Raw(s, seq(n, _ => 255)).b == 2 * s.b + 2 * (s.a * n) + 255 * (n * (n + 1))
  {
    if n > 0 {
      assert seq<byte>(n, _ => 255)[..n - 1] == seq(n - 1, _ => 255);
      RawWorst(s, n - 1);
      Products(s.a, n);
    }
  }

  lemma Monotone(n: nat, m: nat)
    requires n <= m
    ensures n * (n + 1) <= m * (m + 1)
  {
  }

  /** 5552 is exactly right: from sums below 65521, and even from any 16-bit sums a caller may pass, no block
      of that length or less overflows 32 bits, and every greater length has a block that does. */
  lemma BlockLengthExact(n: nat)
    ensures n <= NMAX ==> forall s: Sums, data: seq<byte> | s.a < 65536 && s.b < 65536 && |data| == n ::
                            Raw(s, data).a < 0x1_0000_0000 && Raw(s, data).b < 0x1_0000_0000
    ensures n > NMAX ==> Raw(Sums(BASE - 1, BASE - 1), seq(n, _ => 255)).b >= 0x1_0000_0000
  {
    if n <= NMAX {
      forall s: Sums, data: seq<byte> | s.a < 65536 && s.b < 65536 && |data| == n
        ensures Raw(s, data).a < 0x1_0000_0000 && Raw(s, data).b < 0x1_0000_0000
      {
        BlockFits(s, data);
      }
    } else {
      RawWorst(Sums(BASE - 1, BASE - 1), n);
      Monotone(NMAX + 1, n);
    }
  }

  lemma BlockFits(s: Sums, data: seq<byte>)
    requires s.a < 65536 && s.b < 65536 && |data| <= NMAX
    ensures Raw(s, data).a < 0x1_0000_0000 && Raw(s, data).b < 0x1_0000_0000
  {
    hide Raw;
    var n := |data|;
    RawBound(s, data);
    Monotone(n, NMAX);
    Times(s.a, 65535, n);
  }

  lemma Times(x: nat, y: nat, n: nat)
    requires x <= y
    ensures x * n <= y * n
  {
  }

  // ----- the loops -----

  /** What the sums of a block have in common with its beginning. */
  lemma BlockGrows(s: Sums, buf: seq<byte>, i: nat, m: nat, n: nat)
    requires i + m + n <= |buf|
    ensures Raw(Raw(s, buf[i..i + m]), buf[i + m..i + m + n]) == Raw(s, buf[i..i + m + n])
  {
    RawAppend(s, buf[i..i + m], buf[i + m..i + m + n]);
    assert buf[i..i + m] + buf[i + m..i + m + n] == buf[i..i + m + n];
  }

  lemma RawOne(s: Sums, buf: seq<byte>, i: nat)
    requires i < |buf|
    ensures Raw(s, buf[i..i + 1]) == Sums(s.a + buf[i], s.b + s.a + buf[i])
  {
    assert buf[i..i + 1] == [buf[i]] && [buf[i]][..0] == [];
  }

  /** LZO_DO16, in a block that starts at `start`: sixteen bytes, each added to the first sum and that to the second. */
  method Do16(s1: word, s2: word, buf: seq<byte>, i: nat, ghost s: Sums, ghost start: nat) returns (t1: word, t2: word)
    requires s.a < 65536 && s.b < 65536
    requires start <= i && i + 16 <= |buf| && i + 16 - start <= NMAX
    requires Sums(s1, s2) == Raw(s, buf[start..i])
    ensures Sums(t1, t2) == Raw(s, buf[start..i + 16])
  {
    hide Raw;
    t1, t2 := s1, s2;
    for k := 0 to 16
      invariant Sums(t1, t2) == Raw(s, buf[start..i + k])
    {
      BlockGrows(s, buf, start, i + k - start, 1);
      RawOne(Raw(s, buf[start..i + k]), buf, i + k);
      BlockFits(s, buf[start..i + k + 1]);
      t1 := t1 + buf[i + k];
      t2 := t2 + t1;
    }
  }

  /** One block: at most 5552 bytes, then the modulo. */
  method Block(s1: word, s2: word, buf: seq<byte>, i: nat, k0: nat) returns (t1: word, t2: word)
    requires s1 < 65536 && s2 < 65536 && 1 <= k0 <= NMAX && i + k0 <= |buf|
    ensures Sums(t1, t2) == Checked(Sums(s1, s2), buf[i..i + k0])
    ensures t1 < BASE && t2 < BASE
  {
    hide Raw, Checked;
    ghost var s := Sums(s1, s2);
    var k, j := k0, i;
    t1, t2 := s1, s2;
    RawNone(s, buf, i);
    while k >= 16
      invariant 0 <= k <= k0 && j + k == i + k0 && Sums(t1, t2) == Raw(s, buf[i..j])
    {
      t1, t2 := Do16(t1, t2, buf, j, s, i);
      j := j + 16;
      k := k - 16;
    }
    while k > 0
      invariant 0 <= k <= k0 && j + k == i + k0 && Sums(t1, t2) == Raw(s, buf[i..j])
    {
      BlockGrows(s, buf, i, j - i, 1);
      RawOne(Raw(s, buf[i..j]), buf, j);
      BlockFits(s, buf[i..j + 1]);
      t1 := t1 + buf[j];
      j := j + 1;
      t2 := t2 + t1;
      k := k - 1;
    }
    RawCongruent(s, s, buf[i..i + k0]);
    t1 := t1 % BASE;
    t2 := t2 % BASE;
  }

  lemma RawNone(s: Sums, buf: seq<byte>, i: nat)
    requires i <= |buf|
    ensures Raw(s, buf[i..i]) == s
  {
  }

  /** lzo_adler32: None stands for a null buffer. */
  method Adler32(adler: word, buf: Option<seq<byte>>) returns (r: word)
    ensures r == if buf.None? then 1 else Adler(adler, buf.value)
  {
    hide Checked, Pack;
    var start := Unpack(adler);
    var s1: word, s2: word := start.a, start.b;
    if buf.None? {
      return 1;
    }
    var s := buf.value;
    var i := 0;
    CheckedNone(start, s);
    while i < |s|
      invariant 0 <= i <= |s| && s1 < 65536 && s2 < 65536
      invariant Sums(s1, s2) == Checked(start, s[0..i])
    {
      var k := if |s| - i < NMAX then |s| - i else NMAX;
      s1, s2 := Block(s1, s2, s, i, k);
      CheckedAppend(start, s[0..i], s[i..i + k]);
      assert s[0..i] + s[i..i + k] == s[0..i + k];
      i := i + k;
    }
    assert s[0..|s|] == s;
    PackUnpack(Sums(s1, s2));
    r := Pack(Sums(s1, s2));
  }

  lemma CheckedNone(s: Sums, buf: seq<byte>)
    ensures Checked(s, buf[0..0]) == s
  {
  }
}
