/** The interleaved bit and byte stream of LZO2A (lzo2a_9x.c, config2a.h). The writer reserves the byte for
    pending bits in the middle of the byte stream and fills it in later; the reader fetches it ahead of time.
    Whatever is written in whatever order, the reader meets every reserved byte exactly where it was put. */
module BitStream {
  import opened Bytes

  // ----- powers of two -----

  function Pow2(n: nat): (r: nat)
    ensures 1 <= r
  {
    if n == 0 then 1 else 2 * Pow2(n - 1)
  }

  lemma {:induction false} Pow2Add(a: nat, b: nat)
    ensures Pow2(a + b) == Pow2(a) * Pow2(b)
  {
    if a > 0 {
      Pow2Add(a - 1, b);
      assert Pow2(a + b) == 2 * (Pow2(a - 1) * Pow2(b)) == (2 * Pow2(a - 1)) * Pow2(b);
    }
  }

  lemma Pow2Eight()
    ensures Pow2(8) == 256
  {
    assert Pow2(4) == 16;
    Pow2Add(4, 4);
  }

  lemma MulLe(a: nat, b: nat, c: nat)
    requires a <= b
    ensures a * c <= b * c
  {
  }

  lemma MulStep(m: nat, d: int)
    ensures d >= 1 ==> m * d >= m
    ensures d <= -1 ==> m * d + m <= 0
  {
    if d <= -1 {
      MulLe(1, -d, m);
    }
  }

  lemma DivModUnique(a: nat, m: nat, r: nat, q: nat)
    requires a == r + m * q && r < m
    ensures a % m == r && a / m == q
  {
    var d := a / m - q;
    assert m * d == m * (a / m) - m * q == r - a % m;
    MulStep(m, d);
  }

  lemma MulSum(k: int, x: int, n: int, q: int)
    ensures k * (x + n * q) == x * k + (k * n) * q
    ensures k * (x - n * q) == x * k - (k * n) * q
  {
    assert k * (n * q) == (k * n) * q;
    assert k * (x + n * q) == k * x + k * (n * q);
    assert k * (x - n * q) == k * x - k * (n * q);
  }

  /** x << k */
  function Shl(x: nat, k: nat): nat {
    x * Pow2(k)
  }

  function Quotient(x: nat, m: nat): nat
    requires 1 <= m
  {
    x / m
  }

  /** x >> k */
  function Shr(x: nat, k: nat): nat {
    Quotient(x, Pow2(k))
  }

  /** x & ((1 << k) - 1) */
  function Mask(x: nat, k: nat): nat {
    x % Pow2(k)
  }

  // ----- what is written -----

  datatype Item = Bits(n: nat, x: nat) | Byte(v: byte)

  /** putbits(j,x) with at least one and at most seven bits. */
  predicate Valid(i: Item) {
    i.Bits? ==> 1 <= i.n <= 7 && i.x < Pow2(i.n)
  }

  type Items = s: seq<Item> | forall i :: i in s ==> Valid(i)

  /** What is still to come once `k` bits with value `b` are pending: the final value of the reserved byte
      (meaningless if no bits are pending) and the bytes that will follow the write position. */
  datatype Future = Future(reserved: byte, bytes: seq<byte>)

  function Emit(items: Items, k: nat, b: nat): Future
    requires k < 8
  {
    if items == [] then Future(LowByte(b), [])
    else
      match items[0]
      case Byte(v) =>
        var f := Emit(items[1..], k, b);
        Future(f.reserved, [v] + f.bytes)
      case Bits(n, x) =>
        var b', k' := b + Shl(x, k), k + n;
        if k' < 8 then
          var f := Emit(items[1..], k', b');
          if k == 0 then Future(0, [f.reserved] + f.bytes) else f
        else
          var f := Emit(items[1..], k' - 8, b' / 256);
          Future(LowByte(b'), if k' > 8 then [f.reserved] + f.bytes else f.bytes)
  }

  // ----- the writer -----

  /** The output so far, the position of the reserved byte, and the pending bits. */
  datatype Writer = Writer(out: seq<byte>, bitp: nat, b: nat, k: nat)

  ghost predicate WriterOk(w: Writer) {
    w.k < 8 && w.b < Pow2(w.k) && (w.k > 0 ==> w.bitp < |w.out|)
  }

  function PutByte(w: Writer, v: byte): Writer {
    w.(out := w.out + [v])
  }

  /** putbits: reserve a byte if no bits are pending, append the new bits, and when eight have come together store
      them in the reserved byte and reserve another if any are left over. */
  function PutBits(w: Writer, n: nat, x: nat): Writer
    requires w.k > 0 ==> w.bitp < |w.out|
  {
    var w1 := if w.k == 0 then w.(out := w.out + [0], bitp := |w.out|) else w;
    var b, k := w.b + Shl(x, w.k), w.k + n;
    if k < 8 then w1.(b := b, k := k)
    else
      var flushed := w1.out[w1.bitp := LowByte(b)];
      if k > 8 then Writer(flushed + [0], |flushed|, b / 256, k - 8) else Writer(flushed, w1.bitp, b / 256, 0)
  }

  function Put(w: Writer, i: Item): Writer
    requires w.k > 0 ==> w.bitp < |w.out|
  {
    match i
    case Byte(v) => PutByte(w, v)
    case Bits(n, x) => PutBits(w, n, x)
  }

  /** What the output will be, given what is still to come. */
  function Join(w: Writer, f: Future): seq<byte>
    requires w.k > 0 ==> w.bitp < |w.out|
  {
    (if w.k > 0 then w.out[w.bitp := f.reserved] else w.out) + f.bytes
  }

  lemma BitsFit(k: nat, n: nat, b: nat, x: nat)
    requires b < Pow2(k) && x < Pow2(n)
    ensures b + Shl(x, k) < Pow2(k + n)
  {
    Pow2Add(k, n);
    var p := Pow2(k);
    MulLe(x + 1, Pow2(n), p);
    assert (x + 1) * p == x * p + p;
  }

  lemma BitsCarry(k: nat, n: nat, b: nat, x: nat)
    requires b < Pow2(k) && x < Pow2(n) && 8 <= k + n
    ensures (b + Shl(x, k)) / 256 < Pow2(k + n - 8)
  {
    BitsFit(k, n, b, x);
    Pow2Add(8, k + n - 8);
    Pow2Eight();
  }

  lemma PutKeepsOk(w: Writer, i: Item)
    requires WriterOk(w) && Valid(i)
    ensures WriterOk(Put(w, i))
  {
    if i.Bits? {
      BitsFit(w.k, i.n, w.b, i.x);
      if w.k + i.n >= 8 {
        BitsCarry(w.k, i.n, w.b, i.x);
      }
    }
  }

  lemma EmitFirst(i: Item, rest: Items, k: nat, b: nat)
    requires Valid(i) && k < 8
    ensures Emit([i] + rest, k, b) ==
      match i
      case Byte(v) =>
        var f := Emit(rest, k, b);
        Future(f.reserved, [v] + f.bytes)
      case Bits(n, x) =>
        var b', k' := b + Shl(x, k), k + n;
        if k' < 8 then
          var f := Emit(rest, k', b');
          if k == 0 then Future(0, [f.reserved] + f.bytes) else f
        else
          var f := Emit(rest, k' - 8, b' / 256);
          Future(LowByte(b'), if k' > 8 then [f.reserved] + f.bytes else f.bytes)
  {
    hide Pow2, Shl;
    assert ([i] + rest)[1..] == rest;
  }

  lemma PutBitsJoin(w: Writer, n: nat, x: nat, rest: Items)
    requires WriterOk(w) && 1 <= n <= 7
    requires var w' := PutBits(w, n, x); w'.k < 8 && (w'.k > 0 ==> w'.bitp < |w'.out|)
    ensures var b, k := w.b + Shl(x, w.k), w.k + n;
            var w' := PutBits(w, n, x);
            Join(w', Emit(rest, w'.k, w'.b)) == Join(w,
              if k < 8 then
                var f := Emit(rest, k, b);
                if w.k == 0 then Future(0, [f.reserved] + f.bytes) else f
              else
                var f := Emit(rest, k - 8, b / 256);
                Future(LowByte(b), if k > 8 then [f.reserved] + f.bytes else f.bytes))
  {
    hide Pow2, Shl, Emit, LowByte;
  }

  lemma PutByteJoin(w: Writer, v: byte, rest: Items)
    requires WriterOk(w)
    ensures var w' := PutByte(w, v); var f := Emit(rest, w.k, w.b);
            Join(w', Emit(rest, w'.k, w'.b)) == Join(w, Future(f.reserved, [v] + f.bytes))
  {
    hide Emit;
  }

  /** Writing one item now or leaving it to the future makes no difference to the final output. */
  lemma PutJoin(w: Writer, i: Item, rest: Items)
    requires WriterOk(w) && Valid(i)
    ensures WriterOk(Put(w, i))
    ensures Join(w, Emit([i] + rest, w.k, w.b)) == Join(Put(w, i), Emit(rest, Put(w, i).k, Put(w, i).b))
  {
    hide Pow2, Shl, Emit, LowByte, Join, PutBits, PutByte;
    PutKeepsOk(w, i);
    EmitFirst(i, rest, w.k, w.b);
    match i
    case Byte(v) => PutByteJoin(w, v, rest);
    case Bits(n, x) => PutBitsJoin(w, n, x, rest);
  }

  // ----- the reader -----

  datatype Reader = Reader(ip: nat, b: nat, k: nat)

  /** NEEDBITS(n): fetch a byte if fewer than n bits are left. None where the C code reads past the end. */
  function NeedBits(s: seq<byte>, r: Reader, n: nat): Option<Reader> {
    if r.k >= n then Some(r)
    else if r.ip >= |s| then None
    else Some(Reader(r.ip + 1, r.b + Shl(s[r.ip], r.k), r.k + 8))
  }

  datatype Got = Got(value: nat, r: Reader)

  /** NEEDBITS(n), MASKBITS(n), DUMPBITS(n). */
  function ReadBits(s: seq<byte>, r: Reader, n: nat): (g: Option<Got>)
    ensures g.Some? ==> r.ip <= g.value.r.ip && (r.ip <= |s| ==> g.value.r.ip <= |s|)
  {
    match NeedBits(s, r, n)
    case None => None
    case Some(r1) =>
      if r1.k < n then None
      else Some(Got(Mask(r1.b, n), Reader(r1.ip, Shr(r1.b, n), r1.k - n)))
  }

  function ReadByte(s: seq<byte>, r: Reader): (g: Option<Got>)
    ensures g.Some? ==> g.value.r.ip == r.ip + 1 <= |s| && g.value.value < 256
  {
    if r.ip >= |s| then None else Some(Got(s[r.ip], r.(ip := r.ip + 1)))
  }

  /** The reader stands where the writer stood when `items` were still to be written and `k` bits with value
      `b` were pending: it is at the same byte position, and holds the bits of the reserved byte that the
      writer had not filled yet. */
  ghost predicate Facing(s: seq<byte>, r: Reader, items: Items, k: nat, b: nat)
    requires k < 8
  {
    var f := Emit(items, k, b);
    && r.ip <= |s| && s[r.ip..] == f.bytes
    && r.k == (if k == 0 then 0 else 8 - k)
    && r.b == (if k == 0 then 0 else Shr(f.reserved, k))
  }

  /** A number whose low k + n bits are x and, below it, b. */
  lemma LowBits(p: nat, k: nat, n: nat, b: nat, x: nat)
    requires b < Pow2(k) && x < Pow2(n) && Mask(p, k + n) == b + Shl(x, k)
    ensures Mask(p, k) == b && Mask(Shr(p, k), n) == x && Shr(Shr(p, k), n) == Shr(p, k + n)
  {
    hide Pow2;
    Pow2Add(k, n);
    LowFields(p, Pow2(k), Pow2(n), b, x);
  }

  lemma LowFields(p: nat, a: nat, c: nat, b: nat, x: nat)
    requires b < a && x < c && 1 <= a * c && p % (a * c) == b + x * a
    ensures p % a == b && p / a % c == x && p / a / c == p / (a * c)
  {
    var m := a * c;
    assert p == p % m + m * (p / m);
    LowFieldsOf(p, a, c, b, x, p / m);
  }

  lemma LowFieldsOf(p: nat, a: nat, c: nat, b: nat, x: nat, q: nat)
    requires b < a && x < c && p == b + x * a + (a * c) * q
    ensures p % a == b && p / a % c == x && p / a / c == q
  {
    var y := x + c * q;
    assert p == b + a * y by { MulSum(a, x, c, q); }
    DivModUnique(p, a, b, y);
    DivModUnique(y, c, x, q);
  }

  lemma Below256(k: nat)
    requires k < 8
    ensures Pow2(k) <= 128
  {
    Pow2Add(k, 7 - k);
    assert Pow2(3) == 8;
    Pow2Add(3, 4);
    assert Pow2(4) == 16;
    MulLe(1, Pow2(7 - k), Pow2(k));
  }

  lemma ByteKeepsBits(k: nat, b: nat)
    requires k < 8 && b < Pow2(k)
    ensures Mask(LowByte(b), k) == b
  {
    hide Pow2;
    Below256(k);
    DivModUnique(b, 256, b, 0);
    DivModUnique(b, Pow2(k), b, 0);
  }

  /** The reserved byte ends with the bits that were pending. */
  lemma {:induction false} ReservedKeepsBits(items: Items, k: nat, b: nat)
    requires 0 < k < 8 && b < Pow2(k)
    ensures Mask(Emit(items, k, b).reserved, k) == b
  {
    hide Pow2, Shl, Mask;
    if items == [] {
      ByteKeepsBits(k, b);
    } else if items[0].Byte? {
      ReservedKeepsBits(items[1..], k, b);
    } else {
      var n, x := items[0].n, items[0].x;
      assert Valid(items[0]);
      BitsFit(k, n, b, x);
      if k + n < 8 {
        ReservedKeepsBits(items[1..], k + n, b + Shl(x, k));
        LowBits(Emit(items, k, b).reserved, k, n, b, x);
      } else {
        CarryBits(k, n, b, x);
      }
    }
  }

  /** Filling up the reserved byte: its low k bits are the pending ones, the others the low bits of x. */
  lemma CarryBits(k: nat, n: nat, b: nat, x: nat)
    requires 0 < k < 8 && 8 <= k + n && b < Pow2(k) && x < Pow2(n)
    ensures var p, h := LowByte(b + Shl(x, k)), (b + Shl(x, k)) / 256;
            Mask(p, k) == b && Shr(p, k) + Shl(h, 8 - k) == x
  {
    hide Pow2;
    Pow2Eight();
    Pow2Add(k, 8 - k);
    Carry(b, x, Pow2(k), Pow2(8 - k));
  }

  lemma Carry(b: nat, x: nat, m: nat, t: nat)
    requires m * t == 256 && b < m
    ensures var p, h := (b + x * m) % 256, (b + x * m) / 256; p % m == b && p / m + h * t == x
  {
    var p, h := (b + x * m) % 256, (b + x * m) / 256;
    MulSum(m, x, t, h);
    CarryArith(p, m, b, x - t * h);
  }

  lemma CarryArith(p: nat, m: nat, b: nat, q: int)
    requires p == b + m * q && b < m
    ensures p % m == b && p / m == q
  {
    MulStep(m, q);
    DivModUnique(p, m, b, q);
  }

  // ----- replay -----

  /** The pending bits after one more item. */
  function PendingAfter(k: nat, b: nat, i: Item): (r: (nat, nat))
    requires k < 8 && Valid(i)
    ensures r.0 < 8
  {
    match i
    case Byte(_) => (k, b)
    case Bits(n, x) =>
      if k + n < 8 then (k + n, b + Shl(x, k)) else (k + n - 8, (b + Shl(x, k)) / 256)
  }

  lemma FreshByte(p: nat, n: nat)
    ensures 0 + Shl(p, 0) == p
  {
  }

  /** Bits that start a new byte: the reader fetches the byte the writer reserves. */
  lemma FacingFresh(s: seq<byte>, r: Reader, n: nat, x: nat, rest: Items)
    requires Valid(Bits(n, x)) && Facing(s, r, [Bits(n, x)] + rest, 0, 0)
    ensures var next := Reader(r.ip + 1, if r.ip < |s| then Shr(s[r.ip], n) else 0, 8 - n);
            ReadBits(s, r, n) == Some(Got(x, next)) && Facing(s, next, rest, n, x)
  {
    hide Pow2, Mask, Shr;
    EmitFirst(Bits(n, x), rest, 0, 0);
    FreshByte(x, n);
    var f := Emit(rest, n, x);
    assert s[r.ip] == s[r.ip..][0] == f.reserved;
    assert s[r.ip + 1..] == s[r.ip..][1..] == f.bytes;
    FreshByte(s[r.ip], n);
    ReservedKeepsBits(rest, n, x);
  }

  /** Bits that still fit into the open byte: nothing is fetched. */
  lemma FacingInside(s: seq<byte>, r: Reader, n: nat, x: nat, rest: Items, k: nat, b: nat)
    requires Valid(Bits(n, x)) && 0 < k && k + n < 8 && b < Pow2(k)
    requires Facing(s, r, [Bits(n, x)] + rest, k, b)
    ensures var next := Reader(r.ip, Shr(r.b, n), 8 - k - n);
            ReadBits(s, r, n) == Some(Got(x, next)) && Facing(s, next, rest, k + n, b + Shl(x, k))
  {
    hide Pow2, Mask, Shr, Shl;
    EmitFirst(Bits(n, x), rest, k, b);
    BitsFit(k, n, b, x);
    var p := Emit(rest, k + n, b + Shl(x, k)).reserved;
    ReservedKeepsBits(rest, k + n, b + Shl(x, k));
    LowBits(p, k, n, b, x);
  }

  /** Bits that complete the open byte exactly: nothing is fetched, and nothing is left over. */
  lemma FacingExact(s: seq<byte>, r: Reader, n: nat, x: nat, rest: Items, k: nat, b: nat)
    requires Valid(Bits(n, x)) && k + n == 8 && b < Pow2(k)
    requires Facing(s, r, [Bits(n, x)] + rest, k, b)
    ensures var next := Reader(r.ip, 0, 0);
            ReadBits(s, r, n) == Some(Got(x, next)) && Facing(s, next, rest, 0, (b + Shl(x, k)) / 256)
  {
    hide Pow2, Mask, Shr, Shl;
    EmitFirst(Bits(n, x), rest, k, b);
    CarryBits(k, n, b, x);
    BitsCarry(k, n, b, x);
    var h := (b + Shl(x, k)) / 256;
    Small(x, n, h);
  }

  lemma Small(x: nat, n: nat, h: nat)
    requires x < Pow2(n)
    ensures Mask(x, n) == x && Shr(x, n) == 0
    ensures h < Pow2(0) ==> h == 0 && Shl(h, n) == 0
  {
    DivModUnique(x, Pow2(n), x, 0);
  }

  /** Bits that complete the open byte and run over into the next one: the reader fetches that one now. */
  lemma FacingCarry(s: seq<byte>, r: Reader, n: nat, x: nat, rest: Items, k: nat, b: nat)
    requires Valid(Bits(n, x)) && k < 8 < k + n && b < Pow2(k)
    requires Facing(s, r, [Bits(n, x)] + rest, k, b)
    ensures r.ip < |s|
    ensures var next := Reader(r.ip + 1, Shr(s[r.ip], k + n - 8), 16 - k - n);
            ReadBits(s, r, n) == Some(Got(x, next)) && Facing(s, next, rest, k + n - 8, (b + Shl(x, k)) / 256)
  {
    hide Pow2, Mask, Shr, Shl;
    var h, m := (b + Shl(x, k)) / 256, k + n - 8;
    EmitFirst(Bits(n, x), rest, k, b);
    CarryBits(k, n, b, x);
    BitsCarry(k, n, b, x);
    var f := Emit(rest, m, h);
    assert s[r.ip] == s[r.ip..][0] == f.reserved;
    assert s[r.ip + 1..] == s[r.ip..][1..] == f.bytes;
    ReservedKeepsBits(rest, m, h);
    OverTwoBytes(r.b, f.reserved, k, n, x, h);
  }

  lemma OverTwoBytes(low: nat, p: nat, k: nat, n: nat, x: nat, h: nat)
    requires k < 8 < k + n && x < Pow2(n) && Mask(p, k + n - 8) == h && low + Shl(h, 8 - k) == x
    ensures Mask(low + Shl(p, 8 - k), n) == x && Shr(low + Shl(p, 8 - k), n) == Shr(p, k + n - 8)
  {
    hide Pow2;
    Pow2Add(8 - k, k + n - 8);
    TwoFields(low, p, Pow2(8 - k), Pow2(k + n - 8), x, h);
  }

  lemma TwoFields(low: nat, p: nat, a: nat, c: nat, x: nat, h: nat)
    requires 1 <= c && x < a * c && p % c == h && low + h * a == x
    ensures (low + p * a) % (a * c) == x && (low + p * a) / (a * c) == p / c
  {
    var q := p / c;
    MulSum(a, h, c, q);
    DivModUnique(low + p * a, a * c, x, q);
  }

  /** One request of the reader returns what the writer wrote, and leaves the two facing each other. */
  lemma FacingBits(s: seq<byte>, r: Reader, n: nat, x: nat, rest: Items, k: nat, b: nat) returns (next: Reader)
    requires Valid(Bits(n, x)) && k < 8 && b < Pow2(k) && Facing(s, r, [Bits(n, x)] + rest, k, b)
    ensures ReadBits(s, r, n) == Some(Got(x, next))
    ensures var (k', b') := PendingAfter(k, b, Bits(n, x)); b' < Pow2(k') && Facing(s, next, rest, k', b')
  {
    hide Facing, ReadBits, Shl, Emit, Pow2;
    var g := ReadBits(s, r, n);
    if k == 0 {
      ZeroPending(b, x);
      FacingFresh(s, r, n, x, rest);
    } else if k + n < 8 {
      BitsFit(k, n, b, x);
      FacingInside(s, r, n, x, rest, k, b);
    } else {
      BitsCarry(k, n, b, x);
      if k + n == 8 {
        FacingExact(s, r, n, x, rest, k, b);
      } else {
        FacingCarry(s, r, n, x, rest, k, b);
      }
    }
    next := g.value.r;
  }

  lemma ZeroPending(b: nat, x: nat)
    requires b < Pow2(0)
    ensures b == 0 && Shl(x, 0) == x
  {
  }

  lemma FacingByte(s: seq<byte>, r: Reader, v: byte, rest: Items, k: nat, b: nat) returns (next: Reader)
    requires k < 8 && Facing(s, r, [Byte(v)] + rest, k, b)
    ensures ReadByte(s, r) == Some(Got(v, next)) && Facing(s, next, rest, k, b)
  {
    hide Pow2, Shr;
    EmitFirst(Byte(v), rest, k, b);
    var f := Emit(rest, k, b);
    assert s[r.ip] == s[r.ip..][0] == v;
    assert s[r.ip + 1..] == s[r.ip..][1..] == f.bytes;
    next := r.(ip := r.ip + 1);
  }

  /** The reader asks for what the writer put: bits of the same widths, bytes in the same places. */
  function Replay(s: seq<byte>, r: Reader, items: seq<Item>): Option<(seq<nat>, Reader)>
    decreases |items|
  {
    if items == [] then Some(([], r))
    else
      var g := match items[0] case Bits(n, _) => ReadBits(s, r, n) case Byte(_) => ReadByte(s, r);
      match g
      case None => None
      case Some(got) =>
        match Replay(s, got.r, items[1..])
        case None => None
        case Some((values, end)) => Some(([got.value] + values, end))
  }

  function Value(i: Item): nat {
    match i
    case Bits(_, x) => x
    case Byte(v) => v
  }

  function Values(items: seq<Item>): seq<nat> {
    if items == [] then [] else [Value(items[0])] + Values(items[1..])
  }

  lemma {:induction false} ReplayFrom(s: seq<byte>, r: Reader, items: Items, k: nat, b: nat)
    requires k < 8 && b < Pow2(k) && Facing(s, r, items, k, b)
    ensures var p := Replay(s, r, items); p.Some? && p.value.0 == Values(items) && p.value.1.ip == |s|
    decreases |items|
  {
    hide Pow2, ReadBits, ReadByte;
    if items == [] {
      assert s[r.ip..] == [];
    } else {
      hide Facing;
      var i, rest := items[0], items[1..];
      assert items == [i] + rest;
      assert Valid(i);
      var (k', b') := PendingAfter(k, b, i);
      match i {
        case Bits(n, x) =>
          var next := FacingBits(s, r, n, x, rest, k, b);
          ReplayFrom(s, next, rest, k', b');
        case Byte(v) =>
          var next := FacingByte(s, r, v, rest, k, b);
          ReplayFrom(s, next, rest, k', b');
      }
    }
  }

  /** The whole stream: everything `items` wrote comes back in order, and the last byte is read last. */
  lemma ReplayAll(items: Items)
    ensures var s := Emit(items, 0, 0).bytes; var p := Replay(s, Reader(0, 0, 0), items);
            p.Some? && p.value.0 == Values(items) && p.value.1.ip == |s|
  {
    hide Replay;
    var s := Emit(items, 0, 0).bytes;
    assert s[0..] == s;
    ReplayFrom(s, Reader(0, 0, 0), items, 0, 0);
  }

  // ----- how much is written -----

  function Width(i: Item): nat {
    match i case Bits(n, _) => n case Byte(_) => 8
  }

  /** Bits in the output, not counting the free bits of the reserved byte. */
  function Used(w: Writer): int {
    8 * |w.out| - (if w.k > 0 then 8 - w.k else 0)
  }

  /** The reserved bytes waste nothing: every item adds exactly its own width. */
  lemma PutUses(w: Writer, i: Item)
    requires WriterOk(w) && Valid(i)
    ensures Used(Put(w, i)) == Used(w) + Width(i)
  {
    hide Pow2, Shl;
  }

  // ----- streams -----

  const EMPTY: Writer := Writer([], 0, 0, 0)

  function PutAll(items: Items): (w: Writer)
    ensures WriterOk(w)
  {
    if items == [] then EMPTY
    else
      var w := PutAll(items[..|items| - 1]);
      PutKeepsOk(w, items[|items| - 1]);
      Put(w, items[|items| - 1])
  }

  /** The writer's state after some items, joined with what the others will add, is the whole stream. */
  lemma {:induction false} PutAllJoin(items: Items, rest: Items)
    ensures var w := PutAll(items); Join(w, Emit(rest, w.k, w.b)) == Emit(items + rest, 0, 0).bytes
  {
    hide Emit, Put, Join, Pow2;
    if items == [] {
      assert [] + rest == rest;
      JoinEmpty(rest);
    } else {
      var init: Items, i := items[..|items| - 1], items[|items| - 1];
      PutAllJoin(init, [i] + rest);
      PutJoin(PutAll(init), i, rest);
      assert init + ([i] + rest) == items + rest;
    }
  }

  lemma JoinEmpty(rest: Items)
    ensures Join(EMPTY, Emit(rest, 0, 0)) == Emit(rest, 0, 0).bytes
  {
  }
}
