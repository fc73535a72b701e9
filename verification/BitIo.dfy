/** The put macros of lzo2a_9x.c and the get macros of config2a.h, updating b, k, bitp, op and ip in place. */
module BitIo {
  import opened Bytes
  import opened BitStream

  class BitWriter {
    const out: array<byte>
    var op: nat
    var bitp: nat
    var b: nat
    var k: nat
    ghost var w: Writer   // the stream written so far, as BitStream specifies it

    /** The buffer holds that stream, except for the reserved byte, which is not written yet. */
    ghost predicate Valid()
      reads this, out
    {
      && WriterOk(w)
      && op == |w.out| <= out.Length && b == w.b && k == w.k && (k > 0 ==> bitp == w.bitp)
      && forall i :: 0 <= i < op && !(k > 0 && i == bitp) ==> out[i] == w.out[i]
    }

    constructor (out: array<byte>)
      ensures Valid() && this.out == out && w == EMPTY
    {
      this.out := out;
      op, bitp, b, k := 0, 0, 0, 0;
      w := EMPTY;
      new;
      assert Pow2(0) == 1;
    }

    method PutByte(v: byte)
      requires Valid() && op < out.Length
      modifies this, out
      ensures Valid() && w == Put(old(w), Byte(v))
    {
      out[op] := v;
      op := op + 1;
      w := Put(w, Byte(v));
    }

    method PutBits(n: nat, x: nat)
      requires Valid() && BitStream.Valid(Bits(n, x))
      requires |Put(w, Bits(n, x)).out| <= out.Length
      modifies this, out
      ensures Valid() && w == Put(old(w), Bits(n, x))
    {
      hide Pow2, Shl;
      PutKeepsOk(w, Bits(n, x));
      w := Put(w, Bits(n, x));
      if k == 0 {
        bitp := op;
        op := op + 1;
      }
      b := b + Shl(x, k);
      k := k + n;
      if k >= 8 {
        out[bitp] := LowByte(b);
        b := b / 256;
        k := k - 8;
        if k > 0 {
          bitp := op;
          op := op + 1;
        }
      }
    }

    /** Flush the remaining bits: the buffer now is the whole stream. */
    method Flush()
      requires Valid()
      modifies this, out
      ensures op == old(op) <= out.Length
      ensures out[..op] == Join(old(w), Emit([], old(w).k, old(w).b))
      ensures b == 0 && k == 0
    {
      hide Pow2;
      NothingPending(w);
      if k > 0 {
        out[bitp] := LowByte(b);
        b, k := 0, 0;
      }
    }
  }

  lemma NothingPending(w: Writer)
    requires WriterOk(w)
    ensures w.k == 0 ==> w.b == 0
  {
  }

  class BitReader {
    const inp: seq<byte>
    var ip: nat
    var b: nat
    var k: nat

    constructor (inp: seq<byte>)
      ensures this.inp == inp && AsReader() == Reader(0, 0, 0)
    {
      this.inp := inp;
      ip, b, k := 0, 0, 0;
    }

    ghost function AsReader(): Reader
      reads this
    {
      Reader(ip, b, k)
    }

    /** The reader's three macros in a row: fetch a byte if bits are short, take the low `n` bits, drop them. */
    method GetBits(n: nat) returns (x: nat)
      requires ReadBits(inp, AsReader(), n).Some?
      modifies this
      ensures ReadBits(inp, old(AsReader()), n) == Some(Got(x, AsReader()))
    {
      hide Pow2, Shl, Shr, Mask;
      if k < n {
        b := b + Shl(inp[ip], k);
        ip := ip + 1;
        k := k + 8;
      }
      x := Mask(b, n);
      b := Shr(b, n);
      k := k - n;
    }

    /** The next whole byte. */
    method GetByte() returns (v: byte)
      requires ip < |inp|
      modifies this
      ensures ReadByte(inp, old(AsReader())) == Some(Got(v, AsReader()))
    {
      v := inp[ip];
      ip := ip + 1;
    }
  }
}
