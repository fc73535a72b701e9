/** The sliding-window copy shared by all LZO decoders, and the copy loops that implement it.
    A match may overlap its own output: byte by byte, each copied byte becomes available to the next. */
module Window {
  import opened Bytes

  /** The window `w` after `len` bytes have been copied from `off` bytes back, one at a time. */
  function Copy(w: seq<byte>, off: nat, len: nat): (r: seq<byte>)
    requires 1 <= off <= |w|
    ensures |r| == |w| + len
    ensures r[..|w|] == w
  {
    if len == 0 then w
    else
      var p := Copy(w, off, len - 1);
      p + [p[|p| - off]]
  }

  /** A copied window is periodic: beyond `w`, each byte repeats the one `off` places before it. */
  lemma {:induction false} CopyAt(w: seq<byte>, off: nat, len: nat, i: nat)
    requires 1 <= off <= |w| && i < len
    ensures Copy(w, off, len)[|w| + i] == Copy(w, off, len)[|w| + i - off]
  {
    if i < len - 1 {
      CopyAt(w, off, len - 1, i);
    }
  }

  /** Copying a+b bytes is copying a bytes and then b more. */
  lemma {:induction false} CopySplit(w: seq<byte>, off: nat, a: nat, b: nat)
    requires 1 <= off <= |w|
    ensures Copy(w, off, a + b) == Copy(Copy(w, off, a), off, b)
  {
    if b > 0 {
      CopySplit(w, off, a, b - 1);
    }
  }

  /** Where the data repeats itself at distance `off`, the copy reproduces the data. */
  lemma {:induction false} CopyReproduces(data: seq<byte>, pos: nat, off: nat, len: nat)
    requires 1 <= off <= pos && pos + len <= |data|
    requires forall i :: pos <= i < pos + len ==> data[i] == data[i - off]
    ensures Copy(data[..pos], off, len) == data[..pos + len]
  {
    if len > 0 {
      CopyReproduces(data, pos, off, len - 1);
      assert data[pos + len - 1] == data[pos + len - 1 - off];
    }
  }

  /** The window repeats itself for `len` bytes at distance `off` from position `p` on: a match. */
  ghost predicate Repeats(w: seq<byte>, p: nat, off: nat, len: nat) {
    1 <= off <= p && p + len <= |w| && forall i :: p <= i < p + len ==> w[i] == w[i - off]
  }

  /** When source and destination do not overlap, the copy is one block move. */
  lemma {:induction false} CopyDisjoint(w: seq<byte>, off: nat, len: nat)
    requires 1 <= off <= |w| && len <= off
    ensures Copy(w, off, len) == w + w[|w| - off..|w| - off + len]
  {
    if len > 0 {
      CopyDisjoint(w, off, len - 1);
    }
  }

  /** MEMCPY_DS and MEMCPY8_DS: copy `len` literal bytes from the input to the output cursor. */
  method CopyLiterals(out: array<byte>, op: nat, inp: seq<byte>, ip: nat, len: nat)
    requires op + len <= out.Length && ip + len <= |inp|
    modifies out
    ensures out[..op + len] == old(out[..op]) + inp[ip..ip + len]
    ensures out[op + len..] == old(out[op + len..])
  {
    var i := 0;
    while i < len
      invariant i <= len
      invariant out[..op + i] == old(out[..op]) + inp[ip..ip + i]
      invariant out[op + i..] == old(out[op + i..])
    {
      out[op + i] := inp[ip + i];
      i := i + 1;
    }
  }

  /** MEMMOVE_DS: the overlapping byte loop of the decoders. */
  method CopyMatch(out: array<byte>, op: nat, off: nat, len: nat)
    requires 1 <= off <= op && op + len <= out.Length
    modifies out
    ensures out[..op + len] == Copy(old(out[..op]), off, len)
    ensures out[op + len..] == old(out[op + len..])
  {
    var i := 0;
    while i < len
      invariant i <= len
      invariant out[..op + i] == Copy(old(out[..op]), off, i)
      invariant out[op + i..] == old(out[op + i..])
    {
      out[op + i] := out[op + i - off];
      i := i + 1;
    }
  }
}
