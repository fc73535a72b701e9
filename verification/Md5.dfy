/** MD5 streaming (md5c.c): MD5Init, MD5Update and MD5Final refine the one-shot digest of RFC 1321, sections
    3.1 to 3.5, for every way of cutting the message into chunks. The 64 steps that mix one block of sixteen
    words into the state are a parameter. */
module Md5 {
  import opened Bytes
  import opened Window

  const TWO32: nat := 0x1_0000_0000

  type word = w: int | 0 <= w < 0x1_0000_0000
  type State = s: seq<word> | |s| == 4 witness [0, 0, 0, 0]

  /** MD5Transform after its call of Decode. */
  type Mixer = (State, seq<word>) -> State

  const INIT: State := [0x67452301, 0xefcdab89, 0x98badcfe, 0x10325476]

  // ----- words and bytes, low byte first (Encode and Decode) -----

  function EncodeWord(w: word): seq<byte> {
    [w % 256, w / 256 % 256, w / 65536 % 256, w / 16777216]
  }

  function EncodeWords(ws: seq<word>): (r: seq<byte>)
    ensures |r| == 4 * |ws|
  {
    if ws == [] then [] else EncodeWords(ws[..|ws| - 1]) + EncodeWord(ws[|ws| - 1])
  }

  function DecodeWord(b0: byte, b1: byte, b2: byte, b3: byte): word {
    (b0 as int) + 256 * (b1 as int) + 65536 * (b2 as int) + 16777216 * (b3 as int)
  }

  function DecodeWords(bs: seq<byte>): (r: seq<word>)
    requires |bs| % 4 == 0
    ensures |r| == |bs| / 4
  {
    if bs == [] then []
    else DecodeWords(bs[..|bs| - 4]) + [DecodeWord(bs[|bs| - 4], bs[|bs| - 3], bs[|bs| - 2], bs[|bs| - 1])]
  }

  lemma DecodeEncodeWord(w: word)
    ensures var e := EncodeWord(w); DecodeWord(e[0], e[1], e[2], e[3]) == w
  {
    var w1 := w / 256;
    var w2 := w1 / 256;
    var w3 := w2 / 256;
    DivByte(w, 1);
    DivByte(w, 256);
    DivByte(w, 65536);
  }

  lemma DivByte(w: nat, d: nat)
    requires d == 1 || d == 256 || d == 65536
    ensures w / (d * 256) == w / d / 256
    ensures w / d == w / d % 256 + 256 * (w / d / 256)
  {
  }

  /** Encode and Decode are inverse. */
  lemma {:induction false} DecodeEncodeWords(ws: seq<word>)
    ensures DecodeWords(EncodeWords(ws)) == ws
  {
    hide EncodeWord, DecodeWord;
    if ws != [] {
      var init, w := ws[..|ws| - 1], ws[|ws| - 1];
      DecodeEncodeWords(init);
      DecodeEncodeWord(w);
      var bs := EncodeWords(ws);
      EncodeWordLength(w);
      assert bs[..|bs| - 4] == EncodeWords(init);
    }
  }

  /** The number that stands at position `i`, lowest byte first. */
  function NumberAt(b: seq<byte>, i: nat): int
    requires i + 4 <= |b|
  {
    (b[i] as int) + 0x100 * (b[i + 1] as int) + 0x1_0000 * (b[i + 2] as int) + 0x100_0000 * (b[i + 3] as int)
  }

  /** Words are read lowest byte first, ... */
  lemma {:induction false} DecodeWordsAt(bs: seq<byte>, k: nat)
    requires |bs| % 4 == 0 && 4 * k + 3 < |bs|
    ensures DecodeWords(bs)[k] == NumberAt(bs, 4 * k)
  {
    if 4 * k + 4 < |bs| {
      DecodeWordsAt(bs[..|bs| - 4], k);
    }
  }

  /** ... and written lowest byte first. */
  lemma {:induction false} EncodeWordsAt(ws: seq<word>, k: nat)
    requires k < |ws|
    ensures NumberAt(EncodeWords(ws), 4 * k) == ws[k]
  {
    hide EncodeWord, DecodeWord, NumberAt;
    DecodeEncodeWords(ws);
    DecodeWordsAt(EncodeWords(ws), k);
  }

  lemma EncodeWordLength(w: word)
    ensures |EncodeWord(w)| == 4
  {
  }

  // ----- the digest of a whole message -----

  function Absorb(mix: Mixer, s: State, block: seq<byte>): State
    requires |block| == 64
  {
    mix(s, DecodeWords(block))
  }

  /** Section 3.4: the blocks of 64 bytes, in order. */
  function Fold(mix: Mixer, s: State, data: seq<byte>): State
    requires |data| % 64 == 0
    decreases |data|
  {
    if data == [] then s else Fold(mix, Absorb(mix, s, data[..64]), data[64..])
  }

  lemma {:induction false} FoldAppend(mix: Mixer, s: State, a: seq<byte>, b: seq<byte>)
    requires |a| % 64 == 0 && |b| % 64 == 0
    ensures Fold(mix, s, a + b) == Fold(mix, Fold(mix, s, a), b)
    decreases |a|
  {
    hide Absorb;
    if a == [] {
      assert a + b == b;
    } else {
      assert (a + b)[..64] == a[..64] && (a + b)[64..] == a[64..] + b;
      FoldAppend(mix, Absorb(mix, s, a[..64]), a[64..], b);
    }
  }

  /** Section 3.1: one byte 0x80 and the fewest zeros that lead to 56 modulo 64. */
  function Padding(n: nat): (r: seq<byte>)
    ensures 1 <= |r| <= 64 && (n + |r|) % 64 == 56
  {
    var k := if n % 64 < 56 then 56 - n % 64 else 120 - n % 64;
    [0x80] + seq(k - 1, _ => 0)
  }

  /** Section 3.2: the length in bits modulo 2^64, low word first. */
  function LengthBytes(n: nat): (r: seq<byte>)
    ensures |r| == 8
  {
    EncodeWords(BitCount(n))
  }

  function BitCount(n: nat): (r: seq<word>)
    ensures |r| == 2
  {
    [8 * n % TWO32, 8 * n / TWO32 % TWO32]
  }

  function Digest(mix: Mixer, msg: seq<byte>): seq<byte> {
    hide BitCount;
    EncodeWords(Fold(mix, INIT, msg + Padding(|msg|) + LengthBytes(|msg|)))
  }

  /** What is digested: the message, a single one bit, as few zeros as make whole blocks with the length behind them,
      and the length in bits in the last eight bytes, lowest first. */
  lemma PaddedMessage(msg: seq<byte>)
    ensures var p := msg + Padding(|msg|) + LengthBytes(|msg|);
            && |p| % 64 == 0 && |msg| + 9 <= |p| < |msg| + 9 + 64
            && p[..|msg|] == msg && p[|msg|] == 0x80
            && (forall i :: |msg| < i < |p| - 8 ==> p[i] == 0)
            && NumberAt(p, |p| - 8) == 8 * |msg| % 0x1_0000_0000
            && NumberAt(p, |p| - 4) == 8 * |msg| / 0x1_0000_0000 % 0x1_0000_0000
  {
    hide EncodeWords, BitCount, NumberAt;
    var l := LengthBytes(|msg|);
    EncodeWordsAt(BitCount(|msg|), 0);
    EncodeWordsAt(BitCount(|msg|), 1);
    BitCountIs(|msg|);
    PaddingIs(|msg|);
    NumberBehind(msg + Padding(|msg|), l, 0);
    NumberBehind(msg + Padding(|msg|), l, 4);
  }

  lemma NumberBehind(a: seq<byte>, b: seq<byte>, i: nat)
    requires i + 4 <= |b|
    ensures NumberAt(a + b, |a| + i) == NumberAt(b, i)
  {
  }

  lemma BitCountIs(n: nat)
    ensures BitCount(n) == [8 * n % 0x1_0000_0000, 8 * n / 0x1_0000_0000 % 0x1_0000_0000]
  {
  }

  lemma PaddingIs(n: nat)
    ensures var p := Padding(n);
            && 1 <= |p| <= 64 && (n + |p| + 8) % 64 == 0 && p[0] == 0x80 && forall i :: 0 < i < |p| ==> p[i] == 0
  {
  }

  lemma {:induction false} FoldUnmixed(mix: Mixer, s: State, data: seq<byte>)
    requires |data| % 64 == 0 && forall s: State, x: seq<word> :: mix(s, x) == s
    ensures Fold(mix, s, data) == s
    decreases |data|
  {
    if data != [] {
      FoldUnmixed(mix, s, data[64..]);
    }
  }

  /** Section 3.3 fixes the words A to D by the bytes they are written as: 01 23 45 67 89 ab cd ef and back down
      again. They are the digest of every message if the blocks are not mixed in. */
  lemma DigestUnmixed(mix: Mixer, msg: seq<byte>)
    requires forall s: State, x: seq<word> :: mix(s, x) == s
    ensures var d := Digest(mix, msg);
            && |d| == 16 && (forall i :: 0 <= i < 8 ==> d[i] == 1 + 34 * i)
            && forall i :: 8 <= i < 16 ==> d[i] == 254 - 34 * (i - 8)
  {
    hide EncodeWord, DecodeWord, Padding, LengthBytes;
    var data := msg + Padding(|msg|) + LengthBytes(|msg|);
    FoldUnmixed(mix, INIT, data);
    InitBytes();
  }

  lemma InitBytes()
    ensures EncodeWords(INIT) == [0x01, 0x23, 0x45, 0x67, 0x89, 0xab, 0xcd, 0xef,
                                  0xfe, 0xdc, 0xba, 0x98, 0x76, 0x54, 0x32, 0x10]
  {
    var a, b, c: seq<word> := INIT[..1], INIT[..2], INIT[..3];
    assert EncodeWord(INIT[0]) == [0x01, 0x23, 0x45, 0x67] && EncodeWord(INIT[1]) == [0x89, 0xab, 0xcd, 0xef];
    assert EncodeWord(INIT[2]) == [0xfe, 0xdc, 0xba, 0x98] && EncodeWord(INIT[3]) == [0x76, 0x54, 0x32, 0x10];
    assert a[..0] == [] && b[..1] == a && c[..2] == b;
    assert EncodeWords(a) == EncodeWord(INIT[0]);
    assert EncodeWords(b) == EncodeWords(a) + EncodeWord(INIT[1]);
    assert EncodeWords(c) == EncodeWords(b) + EncodeWord(INIT[2]);
  }

  // ----- the context -----

  /** The block loop's guard i + 63 < inputLen in 32-bit arithmetic. */
  predicate LoopGuard(i: nat, n: nat) {
    (i + 63) % TWO32 < n
  }

  /** Where the block loop has to stop: what is left does not fill a block. */
  function LoopEnd(idx: nat, n: nat): int {
    n - (idx + n) % 64
  }

  /** Chunks for which the guard does not wrap around. */
  predicate ChunkOk(idx: nat, n: nat) {
    n < TWO32 && (n < 64 - idx || LoopEnd(idx, n) <= TWO32 - 64)
  }

  /** The condition is exact: for a chunk whose length fits in 32 bits and that completes a block, the guard
      ends the loop at the end of the last whole block if and only if the chunk is one of these. Chunks of up
      to 2^32 - 64 bytes always are. */
  lemma ChunkOkExact(idx: nat, n: nat)
    requires idx < 64 && 64 - idx <= n < TWO32
    ensures !LoopGuard(LoopEnd(idx, n), n) <==> ChunkOk(idx, n)
    ensures n <= TWO32 - 64 ==> ChunkOk(idx, n)
  {
  }

  /** Where it fails: with `idx` bytes in the buffer, a chunk of 2^32 - idx bytes ends in a whole block, and there the
      guard wraps around and asks for one block more. An empty buffer takes every chunk. */
  lemma GuardWraps(idx: nat)
    requires idx < 64
    ensures if idx == 0 then forall n: nat :: n < TWO32 ==> ChunkOk(0, n)
            else
              && !ChunkOk(idx, TWO32 - idx) && LoopEnd(idx, TWO32 - idx) == TWO32 - idx
              && LoopGuard(TWO32 - idx, TWO32 - idx)
  {
    if idx == 0 {
      forall n: nat | n < TWO32 ensures ChunkOk(0, n) {
        LastBlock(n);
      }
    }
  }

  lemma LastBlock(n: nat)
    requires n < TWO32
    ensures n - n % 64 <= TWO32 - 64
  {
  }

  /** For such a chunk, the guard tells at every block boundary whether another whole block is left. */
  lemma GuardTells(idx: nat, n: nat, i: nat)
    requires idx < 64 && 64 - idx <= n && ChunkOk(idx, n)
    requires i <= n && (idx + i) % 64 == 0
    ensures LoopGuard(i, n) <==> i + 64 <= n
    ensures (idx + i + 64) % 64 == 0
  {
  }

  class Context {
    const mix: Mixer
    var state: State
    var count0: word
    var count1: word
    const buffer: array<byte>

    /** `msg` has been fed in: its whole blocks are in the state, the rest in the buffer, its length in bits in
        the counters. */
    ghost predicate Absorbed(msg: seq<byte>)
      reads this, buffer
    {
      hide BitCount;
      var whole := |msg| - |msg| % 64;
      && buffer.Length == 64
      && state == Fold(mix, INIT, msg[..whole])
      && buffer[..|msg| % 64] == msg[whole..]
      && [count0, count1] == BitCount(|msg|)
    }

    /** MD5Init */
    constructor (mix: Mixer)
      ensures Absorbed([]) && fresh(buffer) && this.mix == mix
    {
      this.mix := mix;
      state := INIT;
      count0, count1 := 0, 0;
      buffer := new byte[64];
    }

    /** The two counters add up bits modulo 2^64. */
    method AddBits(n: nat, ghost before: nat)
      requires n < TWO32 && [count0, count1] == BitCount(before)
      modifies `count0, `count1
      ensures [count0, count1] == BitCount(before + n)
    {
      assert count0 == [count0, count1][0] && count1 == [count0, count1][1];
      var low := n * 8 % TWO32;
      BitsOf(n);
      Carry(8 * before, n * 8, count0, count1);
      count0 := (count0 + low) % TWO32;
      if count0 < low {
        count1 := (count1 + 1) % TWO32;
      }
      count1 := (count1 + n / 0x2000_0000) % TWO32;
    }

    /** MD5Update */
    method Update(input: seq<byte>, ghost msg: seq<byte>)
      requires Absorbed(msg) && ChunkOk(|msg| % 64, |input|)
      modifies this, buffer
      ensures Absorbed(msg + input)
    {
      hide *;
      AbsorbedCounts(this, msg);
      AbsorbedIndex(this, |msg|);
      ChunkLength(|msg| % 64, |input|);
      var idx := count0 / 8 % 64;
      AddBits(|input|, |msg|);
      var i := 0;
      if |input| >= 64 - idx {
        i := AbsorbBlocks(idx, input, msg);
        idx := 0;
      }
      ghost var kept := buffer[..idx];
      CopyLiterals(buffer, idx, input, i, |input| - i);
      Leftover(msg, input, i, kept);
      ghost var all := msg + input;
      assert buffer[..|all| % 64] == kept + input[i..|input|] == all[|all| - |all| % 64..];
      AbsorbedBy(this, all);
    }

    /** Complete the block in the buffer, then take whole blocks straight from the input. */
    method AbsorbBlocks(idx: nat, input: seq<byte>, ghost msg: seq<byte>) returns (i: nat)
      requires idx == |msg| % 64 && 64 - idx <= |input| && ChunkOk(idx, |input|)
      requires buffer.Length == 64 && buffer[..idx] == msg[|msg| - idx..]
      requires state == Fold(mix, INIT, msg[..|msg| - idx])
      modifies `state, buffer
      ensures 0 < i <= |input| && |input| - i < 64 && (|msg| + i) % 64 == 0
      ensures state == Fold(mix, INIT, (msg + input)[..|msg| + i])
    {
      hide *;
      i := 64 - idx;
      CopyLiterals(buffer, idx, input, 0, i);
      assert buffer[..] == buffer[..idx + i] == old(buffer[..idx]) + input[..i];
      state := Absorb(mix, state, buffer[..]);
      BufferedBlock(mix, msg, input, idx);
      while LoopGuard(i, |input|)
        invariant 64 - idx <= i <= |input| && (idx + i) % 64 == 0
        invariant state == Fold(mix, INIT, (msg + input)[..|msg| + i])
        decreases |input| - i
      {
        GuardTells(idx, |input|, i);
        NextBlock(mix, msg, input, i);
        state := Absorb(mix, state, input[i..i + 64]);
        i := i + 64;
      }
      GuardTells(idx, |input|, i);
    }

    /** MD5Final: padding, the length as it was before padding, and the state as bytes; the context is cleared. */
    method Final(ghost msg: seq<byte>) returns (digest: seq<byte>)
      requires Absorbed(msg)
      modifies this, buffer
      ensures digest == Digest(mix, msg)
      ensures state == [0, 0, 0, 0] && count0 == count1 == 0 && forall i :: 0 <= i < buffer.Length ==> buffer[i] == 0
    {
      hide *;
      AbsorbedCounts(this, msg);
      AbsorbedIndex(this, |msg|);
      var bits := Encode([count0, count1]);
      var idx := count0 / 8 % 64;
      var padLen := if idx < 56 then 56 - idx else 120 - idx;
      var padding := [0x80] + seq(padLen - 1, _ => 0);
      assert |EncodeWords([count0, count1])| == 8 by { EncodeWordsLength([count0, count1]); }
      SmallChunkOk(|msg| % 64, padLen);
      Update(padding, msg);
      SmallChunkOk(|msg + padding| % 64, 8);
      Update(bits, msg + padding);
      AbsorbedWhole(this, msg + padding + bits);
      DigestIs(mix, msg, padding, bits);
      digest := Encode(state);
      state := [0, 0, 0, 0];
      count0, count1 := 0, 0;
      forall i | 0 <= i < buffer.Length {
        buffer[i] := 0;
      }
    }
  }

  lemma AbsorbedCounts(c: Context, msg: seq<byte>)
    requires c.Absorbed(msg)
    ensures [c.count0, c.count1] == BitCount(|msg|) && c.buffer.Length == 64
    ensures var whole := |msg| - |msg| % 64;
            c.state == Fold(c.mix, INIT, msg[..whole]) && c.buffer[..|msg| % 64] == msg[whole..]
  {
    hide BitCount, Fold;
  }

  lemma AbsorbedIndex(c: Context, n: nat)
    requires [c.count0, c.count1] == BitCount(n)
    ensures c.count0 / 8 % 64 == n % 64
  {
    assert c.count0 == [c.count0, c.count1][0];
    IndexOf(n);
  }

  lemma AbsorbedBy(c: Context, msg: seq<byte>)
    requires [c.count0, c.count1] == BitCount(|msg|) && c.buffer.Length == 64
    requires var whole := |msg| - |msg| % 64;
             c.state == Fold(c.mix, INIT, msg[..whole]) && c.buffer[..|msg| % 64] == msg[whole..]
    ensures c.Absorbed(msg)
  {
    hide Fold, BitCount;
  }

  lemma AbsorbedWhole(c: Context, msg: seq<byte>)
    requires c.Absorbed(msg) && |msg| % 64 == 0
    ensures c.state == Fold(c.mix, INIT, msg)
  {
    assert msg[..|msg|] == msg;
  }

  lemma EncodeWordsLength(ws: seq<word>)
    ensures |EncodeWords(ws)| == 4 * |ws|
  {
  }

  lemma ChunkLength(idx: nat, n: nat)
    requires ChunkOk(idx, n)
    ensures n < TWO32
  {
  }

  lemma SmallChunkOk(idx: nat, n: nat)
    requires idx < 64 && n <= 64
    ensures ChunkOk(idx, n)
  {
  }

  lemma DigestIs(mix: Mixer, msg: seq<byte>, padding: seq<byte>, bits: seq<byte>)
    requires var idx := |msg| % 64;
             padding == [0x80] + seq((if idx < 56 then 56 - idx else 120 - idx) - 1, _ => 0)
    requires bits == EncodeWords(BitCount(|msg|))
    ensures |msg + padding + bits| % 64 == 0
    ensures Digest(mix, msg) == EncodeWords(Fold(mix, INIT, msg + padding + bits))
  {
    hide Fold, EncodeWords, BitCount;
    EncodeWordsLength(BitCount(|msg|));
    assert padding == Padding(|msg|);
    assert bits == LengthBytes(|msg|);
  }

  /** The loop of Encode. */
  method Encode(input: seq<word>) returns (output: seq<byte>)
    ensures output == EncodeWords(input)
  {
    output := [];
    var i := 0;
    while i < |input|
      invariant 0 <= i <= |input| && output == EncodeWords(input[..i])
    {
      assert input[..i + 1][..i] == input[..i];
      output := output + [input[i] % 256, input[i] / 256 % 256, input[i] / 65536 % 256, input[i] / 16777216];
      i := i + 1;
    }
    assert input[..|input|] == input;
  }

  /** Hashing a message in any chunks gives the digest of the whole message. */
  method DigestOfChunks(mix: Mixer, chunks: seq<seq<byte>>) returns (digest: seq<byte>)
    requires forall i :: 0 <= i < |chunks| ==> |chunks[i]| <= TWO32 - 64
    ensures digest == Digest(mix, Concat(chunks))
  {
    hide *;
    var context := new Context(mix);
    ghost var msg: seq<byte> := [];
    ConcatNone(chunks);
    for i := 0 to |chunks|
      invariant fresh(context) && fresh(context.buffer) && context.mix == mix
      invariant context.Absorbed(msg) && msg == Concat(chunks[..i])
    {
      LargestChunkOk(|msg|, |chunks[i]|);
      context.Update(chunks[i], msg);
      ConcatSnoc(chunks, i);
      msg := msg + chunks[i];
    }
    ConcatWhole(chunks);
    digest := context.Final(msg);
  }

  lemma ConcatWhole(chunks: seq<seq<byte>>)
    ensures Concat(chunks[..|chunks|]) == Concat(chunks)
  {
    assert chunks[..|chunks|] == chunks;
  }

  lemma ConcatNone(chunks: seq<seq<byte>>)
    ensures Concat(chunks[..0]) == []
  {
  }

  lemma ConcatSnoc(chunks: seq<seq<byte>>, i: nat)
    requires i < |chunks|
    ensures Concat(chunks[..i + 1]) == Concat(chunks[..i]) + chunks[i]
  {
    assert chunks[..i + 1][..i] == chunks[..i];
  }

  lemma LargestChunkOk(before: nat, n: nat)
    requires n <= TWO32 - 64
    ensures ChunkOk(before % 64, n)
  {
  }

  function Concat(chunks: seq<seq<byte>>): seq<byte> {
    if chunks == [] then [] else Concat(chunks[..|chunks| - 1]) + chunks[|chunks| - 1]
  }

  lemma IndexOf(n: nat)
    ensures 8 * n % TWO32 / 8 % 64 == n % 64
  {
    var q, r := 8 * n / TWO32, 8 * n % TWO32;
    assert 8 * n == TWO32 * q + r;
    assert n == 0x2000_0000 * q + r / 8;
  }

  /** The block completed in the buffer: the tail of the message and the start of the chunk. */
  lemma BufferedBlock(mix: Mixer, msg: seq<byte>, input: seq<byte>, idx: nat)
    requires idx == |msg| % 64 && 64 - idx <= |input|
    ensures Absorb(mix, Fold(mix, INIT, msg[..|msg| - idx]), msg[|msg| - idx..] + input[..64 - idx])
         == Fold(mix, INIT, (msg + input)[..|msg| + 64 - idx])
  {
    hide Absorb;
    var whole := |msg| - idx;
    var block := msg[whole..] + input[..64 - idx];
    FoldAppend(mix, INIT, msg[..whole], block);
    OneBlock(mix, Fold(mix, INIT, msg[..whole]), block);
    assert msg[..whole] + block == (msg + input)[..|msg| + 64 - idx];
  }

  lemma OneBlock(mix: Mixer, s: State, block: seq<byte>)
    requires |block| == 64
    ensures Fold(mix, s, block) == Absorb(mix, s, block)
  {
    assert block[..64] == block && block[64..] == [];
  }

  lemma NextBlock(mix: Mixer, msg: seq<byte>, input: seq<byte>, i: nat)
    requires (|msg| + i) % 64 == 0 && i + 64 <= |input|
    ensures Absorb(mix, Fold(mix, INIT, (msg + input)[..|msg| + i]), input[i..i + 64])
         == Fold(mix, INIT, (msg + input)[..|msg| + i + 64])
  {
    hide Absorb;
    var block := input[i..i + 64];
    FoldAppend(mix, INIT, (msg + input)[..|msg| + i], block);
    OneBlock(mix, Fold(mix, INIT, (msg + input)[..|msg| + i]), block);
    assert (msg + input)[..|msg| + i] + block == (msg + input)[..|msg| + i + 64];
  }

  lemma Leftover(msg: seq<byte>, input: seq<byte>, i: nat, kept: seq<byte>)
    requires i <= |input|
    requires if i == 0 then |msg| % 64 + |input| < 64 && kept == msg[|msg| - |msg| % 64..]
             else (|msg| + i) % 64 == 0 && |input| - i < 64 && kept == []
    ensures var all := msg + input; var whole := |all| - |all| % 64;
            && |all| % 64 == |kept| + (|input| - i)
            && all[whole..] == kept + input[i..]
            && all[..whole] == if i == 0 then msg[..|msg| - |msg| % 64] else all[..|msg| + i]
  {
    WholeBlocks(|msg|, |input|, i);
    if i == 0 {
      SplitWithin(msg, input, |msg| - |msg| % 64);
    } else {
      SplitBehind(msg, input, i);
    }
  }

  lemma WholeBlocks(m: nat, n: nat, i: nat)
    requires i <= n && if i == 0 then m % 64 + n < 64 else (m + i) % 64 == 0 && n - i < 64
    ensures m + n - (m + n) % 64 == if i == 0 then m - m % 64 else m + i
  {
  }

  lemma SplitWithin(a: seq<byte>, b: seq<byte>, k: nat)
    requires k <= |a|
    ensures (a + b)[..k] == a[..k] && (a + b)[k..] == a[k..] + b[0..]
  {
  }

  lemma SplitBehind(a: seq<byte>, b: seq<byte>, i: nat)
    requires i <= |b|
    ensures (a + b)[|a| + i..] == [] + b[i..]
  {
  }

  lemma BitsOf(n: nat)
    ensures n * 8 / TWO32 == n / 0x2000_0000
  {
  }

  lemma Carry(t: nat, x: nat, c0: nat, c1: nat)
    requires c0 == t % TWO32 && c1 == t / TWO32 % TWO32
    ensures var low, high := x % TWO32, x / TWO32;
            var sum := (c0 + low) % TWO32;
            var carried := if sum < low then (c1 + 1) % TWO32 else c1;
            sum == (t + x) % TWO32 && (carried + high) % TWO32 == (t + x) / TWO32 % TWO32
  {
    var low, high, q := x % TWO32, x / TWO32, t / TWO32;
    var total := c0 + low;
    assert t + x == (q + high) * TWO32 + total;
    if total >= TWO32 {
      Split(t + x, q + high + 1, total - TWO32);
      ModSum(q + 1, high);
      ModSum(q, 1);
    } else {
      Split(t + x, q + high, total);
      ModSum(q, high);
    }
  }

  lemma Split(a: nat, q: nat, r: nat)
    requires a == q * TWO32 + r && r < TWO32
    ensures a / TWO32 == q && a % TWO32 == r
  {
  }

  lemma ModSum(a: nat, b: nat)
    ensures (a % TWO32 + b) % TWO32 == (a + b) % TWO32
  {
  }
}
