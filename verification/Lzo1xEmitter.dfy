/** The emitting half of lzo1x_9x.c for LZO1X and LZO1Y: code_match, STORE_RUN, code_run, and the cost
    prediction len_of_coded_match. */
module Lzo1xEmitter {
  import opened Bytes
  import opened Window
  import opened Tokens
  import opened LengthCode
  import opened Lzo1xFormat
  import opened Lzo1xRoundTrip
  import opened Lzo1xParse

  ghost predicate Emitted(f: Flavour, dict: seq<byte>, out: array<byte>, op: nat, ts: seq<Token>)
    reads out
  {
    op <= out.Length && LegalAll(dict, ts) && out[..op] == Encode(f, ts)
  }

  /** Everything before input position `ip` is coded, and the last `lit` literals come last. */
  ghost predicate Flushed(f: Flavour, dict: seq<byte>, out: array<byte>, op: nat, ts: seq<Token>,
                          inp: seq<byte>, ip: nat, lit: nat)
    reads out
  {
    && Emitted(f, dict, out, op, ts)
    && ip <= |inp| && Expand(dict, ts) == dict + inp[..ip]
    && ContextOf(ts) == (if ts == [] then Start else LitContext(lit))
    && (op == 0 <==> ts == [])
    && 4 * op <= 5 * ip + 4
    && (op == 0 || 2 <= op)
  }

  /** Room that is always enough for `n` input bytes, not counting the end code. */
  function Bound(n: nat): nat {
    n + n / 4 + 1
  }

  lemma Fits(op: nat, ip: nat, n: nat)
    requires 4 * op <= 5 * ip + 4 && ip <= n
    ensures op <= Bound(n)
  {
  }

  /** Literals cost at most a byte in four and one more at the very start; a match never costs more than it
      is long. */
  lemma RunCost(n: nat, first: bool)
    requires if first then 1 <= n else 4 <= n
    ensures |RunHeader(n, first)| <= n / 4 + (if first then 1 else 0)
  {
  }

  lemma MatchCost(f: Flavour, off: nat, len: nat, ctx: Context)
    requires Codable(off, len, ctx)
    ensures 2 <= |Code(f, Match(off, len, []), ctx)| <= len
  {
  }

  // ----- cost prediction -----

  /** len_of_coded_match: the exact number of bytes code_match writes for this match behind `lit` literals,
      or -1 exactly when the format cannot express it. The length is unbounded. */
  method LenOfCodedMatch(f: Flavour, mLen: nat, mOff: nat, lit: nat) returns (n: int)
    requires 1 <= mOff
    ensures n == if Codable(mOff, mLen, LitContext(lit)) then |Code(f, Match(mOff, mLen, []), LitContext(lit))| else -1
  {
    hide Ext;
    if mLen < 2 {
      return -1;
    }
    if mLen == 2 {
      return if mOff <= M1_MAX_OFFSET && lit > 0 && lit < 4 then 2 else -1;
    }
    if mLen <= M2MaxLen(f) && mOff <= M2MaxOffset(f) {
      return 2;
    }
    if mLen == 3 && mOff <= MxMaxOffset(f) && lit >= 4 {
      return 2;
    }
    if mOff <= M3_MAX_OFFSET {
      if mLen <= M3_MAX_LEN {
        return 3;
      }
      n := CountExt(mLen - M3_MAX_LEN);
      return n;
    }
    if mOff <= M4_MAX_OFFSET {
      if mLen <= M4_MAX_LEN {
        return 3;
      }
      n := CountExt(mLen - M4_MAX_LEN);
      return n;
    }
    return -1;
  }

  /** The size of a long match's code: four bytes, and one more for every 255 the length exceeds. */
  method CountExt(len: nat) returns (n: int)
    requires 1 <= len
    ensures n == 3 + |Ext(len)|
  {
    n := 4;
    var left := len;
    while left > 255
      invariant 1 <= left && n + |Ext(left)| == 4 + |Ext(len)|
    {
      left, n := left - 255, n + 1;
    }
  }

  // ----- the encoder state that lives across calls -----

  class Encoder {
    const f: Flavour
    var r1Lit: nat       // literals in the last run, 0 if a match came last
    var r1MLen: nat
    var lastMLen: nat
    var lastMOff: nat
    var litBytes: nat
    var matchBytes: nat

    constructor (f: Flavour)
      ensures this.f == f && r1Lit == 0 && litBytes == 0 && matchBytes == 0
    {
      this.f := f;
      r1Lit, r1MLen, lastMLen, lastMOff, litBytes, matchBytes := 0, 0, 0, 0, 0, 0;
    }

    /** The marker and, for long matches, the length code, before the last two bytes of a far match. */
    method PutHead(out: array<byte>, op: nat, marker: byte, mLen: nat, max: nat) returns (op': nat)
      requires 3 <= mLen && (max == M3_MAX_LEN || max == M4_MAX_LEN) && marker + max - 2 < 256
      requires var h := if mLen <= max then [marker + (mLen - 2)] else [marker] + Ext(mLen - max);
               op + |h| <= out.Length
      modifies out
      ensures var h := if mLen <= max then [marker + (mLen - 2)] else [marker] + Ext(mLen - max);
              op' == op + |h| && out[..op'] == old(out[..op]) + h
    {
      if mLen <= max {
        out[op] := marker + (mLen - 2);
        op' := op + 1;
      } else {
        out[op] := marker;
        assert out[..op + 1] == old(out[..op]) + [marker];
        op' := PutExt(out, op + 1, mLen - max);
      }
    }

    method PutMatchHead(out: array<byte>, op: nat, mLen: nat, mOff: nat) returns (op': nat)
      requires Codable(mOff, mLen, LitContext(r1Lit))
      requires op + |Head(FormOf(f, mOff, mLen, LitContext(r1Lit)), mOff, mLen)| <= out.Length
      modifies out
      ensures var h := Head(FormOf(f, mOff, mLen, LitContext(r1Lit)), mOff, mLen);
              op' == op + |h| && out[..op'] == old(out[..op]) + h
    {
      hide Ext;
      if mLen == 2 || (mLen <= M2MaxLen(f) && mOff <= M2MaxOffset(f))
        || (mLen == 3 && mOff <= MxMaxOffset(f) && r1Lit >= 4)
      {
        op' := op;
      } else if mOff <= M3_MAX_OFFSET {
        op' := PutHead(out, op, M3_MARKER, mLen, M3_MAX_LEN);
      } else {
        op' := PutHead(out, op, M4_MARKER + (if mOff - 0x4000 >= 0x4000 then 8 else 0), mLen, M4_MAX_LEN);
      }
    }

    /** The last two bytes, for each of the five forms. */
    method LastTwo(mLen: nat, mOff: nat) returns (lo: byte, hi: byte)
      requires Codable(mOff, mLen, LitContext(r1Lit))
      ensures var form := FormOf(f, mOff, mLen, LitContext(r1Lit));
              lo == Low(f, form, mOff, mLen) && hi == High(f, form, mOff)
    {
      var off := mOff - 1;
      if mLen == 2 {
        lo, hi := LowByte(off % 4 * 4), LowByte(off / 4);
      } else if mLen <= M2MaxLen(f) && mOff <= M2MaxOffset(f) {
        if f == X {
          lo, hi := LowByte((mLen - 1) * 32 + off % 8 * 4), LowByte(off / 8);
        } else {
          lo, hi := LowByte((mLen + 1) * 16 + off % 4 * 4), LowByte(off / 4);
        }
      } else if mLen == 3 && mOff <= MxMaxOffset(f) && r1Lit >= 4 {
        off := mOff - (1 + M2MaxOffset(f));
        lo, hi := LowByte(off % 4 * 4), LowByte(off / 4);
      } else if mOff <= M3_MAX_OFFSET {
        lo, hi := LowByte(off * 4), LowByte(off / 64);
      } else {
        off := mOff - 0x4000;
        lo, hi := LowByte(off * 4), LowByte(off / 64);
      }
    }

    /** code_match behind the literals already stored. */
    method CodeMatch(out: array<byte>, op: nat, mLen: nat, mOff: nat, ghost dict: seq<byte>, ghost ts: seq<Token>,
                     inp: seq<byte>, ip: nat)
      returns (op': nat, ghost ts': seq<Token>)
      requires Flushed(f, dict, out, op, ts, inp, ip, r1Lit) && ts != []
      requires Codable(mOff, mLen, LitContext(r1Lit)) && Repeats(dict + inp, |dict| + ip, mOff, mLen)
      requires out.Length >= Bound(|inp|)
      modifies out, this
      ensures Flushed(f, dict, out, op', ts', inp, ip + mLen, 0) && ts' == ts + [Match(mOff, mLen, [])]
      ensures var c := Code(f, Match(mOff, mLen, []), LitContext(r1Lit));
              op' == op + |c| && out[..op'] == old(out[..op]) + c
      ensures lastMLen == mLen && lastMOff == mOff && matchBytes == old(matchBytes) + mLen
      ensures r1Lit == old(r1Lit) && r1MLen == old(r1MLen) && litBytes == old(litBytes)
    {
      hide LegalAll, Encode, Expand, Head, Low, High, FormOf, Bound, Code, Copy, Ext;
      ghost var ctx := LitContext(r1Lit);
      ghost var m := Match(mOff, mLen, []);
      ghost var done, h := out[..op], Head(FormOf(f, mOff, mLen, ctx), mOff, mLen);
      MatchCost(f, mOff, mLen, ctx);
      Fits(op, ip, ip); Fits(op + mLen, ip + mLen, |inp|);
      matchBytes := matchBytes + mLen;
      var lo, hi := LastTwo(mLen, mOff);
      MatchCode(f, mOff, mLen, ctx);
      op' := PutMatchHead(out, op, mLen, mOff);
      out[op'], out[op' + 1] := lo, hi;
      op' := op' + 2;
      assert out[..op'] == done + h + [lo, hi] == done + (h + [lo, hi]);
      lastMLen, lastMOff := mLen, mOff;
      ts' := ts + [m];
      Snoc(f, dict, ts, m);
      MatchGrows(dict, inp, ip, mOff, mLen);
    }

    /** STORE_RUN: up to three literals are counted into the two low bits of the match before them. */
    method StoreRun(out: array<byte>, op: nat, inp: seq<byte>, ii: nat, t: nat,
                    ghost dict: seq<byte>, ghost ts: seq<Token>)
      returns (op': nat, ghost ts': seq<Token>)
      requires Flushed(f, dict, out, op, ts, inp, ii, 0) && 1 <= t && ii + t <= |inp|
      requires out.Length >= Bound(|inp|)
      modifies out, this
      ensures Flushed(f, dict, out, op', ts', inp, ii + t, t) && ts' != [] && ts' == Stored(ts, inp[ii..ii + t])
      ensures litBytes == old(litBytes) + t && matchBytes == old(matchBytes)
    {
      hide LegalAll, Encode, Expand, Code, Bound, RunHeader, Legal, Copy, Ext;
      litBytes := litBytes + t;
      FlushedPrefix(dict, inp, ii, t);
      ghost var lit := inp[ii..ii + t];
      if op > 0 && t <= 3 {
        ghost var w;
        w, ts' := FoldTokens(f, dict, ts, lit);
        FoldRoom(op, ii, t, |inp|);
        assert out[..op][..|w|] == out[..|w|] == w;
        assert out[op - 2] == out[..op][|w|] && out[op - 1] == out[..op][|w| + 1];
        assert out[op - 2] % 4 == 0;
        out[op - 2] := out[op - 2] + t;
        assert out[..|w|] == w;
        assert out[..op] == w + [out[op - 2], out[op - 1]];
        CopyLiterals(out, op, inp, ii, t);
        op' := op + t;
      } else {
        op', ts' := StoreExplicit(out, op, inp, ii, t, dict, ts);
      }
    }

    method StoreExplicit(out: array<byte>, op: nat, inp: seq<byte>, ii: nat, t: nat,
                         ghost dict: seq<byte>, ghost ts: seq<Token>)
      returns (op': nat, ghost ts': seq<Token>)
      requires Flushed(f, dict, out, op, ts, inp, ii, 0) && 1 <= t && ii + t <= |inp| && (op == 0 || 4 <= t)
      requires out.Length >= Bound(|inp|)
      modifies out
      ensures Flushed(f, dict, out, op', ts', inp, ii + t, t) && ts' == ts + [Run(inp[ii..ii + t])]
    {
      hide LegalAll, Encode, Expand, Bound, RunHeader, Copy, Ext, Code, Legal;
      FlushedPrefix(dict, inp, ii, t);
      ghost var run := Run(inp[ii..ii + t]);
      RunFits(f, run.lit, ContextOf(ts), Expand(dict, ts));
      RunCost(t, op == 0);
      RunRoom(op, ii, t, |RunHeader(t, op == 0)|, |inp|);
      op' := PutRunHeader(out, op, t);
      CopyLiterals(out, op', inp, ii, t);
      op' := op' + t;
      assert out[..op'] == old(out[..op]) + (RunHeader(t, op == 0) + run.lit);
      Snoc(f, dict, ts, run);
      ts' := ts + [run];
      HeaderNonEmpty(t, op == 0);
    }

    method PutRunHeader(out: array<byte>, op: nat, t: nat) returns (op': nat)
      requires (if op == 0 then 1 else 4) <= t && op + |RunHeader(t, op == 0)| <= out.Length
      modifies out
      ensures op' == op + |RunHeader(t, op == 0)| && out[..op'] == old(out[..op]) + RunHeader(t, op == 0)
    {
      hide RunHeader, Ext, LowByte;
      RunHeaderIs(t, op == 0);
      if op == 0 && t <= 238 {
        out[op] := LowByte(17 + t);
        op' := op + 1;
      } else if t <= 18 {
        out[op] := LowByte(t - 3);
        op' := op + 1;
      } else {
        ghost var done := out[..op];
        out[op] := 0;
        assert out[..op + 1] == done + [0];
        op' := PutExt(out, op + 1, t - 18);
        assert done + [0] + Ext(t - 18) == done + ([0] + Ext(t - 18));
      }
    }

    /** code_run: store the pending literals, if any, and remember how many they were. */
    method CodeRun(out: array<byte>, op: nat, inp: seq<byte>, ii: nat, lit: nat, mLen: nat,
                   ghost dict: seq<byte>, ghost ts: seq<Token>)
      returns (op': nat, ghost ts': seq<Token>)
      requires Flushed(f, dict, out, op, ts, inp, ii, 0) && ii + lit <= |inp| && (op == 0 ==> lit > 0)
      requires out.Length >= Bound(|inp|)
      modifies out, this
      ensures Flushed(f, dict, out, op', ts', inp, ii + lit, lit) && ts' != []
      ensures ts' == Stored(ts, inp[ii..ii + lit])
      ensures r1Lit == lit && litBytes == old(litBytes) + lit && matchBytes == old(matchBytes)
    {
      hide LegalAll, Encode, Expand, Emitted, Bound;
      if lit > 0 {
        op', ts' := StoreRun(out, op, inp, ii, lit, dict, ts);
        r1MLen, r1Lit := mLen, lit;
      } else {
        op', ts' := op, ts;
        r1MLen, r1Lit := 0, 0;
      }
    }
  }

  lemma MatchCode(f: Flavour, off: nat, len: nat, ctx: Context)
    ensures var form := FormOf(f, off, len, ctx);
            Code(f, Match(off, len, []), ctx) == Head(form, off, len) + [Low(f, form, off, len), High(f, form, off)]
  {
    hide Head, Low, High, FormOf;
  }

  lemma MatchGrows(dict: seq<byte>, inp: seq<byte>, ip: nat, off: nat, len: nat)
    requires ip <= |inp| && Repeats(dict + inp, |dict| + ip, off, len)
    ensures off <= |dict + inp[..ip]|
    ensures Copy(dict + inp[..ip], off, len) + [] == dict + inp[..ip + len]
  {
    var w := dict + inp;
    CopyReproduces(w, |dict| + ip, off, len);
    assert w[..|dict| + ip] == dict + inp[..ip];
    assert w[..|dict| + ip + len] == dict + inp[..ip + len];
  }

  lemma FlushedPrefix(dict: seq<byte>, inp: seq<byte>, ii: nat, t: nat)
    requires ii + t <= |inp|
    ensures dict + inp[..ii] + inp[ii..ii + t] == dict + inp[..ii + t]
  {
  }

  lemma RunHeaderIs(n: nat, first: bool)
    requires if first then 1 <= n else 4 <= n
    ensures RunHeader(n, first) == if first && n <= 238 then [LowByte(17 + n)]
                                   else if n <= 18 then [LowByte(n - 3)] else [0] + Ext(n - 18)
  {
  }

  lemma RunFits(f: Flavour, lit: seq<byte>, ctx: Context, w: seq<byte>)
    requires (ctx == Start && 1 <= |lit|) || (ctx == AfterMatch && 4 <= |lit|)
    ensures Legal(Run(lit), ctx, w) && Code(f, Run(lit), ctx) == RunHeader(|lit|, ctx == Start) + lit
  {
  }

  lemma HeaderNonEmpty(n: nat, first: bool)
    requires 1 <= n
    ensures |RunHeader(n, first)| >= 1
  {
  }

  lemma FoldRoom(op: nat, ii: nat, k: nat, n: nat)
    requires 4 * op <= 5 * ii + 4 && ii + k <= n
    ensures op + k <= Bound(n) && 4 * (op + k) <= 5 * (ii + k) + 4
  {
  }

  lemma RunRoom(op: nat, ii: nat, t: nat, h: nat, n: nat)
    requires 4 * op <= 5 * ii + 4 && ii + t <= n && (op == 0 || h <= t / 4) && h <= t / 4 + 1
    ensures op + h + t <= Bound(n) && 4 * (op + h + t) <= 5 * (ii + t) + 4
  {
  }

  lemma FoldTokens(f: Flavour, dict: seq<byte>, ts: seq<Token>, lit: seq<byte>) returns (w: seq<byte>, ts': seq<Token>)
    requires LegalAll(dict, ts) && ts != [] && ContextOf(ts) == AfterMatch && 1 <= |lit| <= 3
    ensures LegalAll(dict, ts') && ts' == Stored(ts, lit) && ContextOf(ts') == AfterFew
    ensures Expand(dict, ts') == Expand(dict, ts) + lit
    ensures |Encode(f, ts)| == |w| + 2 && w <= Encode(f, ts)
    ensures Encode(f, ts)[|w|] % 4 == 0 && Encode(f, ts)[|w|] <= 252
    ensures Encode(f, ts') == w + [Encode(f, ts)[|w|] + |lit|, Encode(f, ts)[|w| + 1]] + lit
  {
    hide LegalAll, Encode, Expand, Code, Head, Low, High, FormOf, Codable;
    var init, last := Unsnoc(f, dict, ts);
    var ctx := ContextOf(init);
    var m := last.(tail := lit);
    FoldBytes(f, last, lit, ctx);
    Snoc(f, dict, init, m);
    ts' := init + [m];
    w := Encode(f, init) + Head(FormOf(f, last.off, last.len, ctx), last.off, last.len);
    OffsetPositive(last.off, last.len, ctx);
    ghost var g := Copy(Expand(dict, init), last.off, last.len);
    assert g + [] == g;
  }

  lemma FoldBytes(f: Flavour, last: Token, lit: seq<byte>, ctx: Context)
    requires last.Match? && last.tail == [] && 1 <= |lit| <= 3 && Codable(last.off, last.len, ctx)
    ensures var form := FormOf(f, last.off, last.len, ctx);
            var h, a, b := Head(form, last.off, last.len), Low(f, form, last.off, last.len), High(f, form, last.off);
            && a % 4 == 0 && a <= 252
            && Code(f, last, ctx) == h + [a, b]
            && Code(f, last.(tail := lit), ctx) == h + [a + |lit|, b] + lit
  {
    hide Head, Low, High, FormOf, Codable, Code;
    var h := Head(FormOf(f, last.off, last.len, ctx), last.off, last.len);
    var a, b := MatchParts(f, last.off, last.len, [], ctx);
    var a', b' := MatchParts(f, last.off, last.len, lit, ctx);
    assert last == Match(last.off, last.len, []);
    assert h + [a, b] + [] == h + [a, b];
  }
}
