/** The compressors lzo1_compress and lzo1a_compress at CLEVEL 1. Which dictionary slot a position hashes to
    is a parameter: nothing below depends on it. A dictionary entry is an input position, or NULL. */
module Lzo1Compressor {
  import opened Bytes
  import opened Window
  import opened Tokens
  import opened Lzo1Format
  import opened Lzo1Parse
  import opened Room

  /** The first `op` bytes of the output are the code of a legal token stream. */
  ghost predicate Emitted(v: Variant, out: array<byte>, op: nat, ts: seq<Token>)
    reads out
  {
    op <= out.Length && LegalAll(v, ts) && out[..op] == Encode(ts)
  }

  method PutRunHeader(out: array<byte>, op: nat, n: nat, code: nat)
    requires 1 <= n && (n < R0FAST || (code < 8 && n == LongRun(code)))
    requires op + (if n < R0MIN then 1 else 2) <= out.Length
    modifies out
    ensures out[..op + (if n < R0MIN then 1 else 2)] == old(out[..op]) + RunHeader(n)
  {
    if n < R0MIN {
      out[op] := LowByte(n);
    } else {
      out[op] := 0;
      out[op + 1] := if n < R0FAST then LowByte(n - R0MIN) else LowByte(R0FAST - R0MIN + code);
    }
    assert out[..op] == old(out[..op]);
  }

  lemma LegalRun(v: Variant, lit: seq<byte>, code: nat, after: bool, w: seq<byte>)
    requires 1 <= |lit| && (|lit| < R0FAST || (code < 8 && |lit| == LongRun(code)))
    requires v == Lzo1a ==> !after
    ensures Legal(v, Run(lit), after, w)
  {
  }

  /** One run marker and its literals; `code` is the marker's second byte for a long run. */
  method PutRun(v: Variant, out: array<byte>, op: nat, inp: seq<byte>, ii: nat, n: nat, code: nat, ghost ts: seq<Token>)
    returns (op': nat)
    requires 1 <= n && ii + n <= |inp|
    requires n < R0FAST || (code < 8 && n == LongRun(code))
    requires Emitted(v, out, op, ts) && (v == Lzo1a ==> !Context(ts))
    requires op + n + (if n < R0MIN then 1 else 2) <= out.Length
    modifies out
    ensures op' == op + n + (if n < R0MIN then 1 else 2)
    ensures Emitted(v, out, op', ts + [Run(inp[ii..ii + n])])
  {
    hide LegalAll, Encode, Legal, RunHeader, Context, LongRun, LongRunCode;
    PutRunHeader(out, op, n, code);
    op' := op + (if n < R0MIN then 1 else 2);
    CopyLiterals(out, op', inp, ii, n);
    op' := op' + n;
    ghost var run := Run(inp[ii..ii + n]);
    assert out[..op'] == old(out[..op]) + Code(run);
    assert Legal(v, run, Context(ts), Expand([], ts)) by {
      LegalRun(v, run.lit, code, Context(ts), Expand([], ts));
    }
    Snoc(v, ts, run);
  }

  /** A match of `len` bytes at distance `off`. */
  method PutMatch(v: Variant, out: array<byte>, op: nat, off: nat, len: nat, ghost ts: seq<Token>) returns (op': nat)
    requires MIN_MATCH <= len <= MAX_MATCH_LONG && 1 <= off <= MAX_OFFSET && off <= |Expand([], ts)|
    requires Emitted(v, out, op, ts)
    requires op + (if len < MIN_MATCH_LONG then 2 else 3) <= out.Length
    modifies out
    ensures op' == op + (if len < MIN_MATCH_LONG then 2 else 3)
    ensures Emitted(v, out, op', ts + [Match(off, len, [])])
  {
    hide Encode, LegalAll;
    Snoc(v, ts, Match(off, len, []));
    if len < MIN_MATCH_LONG {
      out[op] := LowByte((len - 2) * 32 + (off - 1) % 32);
      out[op + 1] := LowByte((off - 1) / 32);
      op' := op + 2;
    } else {
      out[op] := LowByte(7 * 32 + (off - 1) % 32);
      out[op + 1] := LowByte((off - 1) / 32);
      out[op + 2] := LowByte(len - MIN_MATCH_LONG);
      op' := op + 3;
    }
    assert out[..op] == old(out[..op]);
    assert out[..op'] == old(out[..op]) + Code(Match(off, len, []));
  }

  /** How far a store_run has come: the literals `inp[ii..jj]` are out, all of them as long runs,
      at one byte of overhead in 32 at most. */
  ghost predicate Progress(v: Variant, out: array<byte>, op: nat, op0: nat, ts: seq<Token>, ts0: seq<Token>,
                           inp: seq<byte>, ii: nat, jj: nat)
    reads out
  {
    && Emitted(v, out, op, ts)
    && ii <= jj <= |inp|
    && op0 <= op && 32 * (op - op0) <= 33 * (jj - ii)
    && Expand([], ts) == Expand([], ts0) + inp[ii..jj]
    && (v == Lzo1a ==> !Context(ts))
  }

  lemma ProgressStart(v: Variant, out: array<byte>, op: nat, ts: seq<Token>, inp: seq<byte>, ii: nat)
    requires Emitted(v, out, op, ts) && ii <= |inp| && (v == Lzo1a ==> !Context(ts))
    ensures Progress(v, out, op, op, ts, ts, inp, ii, ii)
  {
  }

  lemma LongRunZero()
    ensures LongRun(0) == R0FAST
  {
  }

  lemma AppendSlices(base: seq<byte>, inp: seq<byte>, ii: nat, jj: nat, n: nat)
    requires ii <= jj && jj + n <= |inp|
    ensures base + inp[ii..jj] + inp[jj..jj + n] == base + inp[ii..jj + n]
  {
  }

  method PutLongRun(v: Variant, out: array<byte>, op: nat, inp: seq<byte>, jj: nat, code: nat, ghost ts: seq<Token>,
                    ghost op0: nat, ghost ts0: seq<Token>, ghost ii: nat, ghost end: nat)
    returns (op': nat, ghost ts': seq<Token>)
    requires code < 8 && jj + LongRun(code) <= end <= |inp|
    requires Progress(v, out, op, op0, ts, ts0, inp, ii, jj)
    requires op0 + Bound(end - ii) <= out.Length
    modifies out
    ensures Progress(v, out, op', op0, ts', ts0, inp, ii, jj + LongRun(code))
    ensures ts' == ts + [Run(inp[jj..jj + LongRun(code)])]
  {
    hide LegalAll, Encode, Legal, LongRun, Emitted, Bound, Expand, Copy, RunHeader, Code, Step, IsLongRun;
    var n := LongRun(code);
    ghost var run := Run(inp[jj..jj + n]);
    BoundLong(op - op0, jj - ii, n, end - ii);
    op' := PutRun(v, out, op, inp, jj, n, code, ts);
    ts' := ts + [run];
    ExpandSnoc([], ts, run);
    AppendSlices(Expand([], ts0), inp, ii, jj, n);
  }

  /** Where both store_run functions end: blocks of 280 while they fit, then what is left. */
  method StoreRest(v: Variant, out: array<byte>, op1: nat, inp: seq<byte>, jj1: nat, left1: nat, ghost ts1: seq<Token>,
                   ghost op0: nat, ghost ts0: seq<Token>, ghost ii: nat)
    returns (op: nat, ghost ts: seq<Token>)
    requires jj1 + left1 <= |inp| && Progress(v, out, op1, op0, ts1, ts0, inp, ii, jj1)
    requires op0 + Bound(jj1 + left1 - ii) <= out.Length && left1 < LongRun(1)
    modifies out
    ensures op0 <= op <= op0 + Bound(jj1 + left1 - ii)
    ensures Emitted(v, out, op, ts) && Expand([], ts) == Expand([], ts0) + inp[ii..jj1 + left1]
    ensures ts == ts1 + Stored(inp, jj1, left1)
  {
    hide LegalAll, Encode, LongRun, Emitted, Expand, Progress, Bound, Context, Stored;
    var jj: nat, left: nat := jj1, left1;
    op, ts := op1, ts1;
    while left >= LongRun(0)
      invariant jj + left == jj1 + left1 && Progress(v, out, op, op0, ts, ts0, inp, ii, jj)
      invariant left <= left1 && ts + Stored(inp, jj, left) == ts1 + Stored(inp, jj1, left1)
    {
      StoredNext(inp, jj, left, 0);
      AddFront(ts, Run(inp[jj..jj + LongRun(0)]), Stored(inp, jj + LongRun(0), left - LongRun(0)));
      op, ts := PutLongRun(v, out, op, inp, jj, 0, ts, op0, ts0, ii, jj1 + left1);
      jj, left := jj + LongRun(0), left - LongRun(0);
    }
    LongRunZero();
    StoredLast(inp, jj, left);
    op, ts := PutLastRun(v, out, op, inp, jj, left, ts, op0, ts0, ii);
  }

  /** What store_run does is to take the largest run that fits. */
  lemma StoredNext(inp: seq<byte>, jj: nat, left: nat, code: nat)
    requires code < 8 && LongRun(code) <= left && jj + left <= |inp| && (code < 7 ==> left < LongRun(code + 1))
    ensures var n := LongRun(code); Stored(inp, jj, left) == [Run(inp[jj..jj + n])] + Stored(inp, jj + n, left - n)
  {
  }

  lemma StoredLast(inp: seq<byte>, jj: nat, left: nat)
    requires left < R0FAST && jj + left <= |inp|
    ensures Stored(inp, jj, left) == if left == 0 then [] else [Run(inp[jj..jj + left])]
  {
  }

  lemma AddFront<T>(a: seq<T>, x: T, b: seq<T>)
    ensures a + ([x] + b) == a + [x] + b
  {
  }

  method PutLastRun(v: Variant, out: array<byte>, op: nat, inp: seq<byte>, jj: nat, n: nat, ghost ts: seq<Token>,
                    ghost op0: nat, ghost ts0: seq<Token>, ghost ii: nat)
    returns (op': nat, ghost ts': seq<Token>)
    requires n < R0FAST && jj + n <= |inp|
    requires Progress(v, out, op, op0, ts, ts0, inp, ii, jj)
    requires op0 + Bound(jj + n - ii) <= out.Length
    modifies out
    ensures op0 <= op' <= op0 + Bound(jj + n - ii)
    ensures Emitted(v, out, op', ts') && Expand([], ts') == Expand([], ts0) + inp[ii..jj + n]
    ensures ts' == ts + if n == 0 then [] else [Run(inp[jj..jj + n])]
  {
    hide LegalAll, Encode, Legal, LongRun, Emitted, Bound;
    BoundLast(op - op0, jj - ii, n);
    if n == 0 {
      return op, ts;
    }
    ghost var run := Run(inp[jj..jj + n]);
    op' := PutRun(v, out, op, inp, jj, n, 0, ts);
    ts' := ts + [run];
    ExpandSnoc([], ts, run);
    AppendSlices(Expand([], ts0), inp, ii, jj, n);
  }

  /** store_run of lzo1.c: every power of two from 32768 down to 512, as often as it fits. */
  method StoreRunLzo1(out: array<byte>, op0: nat, inp: seq<byte>, ii: nat, len: nat, ghost ts0: seq<Token>)
    returns (op: nat, ghost ts: seq<Token>)
    requires ii + len <= |inp| && 0 < len && Emitted(Lzo1, out, op0, ts0)
    requires op0 + Bound(len) <= out.Length
    modifies out
    ensures op0 <= op <= op0 + Bound(len)
    ensures Emitted(Lzo1, out, op, ts) && Expand([], ts) == Expand([], ts0) + inp[ii..ii + len]
    ensures ts == ts0 + Stored(inp, ii, len)
  {
    hide LegalAll, Encode, LongRun, Emitted, Expand, Progress, Bound, Context, Stored;
    ghost var all := ts0 + Stored(inp, ii, len);
    LongRunSizes();
    ProgressStart(Lzo1, out, op0, ts0, inp, ii);
    var jj: nat, left: nat := ii, len;
    op, ts := op0, ts0;
    if left >= 512 {
      var rBits := 7;
      while rBits > 0
        invariant 0 <= rBits <= 7 && (rBits < 7 ==> left < LongRun(rBits + 1))
        invariant jj + left == ii + len && Progress(Lzo1, out, op, op0, ts, ts0, inp, ii, jj)
        invariant ts + Stored(inp, jj, left) == all
      {
        while left >= LongRun(rBits)
          invariant rBits < 7 ==> left < LongRun(rBits + 1)
          invariant jj + left == ii + len && Progress(Lzo1, out, op, op0, ts, ts0, inp, ii, jj)
          invariant ts + Stored(inp, jj, left) == all
        {
          StoredNext(inp, jj, left, rBits);
          AddFront(ts, Run(inp[jj..jj + LongRun(rBits)]), Stored(inp, jj + LongRun(rBits), left - LongRun(rBits)));
          op, ts := PutLongRun(Lzo1, out, op, inp, jj, rBits, ts, op0, ts0, ii, ii + len);
          jj, left := jj + LongRun(rBits), left - LongRun(rBits);
        }
        rBits := rBits - 1;
      }
    }
    op, ts := StoreRest(Lzo1, out, op, inp, jj, left, ts, op0, ts0, ii);
  }

  /** store_run of lzo1a_cr.ch: 32768 as often as it fits, then each smaller power of two once. */
  method StoreRunLzo1a(out: array<byte>, op0: nat, inp: seq<byte>, ii: nat, len: nat, ghost ts0: seq<Token>)
    returns (op: nat, ghost ts: seq<Token>)
    requires ii + len <= |inp| && 0 < len && Emitted(Lzo1a, out, op0, ts0) && !Context(ts0)
    requires op0 + Bound(len) <= out.Length
    modifies out
    ensures op0 <= op <= op0 + Bound(len)
    ensures Emitted(Lzo1a, out, op, ts) && Expand([], ts) == Expand([], ts0) + inp[ii..ii + len]
    ensures ts == ts0 + Stored(inp, ii, len)
  {
    hide LegalAll, Encode, LongRun, Emitted, Expand, Progress, Bound, Context, Stored;
    ghost var all := ts0 + Stored(inp, ii, len);
    LongRunSizes();
    ProgressStart(Lzo1a, out, op0, ts0, inp, ii);
    var jj: nat, left: nat := ii, len;
    op, ts := op0, ts0;
    if left >= 512 {
      while left >= LongRun(7)
        invariant jj + left == ii + len && Progress(Lzo1a, out, op, op0, ts, ts0, inp, ii, jj)
        invariant ts + Stored(inp, jj, left) == all
      {
        StoredNext(inp, jj, left, 7);
        AddFront(ts, Run(inp[jj..jj + LongRun(7)]), Stored(inp, jj + LongRun(7), left - LongRun(7)));
        op, ts := PutLongRun(Lzo1a, out, op, inp, jj, 7, ts, op0, ts0, ii, ii + len);
        jj, left := jj + LongRun(7), left - LongRun(7);
      }
      var rBits := 6;
      while rBits > 0
        invariant 0 <= rBits <= 6 && left < LongRun(rBits + 1)
        invariant jj + left == ii + len && Progress(Lzo1a, out, op, op0, ts, ts0, inp, ii, jj)
        invariant ts + Stored(inp, jj, left) == all
      {
        if left >= LongRun(rBits) {
          StoredNext(inp, jj, left, rBits);
          AddFront(ts, Run(inp[jj..jj + LongRun(rBits)]), Stored(inp, jj + LongRun(rBits), left - LongRun(rBits)));
          op, ts := PutLongRun(Lzo1a, out, op, inp, jj, rBits, ts, op0, ts0, ii, ii + len);
          jj, left := jj + LongRun(rBits), left - LongRun(rBits);
        }
        rBits := rBits - 1;
      }
    }
    op, ts := StoreRest(Lzo1a, out, op, inp, jj, left, ts, op0, ts0, ii);
  }

  /** Each long run but the first is twice the one before it. */
  lemma LongRunSizes()
    ensures LongRun(0) == 280 && LongRun(1) == 512
    ensures forall c :: 1 <= c < 7 ==> LongRun(c + 1) == 2 * LongRun(c)
  {
  }

  // ----- the main loop -----

  /** At the top of the loop: everything before `ii` is coded, ending with a match. */
  ghost predicate Coded(v: Variant, out: array<byte>, op: nat, ts: seq<Token>, inp: seq<byte>, ii: nat)
    reads out
  {
    && Emitted(v, out, op, ts)
    && ii <= |inp| && Expand([], ts) == inp[..ii]
    && 32 * op <= 33 * ii
    && !Context(ts)
  }

  /** Between a literal run and the match behind it: everything before `ip` is coded. */
  ghost predicate Flushed(v: Variant, out: array<byte>, op: nat, ts: seq<Token>, inp: seq<byte>, ip: nat)
    reads out
  {
    && Emitted(v, out, op, ts)
    && ip <= |inp| && Expand([], ts) == inp[..ip]
    && 32 * op <= 33 * ip + 32
  }

  /** The last token is a three-byte match that directly follows literals: LZO1A may fold one byte into it. */
  ghost predicate R1Ready(ts: seq<Token>) {
    ts != [] &&
    var last := ts[|ts| - 1];
    last.Match? && last.len == MIN_MATCH && last.tail == [] && Context(ts[..|ts| - 1])
  }

  /** The length of the match at `ii`: three bytes are known to agree; six more make it a long match,
      which may then go on up to `end`. */
  method ExtendMatch(inp: seq<byte>, ii: nat, off: nat) returns (len: nat)
    requires 1 <= off <= ii && ii + MIN_MATCH_LONG <= |inp| - DVAL_LEN
    requires SameThree(inp, ii, ii - off)
    ensures len == MatchLen(inp, ii, off)
    ensures MIN_MATCH <= len <= MAX_MATCH_LONG && ii + len <= |inp| - DVAL_LEN
    ensures forall i :: ii <= i < ii + len ==> inp[i] == inp[i - off]
    ensures len < MAX_MATCH_LONG && ii + len < |inp| - DVAL_LEN ==> inp[ii + len] != inp[ii + len - off]
  {
    hide MatchLen;
    var ip, mPos := ii + MIN_MATCH, ii + MIN_MATCH - off;
    var differs := false;
    while ip < ii + MIN_MATCH_LONG && !differs
      invariant ii + MIN_MATCH <= ip <= ii + MIN_MATCH_LONG && mPos == ip - off
      invariant differs ==> ip > ii + MIN_MATCH && inp[ip - 1] != inp[ip - 1 - off]
      invariant forall i :: ii <= i < (if differs then ip - 1 else ip) ==> inp[i] == inp[i - off]
    {
      differs := inp[mPos] != inp[ip];
      ip, mPos := ip + 1, mPos + 1;
    }
    if differs {
      ip := ip - 1;
    } else {
      var inEnd := |inp| - DVAL_LEN;
      var longest := MAX_MATCH_LONG - MIN_MATCH_LONG;
      var end := if inEnd <= ip + longest then inEnd else ip + longest;
      while ip < end && inp[mPos] == inp[ip]
        invariant ii + MIN_MATCH_LONG <= ip <= end && mPos == ip - off
        invariant forall i :: ii <= i < ip ==> inp[i] == inp[i - off]
      {
        ip, mPos := ip + 1, mPos + 1;
      }
    }
    len := ip - ii;
    MatchLenIs(inp, ii, off, len);
  }

  /** Code the match found at `ip`. */
  method CodeMatch(v: Variant, out: array<byte>, op: nat, inp: seq<byte>, ip: nat, off: nat, len: nat,
                   ghost ts: seq<Token>)
    returns (op': nat, ghost ts': seq<Token>)
    requires Flushed(v, out, op, ts, inp, ip)
    requires MIN_MATCH <= len <= MAX_MATCH_LONG && ip + len <= |inp|
    requires 1 <= off <= MAX_OFFSET && off <= ip
    requires forall i :: ip <= i < ip + len ==> inp[i] == inp[i - off]
    requires out.Length >= Bound(|inp|)
    modifies out
    ensures Coded(v, out, op', ts', inp, ip + len) && ts' == ts + [Match(off, len, [])]
    ensures len == MIN_MATCH && Context(ts) ==> R1Ready(ts')
  {
    hide LegalAll, Encode, Emitted, Expand;
    ghost var m := Match(off, len, []);
    op' := PutMatch(v, out, op, off, len, ts);
    ts' := ts + [m];
    assert ts'[..|ts|] == ts;
    ExpandSnoc([], ts, m);
    CopyReproduces(inp, ip, off, len);
    assert inp[..ip + len] + m.tail == inp[..ip + len];
  }

  /** lzo1.c: store the pending literals, short runs inline. */
  method CodeLiteralsLzo1(out: array<byte>, op: nat, inp: seq<byte>, ii: nat, ip: nat, ghost ts: seq<Token>)
    returns (op': nat, ghost ts': seq<Token>)
    requires Coded(Lzo1, out, op, ts, inp, ii) && ii < ip <= |inp|
    requires out.Length >= Bound(|inp|)
    modifies out
    ensures op' <= Bound(|inp|) && Flushed(Lzo1, out, op', ts', inp, ip)
    ensures ts' == ts + Stored(inp, ii, ip - ii)
  {
    hide LegalAll, Encode, Emitted, Expand, Bound;
    RunRoom(op, ii, ip, |inp|);
    assert inp[..ii] + inp[ii..ip] == inp[..ip];
    if ip - ii < R0MIN {
      BoundLast(0, 0, ip - ii);
      op' := PutRun(Lzo1, out, op, inp, ii, ip - ii, 0, ts);
      ts' := ts + [Run(inp[ii..ip])];
      ExpandSnoc([], ts, Run(inp[ii..ip]));
    } else {
      op', ts' := StoreRunLzo1(out, op, inp, ii, ip - ii, ts);
    }
    FlushedRoom(op, ii, ip, op');
  }

  /** lzo1a.c: one pending literal behind a fresh three-byte match is folded into that match by clearing the
      marker's length bits; other runs are stored as in lzo1.c. `r1` is where the last match that directly
      follows literals started. */
  method CodeLiteralsLzo1a(out: array<byte>, op: nat, inp: seq<byte>, ii: nat, ip: nat, r1: int, ghost ts: seq<Token>)
    returns (op': nat, r1': int, ghost ts': seq<Token>)
    requires Coded(Lzo1a, out, op, ts, inp, ii) && ii < ip <= |inp|
    requires r1 > ip || (r1 + MIN_MATCH <= ii && (r1 + MIN_MATCH == ii ==> R1Ready(ts)))
    requires out.Length >= Bound(|inp|)
    modifies out
    ensures Flushed(Lzo1a, out, op', ts', inp, ip)
    ensures r1' == r1 || (r1' == ip && Context(ts'))
    ensures var c := Cursor(ip, ii, r1, [], ts); (ts', r1') == Literals(Lzo1a, inp, c)
  {
    hide LegalAll, Encode, Emitted, Expand, Bound;
    RunRoom(op, ii, ip, |inp|);
    assert inp[..ii] + inp[ii..ip] == inp[..ip];
    var t := ip - ii;
    r1' := r1;
    if ip - r1 == MIN_MATCH + 1 {
      op', ts' := FoldLiteral(out, op, inp, ii, ts);
      r1' := ip;
    } else if t < R0FAST {
      BoundLast(0, 0, t);
      op' := PutRun(Lzo1a, out, op, inp, ii, t, 0, ts);
      ts' := ts + [Run(inp[ii..ip])];
      ExpandSnoc([], ts, Run(inp[ii..ip]));
      r1' := ip;
      FlushedRoom(op, ii, ip, op');
    } else {
      op', ts' := StoreRunLzo1a(out, op, inp, ii, t, ts);
      FlushedRoom(op, ii, ip, op');
    }
  }

  /** Clear the length bits of the marker written for the last match, which makes it an R1 marker, and append the
      literal. */
  method FoldLiteral(out: array<byte>, op: nat, inp: seq<byte>, ii: nat, ghost ts: seq<Token>)
    returns (op': nat, ghost ts': seq<Token>)
    requires Coded(Lzo1a, out, op, ts, inp, ii) && ii < |inp| && R1Ready(ts)
    requires out.Length >= Bound(|inp|)
    modifies out
    ensures Flushed(Lzo1a, out, op', ts', inp, ii + 1) && Context(ts') && ts' == Fold(ts, inp[ii])
  {
    hide LegalAll, Encode, Expand, Code, Bound, R1Ready;
    FoldRoom(op, ii, 1, |inp|);
    ghost var w;
    w, ts' := FoldTokens(ts, inp[ii]);
    assert out[..op][..|w|] == out[..|w|] == w;
    assert out[op - 2] == out[..op][|w|] && out[op - 1] == out[..op][|w| + 1];
    assert out[op - 2] / 32 == MIN_MATCH - 2;
    out[op - 2] := out[op - 2] % 32;
    out[op] := inp[ii];
    op' := op + 1;
    assert out[..|w|] == w;
    assert inp[..ii] + [inp[ii]] == inp[..ii + 1];
  }

  /** Clearing the length bits of the last marker and appending one literal is again a legal stream's code. */
  lemma FoldTokens(ts: seq<Token>, c: byte) returns (w: seq<byte>, ts': seq<Token>)
    requires LegalAll(Lzo1a, ts) && R1Ready(ts)
    ensures LegalAll(Lzo1a, ts') && Context(ts') && ts' == Fold(ts, c)
    ensures Expand([], ts') == Expand([], ts) + [c]
    ensures |Encode(ts)| == |w| + 2 && w <= Encode(ts)
    ensures Encode(ts)[|w|] / 32 == MIN_MATCH - 2
    ensures Encode(ts') == w + [Encode(ts)[|w|] % 32, Encode(ts)[|w| + 1], c]
  {
    var init, last := ts[..|ts| - 1], ts[|ts| - 1];
    w := Encode(init);
    var r1 := Match(last.off, MIN_MATCH, [c]);
    ts' := init + [r1];
    var x := Expand([], init);
    FoldLegal(last, c, x);
    Snoc(Lzo1a, init, r1);
    assert Copy(x, last.off, MIN_MATCH) + [] == Copy(x, last.off, MIN_MATCH);
  }

  lemma FoldLegal(last: Token, c: byte, w: seq<byte>)
    requires last.Match? && last.tail == [] && last.len == MIN_MATCH && Legal(Lzo1a, last, true, w)
    ensures Legal(Lzo1a, Match(last.off, MIN_MATCH, [c]), true, w)
    ensures |Code(last)| == 2 && Code(last)[0] / 32 == MIN_MATCH - 2
    ensures Code(Match(last.off, MIN_MATCH, [c])) == [Code(last)[0] % 32, Code(last)[1], c]
  {
  }

  // ----- the dictionary -----

  /** With a cleared dictionary that only ever receives earlier positions, LZO_CHECK_MPOS_DET is enough. */
  ghost predicate Earlier(dict: array<int>, ip: nat)
    reads dict
  {
    dict.Length == D_SIZE && forall d :: 0 <= d < D_SIZE ==> dict[d] == NULL || 0 <= dict[d] < ip
  }

  /** The candidate lookup of lzo1.c: two slots, LZO_CHECK_MPOS_DET. Offset 0 stands for "literal". */
  method FindLzo1(inp: seq<byte>, ip: nat, dict: array<int>, hash: (seq<byte>, nat) -> nat) returns (off: nat)
    requires ip + MIN_MATCH <= |inp| && Earlier(dict, ip)
    modifies dict
    ensures Earlier(dict, ip + 1)
    ensures var r := Lookup(inp, ip, old(dict[..]), hash(inp, ip) % D_SIZE);
            off == r.0 && dict[..] == old(dict[..])[r.1 := ip]
    ensures off != 0 ==> off <= ip && off <= MAX_OFFSET && SameThree(inp, ip, ip - off)
  {
    var dindex := hash(inp, ip) % D_SIZE;
    var mPos := dict[dindex];
    off := 0;
    if !(mPos == NULL || ip - mPos > MAX_OFFSET) {
      if SameThree(inp, mPos, ip) {
        off := ip - mPos;
      } else {
        dindex := D_SIZE - 1 - dindex;
        mPos := dict[dindex];
        if !(mPos == NULL || ip - mPos > MAX_OFFSET) && SameThree(inp, mPos, ip) {
          off := ip - mPos;
        }
      }
    }
    dict[dindex] := ip;
  }

  /** The candidate lookup of lzo1a.c: LZO_CHECK_MPOS_NON_DET rejects whatever the slot may hold unless it
      is an input position before `ip`. */
  method FindLzo1a(inp: seq<byte>, ip: nat, dict: array<int>, hash: (seq<byte>, nat) -> nat) returns (off: nat)
    requires ip + MIN_MATCH <= |inp| && dict.Length == D_SIZE
    modifies dict
    ensures var r := Lookup(inp, ip, old(dict[..]), hash(inp, ip) % D_SIZE);
            off == r.0 && dict[..] == old(dict[..])[r.1 := ip]
    ensures off != 0 ==> off <= ip && off <= MAX_OFFSET && SameThree(inp, ip, ip - off)
  {
    var dindex := hash(inp, ip) % D_SIZE;
    var mPos := dict[dindex];
    off := 0;
    if !(mPos < 0 || ip - mPos <= 0 || ip - mPos > MAX_OFFSET) {
      if SameThree(inp, mPos, ip) {
        off := ip - mPos;
      } else {
        dindex := D_SIZE - 1 - dindex;
        mPos := dict[dindex];
        if !(mPos < 0 || ip - mPos <= 0 || ip - mPos > MAX_OFFSET) && SameThree(inp, mPos, ip) {
          off := ip - mPos;
        }
      }
    }
    dict[dindex] := ip;
  }

  // ----- do_compress and the public entry points -----

  method ClearDictionary(dict: array<int>)
    modifies dict
    ensures forall d :: 0 <= d < dict.Length ==> dict[d] == NULL
  {
    var d := 0;
    while d < dict.Length
      invariant 0 <= d <= dict.Length && forall e :: 0 <= e < d ==> dict[e] == NULL
    {
      dict[d] := NULL;
      d := d + 1;
    }
  }

  lemma CodedStart(v: Variant, out: array<byte>, inp: seq<byte>)
    ensures Coded(v, out, 0, [], inp, 0)
  {
  }

  lemma CodedIsFlushed(v: Variant, out: array<byte>, op: nat, ts: seq<Token>, inp: seq<byte>, ii: nat)
    requires Coded(v, out, op, ts, inp, ii)
    ensures Flushed(v, out, op, ts, inp, ii)
  {
  }

  lemma FlushedDecodes(v: Variant, out: array<byte>, op: nat, ts: seq<Token>, inp: seq<byte>)
    requires Flushed(v, out, op, ts, inp, |inp|)
    ensures op <= Bound(|inp|) && op <= out.Length
    ensures Decode(v, out[..op]) == Some(inp) && out[..op] == Encode(ts)
  {
    DecodeEncode(v, ts);
    assert inp[..|inp|] == inp;
  }

  /** store the final literal run */
  method StoreFinal(v: Variant, out: array<byte>, op: nat, inp: seq<byte>, ii: nat, ghost ts: seq<Token>)
    returns (op': nat, ghost ts': seq<Token>)
    requires Coded(v, out, op, ts, inp, ii) && ii < |inp|
    requires out.Length >= Bound(|inp|)
    modifies out
    ensures Flushed(v, out, op', ts', inp, |inp|) && ts' == ts + Stored(inp, ii, |inp| - ii)
  {
    hide Emitted, LegalAll, Encode, Expand, Bound, Context, Stored;
    RunRoom(op, ii, |inp|, |inp|);
    assert inp[..ii] + inp[ii..|inp|] == inp[..|inp|];
    if v == Lzo1 {
      op', ts' := StoreRunLzo1(out, op, inp, ii, |inp| - ii, ts);
    } else {
      op', ts' := StoreRunLzo1a(out, op, inp, ii, |inp| - ii, ts);
    }
    FlushedRoom(op, ii, |inp|, op');
  }

  method DoCompressLzo1(inp: seq<byte>, out: array<byte>, dict: array<int>,
                        hash0: (seq<byte>, nat) -> nat, hash: (seq<byte>, nat) -> nat)
    returns (op: nat, ghost ts: seq<Token>)
    requires |inp| > MIN_MATCH_LONG + DVAL_LEN + 1
    requires out.Length >= Bound(|inp|) && dict.Length == D_SIZE
    modifies out, dict
    ensures Flushed(Lzo1, out, op, ts, inp, |inp|) && ts == Parse(Lzo1, inp, hash, Start(inp, hash0))
  {
    hide Coded, Flushed, Emitted, LegalAll, Encode, Expand, Bound, Context, Parse, Turn, Stored, MatchLen, Lookup;
    var ipEnd := |inp| - DVAL_LEN - MIN_MATCH_LONG;
    var ip: nat, ii: nat := 1, 0;
    op, ts := 0, [];
    CodedStart(Lzo1, out, inp);
    ClearDictionary(dict);
    ghost var goal := Parse(Lzo1, inp, hash, Start(inp, hash0));
    assert dict[..] == seq(D_SIZE, _ => NULL);
    dict[hash0(inp, 0) % D_SIZE] := 0;
    while ip < ipEnd
      invariant ii <= ip <= |inp| - DVAL_LEN
      invariant Parse(Lzo1, inp, hash, Cursor(ip, ii, |inp| - 12, dict[..], ts)) == goal
      invariant Earlier(dict, ip) && Coded(Lzo1, out, op, ts, inp, ii)
    {
      ParseOne(Lzo1, inp, hash, Cursor(ip, ii, |inp| - 12, dict[..], ts));
      var off := FindLzo1(inp, ip, dict, hash);
      if off == 0 {
        ip := ip + 1;
        continue;
      }
      CodedIsFlushed(Lzo1, out, op, ts, inp, ii);
      if ip > ii {
        op, ts := CodeLiteralsLzo1(out, op, inp, ii, ip, ts);
      }
      var len := ExtendMatch(inp, ip, off);
      op, ts := CodeMatch(Lzo1, out, op, inp, ip, off, len, ts);
      ip := ip + len;
      ii := ip;
    }
    ParseLast(Lzo1, inp, hash, Cursor(ip, ii, |inp| - 12, dict[..], ts));
    op, ts := StoreFinal(Lzo1, out, op, inp, ii, ts);
  }

  method CompressLzo1(inp: seq<byte>, out: array<byte>, dict: array<int>,
                      hash0: (seq<byte>, nat) -> nat, hash: (seq<byte>, nat) -> nat)
    returns (op: nat)
    requires out.Length >= Bound(|inp|) && dict.Length == D_SIZE
    modifies out, dict
    ensures op <= out.Length && Decode(Lzo1, out[..op]) == Some(inp)
    ensures out[..op] == Encode(Parsed(Lzo1, inp, hash0, hash))
    ensures op <= if inp == [] then 0 else |inp| + |inp| / 32 + 1
  {
    ghost var ts: seq<Token> := [];
    if |inp| == 0 {
      return 0;
    } else if |inp| <= MIN_MATCH_LONG + DVAL_LEN + 1 {
      op, ts := StoreFinal(Lzo1, out, 0, inp, 0, ts);
    } else {
      op, ts := DoCompressLzo1(inp, out, dict, hash0, hash);
    }
    FlushedDecodes(Lzo1, out, op, ts, inp);
  }

  method DoCompressLzo1a(inp: seq<byte>, out: array<byte>, dict: array<int>,
                         hash0: (seq<byte>, nat) -> nat, hash: (seq<byte>, nat) -> nat)
    returns (op: nat, ghost ts: seq<Token>)
    requires |inp| > MIN_MATCH_LONG + DVAL_LEN + 1
    requires out.Length >= Bound(|inp|) && dict.Length == D_SIZE
    modifies out, dict
    ensures Flushed(Lzo1a, out, op, ts, inp, |inp|) && ts == Parse(Lzo1a, inp, hash, Start(inp, hash0))
  {
    hide Coded, Flushed, Emitted, LegalAll, Encode, Expand, Bound, Context, R1Ready, Parse, Turn, Stored, MatchLen,
      Lookup, Fold;
    var ipEnd := |inp| - DVAL_LEN - MIN_MATCH_LONG;
    var ip: nat, ii: nat, r1: int := 1, 0, ipEnd;
    op, ts := 0, [];
    CodedStart(Lzo1a, out, inp);
    ClearDictionary(dict);
    ghost var goal := Parse(Lzo1a, inp, hash, Start(inp, hash0));
    assert dict[..] == seq(D_SIZE, _ => NULL);
    dict[hash0(inp, 0) % D_SIZE] := 0;
    while ip < ipEnd
      invariant ii <= ip <= |inp| - DVAL_LEN
      invariant Parse(Lzo1a, inp, hash, Cursor(ip, ii, r1, dict[..], ts)) == goal
      invariant r1 == ipEnd || (r1 + MIN_MATCH <= ii && (r1 + MIN_MATCH == ii ==> R1Ready(ts)))
      invariant Coded(Lzo1a, out, op, ts, inp, ii)
    {
      ParseOne(Lzo1a, inp, hash, Cursor(ip, ii, r1, dict[..], ts));
      var off := FindLzo1a(inp, ip, dict, hash);
      if off == 0 {
        ip := ip + 1;
        continue;
      }
      CodedIsFlushed(Lzo1a, out, op, ts, inp, ii);
      if ip > ii {
        op, r1, ts := CodeLiteralsLzo1a(out, op, inp, ii, ip, r1, ts);
      }
      var len := ExtendMatch(inp, ip, off);
      op, ts := CodeMatch(Lzo1a, out, op, inp, ip, off, len, ts);
      ip := ip + len;
      ii := ip;
    }
    ParseLast(Lzo1a, inp, hash, Cursor(ip, ii, r1, dict[..], ts));
    op, ts := StoreFinal(Lzo1a, out, op, inp, ii, ts);
  }

  method CompressLzo1a(inp: seq<byte>, out: array<byte>, dict: array<int>,
                       hash0: (seq<byte>, nat) -> nat, hash: (seq<byte>, nat) -> nat)
    returns (op: nat)
    requires out.Length >= Bound(|inp|) && dict.Length == D_SIZE
    modifies out, dict
    ensures op <= out.Length && Decode(Lzo1a, out[..op]) == Some(inp)
    ensures out[..op] == Encode(Parsed(Lzo1a, inp, hash0, hash))
    ensures op <= if inp == [] then 0 else |inp| + |inp| / 32 + 1
  {
    ghost var ts: seq<Token> := [];
    if |inp| == 0 {
      return 0;
    } else if |inp| <= MIN_MATCH_LONG + DVAL_LEN + 1 {
      op, ts := StoreFinal(Lzo1a, out, 0, inp, 0, ts);
    } else {
      op, ts := DoCompressLzo1a(inp, out, dict, hash0, hash);
    }
    FlushedDecodes(Lzo1a, out, op, ts, inp);
  }
}
