/** lzo1x_999_compress_internal and lzo1y_999_compress_internal: lazy matching on top of the match finder of
    lzo_swd.ch. All tuning parameters are free. */
module Lzo1xCompressor {
  import opened Bytes
  import opened Window
  import opened Tokens
  import opened Lzo1xFormat
  import opened Lzo1xRoundTrip
  import opened Lzo1xEmitter
  import opened Lzo1xDecoder
  import opened Lzo1xParse
  import SwdRing
  import Swd

  const M2_MIN_LEN: nat := 3
  /** SWD_BEST_OFF: one more than the longest length of a short match code. */
  const BEST_OFF: nat := 34
  const F: nat := SwdRing.F

  ghost predicate IsMatch(dict: seq<byte>, inp: seq<byte>, p: nat, off: nat, len: nat) {
    Swd.Within(dict + inp, |dict| + p, off, len, M4_MAX_OFFSET)
  }

  /** Every match in `m` is a match at input position `p`. */
  ghost predicate Sound(dict: seq<byte>, inp: seq<byte>, p: nat, m: Found) {
    Swd.Sound(dict + inp, |dict| + p, M4_MAX_OFFSET, m)
  }

  /** The finder will look at input position `p` next. */
  ghost predicate Ready(swd: Swd.Finder, dict: seq<byte>, inp: seq<byte>, p: nat)
    reads swd, swd.b, swd.head3, swd.succ3, swd.llen3, swd.best3, swd.head2
  {
    swd.Valid() && swd.n == M4_MAX_OFFSET && swd.w == dict + inp && swd.at == |dict| + p
  }

  /** All reports so far keep the finder's promises, and there is none yet for `p` or behind it. */
  ghost predicate Known(swd: Swd.Finder, dict: seq<byte>, j: Job, seen: map<nat, Report>, p: nat)
    reads swd
  {
    && swd.useBestOff == j.prm.bestOff && swd.bestCount == BEST_OFF
    && AllReported(dict, j, seen, swd.niceLength, swd.marks) && forall q :: q in seen ==> q < p
  }

  ghost predicate Apart(swd: Swd.Finder, enc: Encoder, out: array<byte>) {
    enc !in swd.Memory() && out !in swd.Memory()
  }

  /** better_match: give up one or two bytes of length for a much nearer offset. */
  method BetterMatch(f: Flavour, m: Found, mLen: nat, mOff: nat,
                     ghost dict: seq<byte>, ghost inp: seq<byte>, ghost p: nat)
    returns (len: nat, off: nat)
    requires Sound(dict, inp, p, m) && 2 <= mLen == m.len && mOff == m.off
    ensures 2 <= len <= mLen && IsMatch(dict, inp, p, off, len) && m.(len := len, off := off) == Nearer(f, m)
    ensures (len, off) == (mLen, mOff) ||
            (mLen - 2 <= len < mLen && 3 <= len && (off <= M2MaxOffset(f) < mOff || off <= M3_MAX_OFFSET < mOff))
  {
    hide Swd.Within;
    len, off := mLen, mOff;
    if mLen <= M2_MIN_LEN || mOff <= M2MaxOffset(f) {
      return;
    }
    if mOff > M2MaxOffset(f) && M2_MIN_LEN + 1 <= mLen <= M2MaxLen(f) + 1
      && Swd.BestOff(m, mLen - 1) != 0 && Swd.BestOff(m, mLen - 1) <= M2MaxOffset(f)
    {
      return mLen - 1, Swd.BestOff(m, mLen - 1);
    }
    if mOff > M3_MAX_OFFSET && M4_MAX_LEN + 1 <= mLen <= M2MaxLen(f) + 2
      && Swd.BestOff(m, mLen - 2) != 0 && Swd.BestOff(m, mLen - 2) <= M2MaxOffset(f)
    {
      return mLen - 2, Swd.BestOff(m, mLen - 2);
    }
    if mOff > M3_MAX_OFFSET && M4_MAX_LEN + 1 <= mLen <= M3_MAX_LEN + 1
      && Swd.BestOff(m, mLen - 1) != 0 && Swd.BestOff(m, mLen - 1) <= M3_MAX_OFFSET
    {
      return mLen - 1, Swd.BestOff(m, mLen - 1);
    }
  }

  /** min_gain: how much longer a later match must be. */
  method LazyGain(ahead: nat, lit1: nat, lit2: nat, l1: int, l2: int, l3: int) returns (gain: nat)
    requires 1 <= ahead && lit2 == lit1 + ahead
    ensures gain == MinGain(ahead, lit1, l1, l2, l3)
  {
    var g: int := ahead;
    if lit1 <= 3 {
      g := g + if lit2 <= 3 then 0 else 2;
    } else if lit1 <= 18 {
      g := g + if lit2 <= 18 then 0 else 1;
    }
    g := g + (l2 - l1) * 2;
    if l3 > 0 {
      g := g - (ahead - l3) * 2;
    }
    gain := if g < 0 then 0 else g;
  }

  /** A shorter prefix of a match is a match. */
  lemma PrefixMatch(dict: seq<byte>, inp: seq<byte>, p: nat, off: nat, len: nat, n: nat)
    requires IsMatch(dict, inp, p, off, len) && n <= len
    ensures IsMatch(dict, inp, p, off, n)
  {
  }

  /** find_match, with the chain limit set before, and what it says written down. */
  method Ask(swd: Swd.Finder, chain: nat, thisLen: nat, skip: nat, j: Job, ghost dict: seq<byte>, ghost p: nat,
             ghost seen: map<nat, Report>)
    returns (m: Found, look: nat, ghost more: map<nat, Report>)
    requires Ready(swd, dict, j.inp, p) && (skip > 0 ==> skip <= thisLen && p + (thisLen - skip) <= |j.inp|)
    requires p <= |j.inp| && Known(swd, dict, j, seen, p)
    modifies swd.Memory()
    ensures var at := p + if skip > 0 then thisLen - skip else 0;
            && Sound(dict, j.inp, at, m) && look == Look(j.inp, at)
            && (at < |j.inp| ==> Ready(swd, dict, j.inp, at + 1))
            && more == seen[at := Report(m, chain)] && Known(swd, dict, j, more, at + 1)
    ensures Extends(seen, more)
  {
    hide Swd.Finder.Valid, AllReported, Swd.Thorough, Swd.Prompt, Swd.Nearest, Swd.Longest, Swd.Recorded;
    ghost var marks := swd.marks;
    MarksSoFar(swd);
    swd.LimitChain(chain);
    m, look := swd.FindMatch(thisLen, skip);
    assert swd.marks[..|marks|] == marks;
    ghost var at := p + if skip > 0 then thisLen - skip else 0;
    more := seen[at := Report(m, chain)];
    AddReport(dict, j, seen, swd.niceLength, marks, swd.marks, at, Report(m, chain));
  }

  lemma MarksSoFar(swd: Swd.Finder)
    requires swd.Valid()
    ensures |swd.marks| == swd.at
  {
    hide Swd.Finder.Placed, Swd.Finder.Filled, Swd.Finder.Chains, Swd.Finder.Pairs, Swd.Finder.Counted;
  }

  /** A new report joins the others. */
  lemma AddReport(dict: seq<byte>, j: Job, seen: map<nat, Report>, nice: nat, marks: seq<nat>, marks': seq<nat>,
                  p: nat, r: Report)
    requires AllReported(dict, j, seen, nice, marks) && marks <= marks' && p <= |j.inp|
    requires Swd.Reported(dict + j.inp, |dict| + p, M4_MAX_OFFSET, r.chain, nice, marks', r.m)
    requires j.prm.bestOff ==> Swd.Recorded(dict + j.inp, |dict| + p, r.m) && (r.m.len >= 2 ==> |r.m.bestOff| == 34)
    ensures AllReported(dict, j, seen[p := r], nice, marks')
  {
    hide Swd.Reported, Swd.Recorded;
    var w, more := dict + j.inp, marks'[|marks|..];
    assert marks' == marks + more;
    forall q | q in seen
      ensures Swd.Reported(w, |dict| + q, M4_MAX_OFFSET, seen[q].chain, nice, marks', seen[q].m)
    {
      Swd.ReportedOn(w, |dict| + q, M4_MAX_OFFSET, seen[q].chain, nice, marks, more, seen[q].m);
    }
  }

  /** The lazy search: look at the next positions for a match that is worth coding instead. `ahead` is how far
      it went; `l3` is positive if the bytes passed over can be coded as a shortened match. */
  method SearchAhead(swd: Swd.Finder, j: Job, ghost dict: seq<byte>, look0: nat, ghost a: Place,
                     ghost seen: map<nat, Report>, m: Found, lit: nat, first: bool, l1: int, maxAhead: int)
    returns (lazy: bool, l3: int, ahead: nat, look: nat, cur: Found, ghost more: map<nat, Report>)
    requires Ready(swd, dict, j.inp, a.p + 1) && Known(swd, dict, j, seen, a.p + 1) && look0 == Look(j.inp, a.p)
    requires 2 <= m.len && 1 <= m.off && a.p + m.len <= |j.inp| && maxAhead < m.len
    requires lit == a.lit && (first <==> a.ts == []) && l1 == OwnCost(j, m, lit) && maxAhead == MaxAhead(j, m, lit)
    modifies swd.Memory()
    ensures Ahead(j, more, a, m, ahead, lazy) && Extends(seen, more) && ahead < m.len
    ensures if lazy then 1 <= ahead else ahead >= maxAhead || look <= m.len
    ensures Ready(swd, dict, j.inp, a.p + ahead + 1) && Known(swd, dict, j, more, a.p + ahead + 1)
    ensures look == Look(j.inp, a.p + ahead)
    ensures lazy ==> Sound(dict, j.inp, a.p + ahead, cur) && cur == Better(j.prm, j.f, Heard(more, a.p + ahead))
    ensures lazy ==> l3 == ShortCost(j, a, m, ahead)
  {
    hide Ready, Sound, Codable, Code, Known, Worth, Better, MinGain, MaxAhead, OwnCost;
    lazy, l3, ahead, look, cur, more := false, -1, 0, look0, m, seen;
    while ahead < maxAhead && look > m.len && !lazy
      invariant Ahead(j, more, a, m, ahead, lazy) && Extends(seen, more) && ahead < m.len
      invariant Ready(swd, dict, j.inp, a.p + ahead + 1) && Known(swd, dict, j, more, a.p + ahead + 1)
      invariant look == Look(j.inp, a.p + ahead)
      invariant lazy ==> Sound(dict, j.inp, a.p + ahead, cur) && cur == Better(j.prm, j.f, Heard(more, a.p + ahead))
      invariant lazy ==> l3 == ShortCost(j, a, m, ahead)
      decreases maxAhead - ahead
    {
      var chain := if m.len >= j.prm.goodLength then j.prm.maxChain / 4 else j.prm.maxChain;
      ghost var before := more;
      cur, look, more := Ask(swd, chain, 1, 0, j, dict, a.p + ahead + 1, more);
      ghost var heard := cur;
      lazy, l3, cur := IsWorth(j, a, m, cur, ahead + 1, lit, first, l1, dict);
      AheadNext(j, before, more, a, m, ahead, lazy);
      ahead := ahead + 1;
    }
  }

  /** Is the match `cur`, `ahead` positions further on, worth coding instead of `m`? */
  method IsWorth(j: Job, ghost a: Place, m: Found, cur: Found, ahead: nat, lit: nat, first: bool, l1: int,
                 ghost dict: seq<byte>)
    returns (lazy: bool, l3: int, better: Found)
    requires Sound(dict, j.inp, a.p + ahead, cur) && 2 <= m.len && 1 <= m.off && 1 <= ahead
    requires lit == a.lit && (first <==> a.ts == []) && l1 == OwnCost(j, m, lit)
    ensures lazy <==> Worth(j, a, m, ahead, cur)
    ensures lazy ==> l3 == ShortCost(j, a, m, ahead)
    ensures lazy ==> better == Better(j.prm, j.f, cur) && Sound(dict, j.inp, a.p + ahead, better)
  {
    hide Sound, Codable, Code, MinGain, OwnCost, Nearer;
    lazy, l3, better := false, -1, cur;
    if cur.len < m.len || (cur.len == m.len && cur.off >= m.off) {
      return;
    }
    better := Improve(j.f, j.prm, cur, dict, j.inp, a.p + ahead);
    var l2 := LenOfCodedMatch(j.f, better.len, better.off, lit + ahead);
    if l2 < 0 {
      return;
    }
    if !first {
      l3 := LenOfCodedMatch(j.f, ahead, m.off, lit);
    }
    var gain := LazyGain(ahead, lit, lit + ahead, l1, l2, l3);
    lazy := better.len >= m.len + gain;
  }

  lemma AheadNext(j: Job, seen: map<nat, Report>, more: map<nat, Report>, a: Place, m: Found, k: nat, lazy: bool)
    requires Ahead(j, seen, a, m, k, false) && Extends(seen, more) && k < MaxAhead(j, m, a.lit)
    requires Looked(j, more, a, m, k + 1, lazy)
    ensures Ahead(j, more, a, m, k + 1, lazy)
  {
    hide Worth, MaxAhead, LazyChain, Look;
    AheadOn(j, seen, more, a, m, k, false);
  }

  method Improve(f: Flavour, prm: Params, m: Found, ghost dict: seq<byte>, ghost inp: seq<byte>, ghost p: nat)
    returns (r: Found)
    requires Sound(dict, inp, p, m) && 2 <= m.len
    ensures Sound(dict, inp, p, r) && 1 <= r.off && r == Better(prm, f, m)
  {
    hide Nearer;
    r := m;
    if prm.bestOff {
      var len, off := BetterMatch(f, m, m.len, m.off, dict, inp, p);
      r := m.(len := len, off := off);
      Replaced(dict, inp, p, m, r);
    }
  }

  lemma Replaced(dict: seq<byte>, inp: seq<byte>, p: nat, m: Found, r: Found)
    requires Sound(dict, inp, p, m) && 2 <= m.len && IsMatch(dict, inp, p, r.off, r.len) && r.bestOff == m.bestOff
    ensures Sound(dict, inp, p, r)
  {
    hide Swd.Within;
    forall i | 2 <= i && Swd.BestOff(r, i) != 0
      ensures Swd.Within(dict + inp, |dict| + p, Swd.BestOff(r, i), i, M4_MAX_OFFSET)
    {
      assert Swd.BestOff(r, i) == Swd.BestOff(m, i);
    }
  }

  /** Does the loop code a literal here although there may be a match? */
  predicate TakesLiteral(f: Flavour, m: Found, lit: nat, first: bool): (r: bool)
    ensures r <==> IsLiteral(f, m, lit, first)
  {
    || m.len < 2
    || (m.len == 2 && (m.off > M1_MAX_OFFSET || lit == 0 || lit >= 4))
    || (m.len == 2 && first)
    || (first && lit == 0)
    || (m.len == M2_MIN_LEN && m.off > MxMaxOffset(f) && lit >= 4)
  }

  /** What the main loop keeps: everything before the pending literals is coded, and every byte of it is
      counted either as a literal or as part of a match. */
  ghost predicate Running(enc: Encoder, dict: seq<byte>, out: array<byte>, op: nat, ts: seq<Token>, inp: seq<byte>,
                          p: nat, lit: nat)
    reads enc, out
  {
    && lit <= p <= |inp|
    && Flushed(enc.f, dict, out, op, ts, inp, p - lit, 0)
    && enc.litBytes + enc.matchBytes == p - lit
  }

  /** Code the pending literals and then a match at position `p`. */
  method CodeRunAndMatch(enc: Encoder, out: array<byte>, op: nat, inp: seq<byte>, p: nat, lit: nat,
                         mLen: nat, mOff: nat, ghost dict: seq<byte>, ghost ts: seq<Token>)
    returns (op': nat, ghost ts': seq<Token>)
    requires Running(enc, dict, out, op, ts, inp, p, lit) && (op == 0 ==> lit > 0)
    requires Codable(mOff, mLen, LitContext(lit)) && IsMatch(dict, inp, p, mOff, mLen)
    requires out.Length >= Bound(|inp|)
    modifies enc, out
    ensures Running(enc, dict, out, op', ts', inp, p + mLen, 0) && op' > 0
    ensures ts' == Stored(ts, Pending(inp, p, lit)) + [Match(mOff, mLen, [])]
  {
    hide Flushed, Codable, Bound;
    MatchInside(dict, inp, p, mOff, mLen);
    op', ts' := enc.CodeRun(out, op, inp, p - lit, lit, mLen, dict, ts);
    op', ts' := enc.CodeMatch(out, op', mLen, mOff, dict, ts', inp, p);
    FlushedNonEmpty(enc.f, dict, out, op', ts', inp, p + mLen, 0);
  }

  lemma MatchInside(dict: seq<byte>, inp: seq<byte>, p: nat, off: nat, len: nat)
    requires IsMatch(dict, inp, p, off, len)
    ensures 1 <= off && p + len <= |inp|
  {
  }

  lemma FlushedNonEmpty(f: Flavour, dict: seq<byte>, out: array<byte>, op: nat, ts: seq<Token>,
                        inp: seq<byte>, p: nat, lit: nat)
    requires Flushed(f, dict, out, op, ts, inp, p, lit)
    ensures op > 0 <==> ts != []
    ensures p <= |inp|
  {
  }

  lemma RunningStart(enc: Encoder, dict: seq<byte>, out: array<byte>, inp: seq<byte>)
    requires enc.litBytes == enc.matchBytes == 0
    ensures Running(enc, dict, out, 0, [], inp, 0, 0)
  {
    assert dict + inp[..0] == dict;
  }

  /** What the main loop knows at its start: `lit` literals are pending at `p`, where the finder has reported `cur`,
      and the rounds so far have led here. */
  ghost predicate Going(enc: Encoder, out: array<byte>, op: nat, swd: Swd.Finder, dict: seq<byte>, j: Job,
                        p: nat, lit: nat, cur: Found, look: nat, s: Story)
    reads enc, out, swd, swd.b, swd.head3, swd.succ3, swd.llen3, swd.best3, swd.head2
  {
    && enc.f == j.f && Running(enc, dict, out, op, s.end.ts, j.inp, p, lit) && Sound(dict, j.inp, p, cur)
    && p <= |j.inp| && look == Look(j.inp, p) && (p < |j.inp| ==> Ready(swd, dict, j.inp, p + 1))
    && Known(swd, dict, j, s.seen, p + 1)
    && Follows(j, s.seen, s.rounds, s.end) && s.end == Place(p, lit, cur, s.end.ts)
  }

  /** A literal, and on to the next position. */
  method PassLiteral(enc: Encoder, out: array<byte>, ghost op: nat, swd: Swd.Finder, ghost dict: seq<byte>, j: Job,
                     ghost p: nat, ghost lit: nat, ghost cur: Found, ghost look: nat, ghost s: Story)
    returns (cur': Found, look': nat, ghost s': Story)
    requires Going(enc, out, op, swd, dict, j, p, lit, cur, look, s) && Apart(swd, enc, out) && p < |j.inp|
    requires IsLiteral(j.f, cur, lit, s.end.ts == [])
    modifies swd.Memory()
    ensures Going(enc, out, op, swd, dict, j, p + 1, lit + 1, cur', look', s')
  {
    hide Running, Ready, Sound, Known, IsLiteral, Follows, Look;
    RunningOn(enc, dict, out, op, s.end.ts, j.inp, p, lit, 1);
    ghost var seen, rs, end;
    cur', look', seen := Ask(swd, j.prm.maxChain, 1, 0, j, dict, p + 1, s.seen);
    rs, end := LiteralRound(j, s.seen, seen, s.rounds, s.end, cur');
    s' := Story(seen, rs, end);
  }

  /** A match to be coded: what it costs, and how far to look ahead for a better one. */
  method Weigh(j: Job, cur: Found, lit: nat, first: bool, ghost dict: seq<byte>, ghost p: nat)
    returns (m: Found, l1: int, maxAhead: int)
    requires !TakesLiteral(j.f, cur, lit, first) && Sound(dict, j.inp, p, cur)
    ensures m == Better(j.prm, j.f, cur) && l1 == OwnCost(j, m, lit) && maxAhead == MaxAhead(j, m, lit) < m.len
    ensures Codable(m.off, m.len, LitContext(lit)) && IsMatch(dict, j.inp, p, m.off, m.len)
    ensures (first ==> lit > 0) && 2 <= m.len && 1 <= m.off && p + m.len <= |j.inp|
  {
    hide Codable, Code, Sound, IsMatch, Better;
    LongEnough(j.f, cur, lit, first);
    m := Improve(j.f, j.prm, cur, dict, j.inp, p);
    Accepted(j.f, j.prm, cur, m, lit, first, dict, j.inp, p);
    l1, maxAhead := 0, 0;
    if j.prm.tryLazy > 0 && m.len < j.prm.maxLazy {
      l1 := LenOfCodedMatch(j.f, m.len, m.off, lit);
      MatchCost(j.f, m.off, m.len, LitContext(lit));
      maxAhead := if j.prm.tryLazy < l1 - 1 then j.prm.tryLazy else l1 - 1;
    }
  }

  lemma LongEnough(f: Flavour, cur: Found, lit: nat, first: bool)
    requires !TakesLiteral(f, cur, lit, first)
    ensures cur.len >= 2
  {
  }

  /** A better match stands ahead: the bytes passed over become a shortened match or literals. */
  method PassAhead(enc: Encoder, out: array<byte>, op: nat, swd: Swd.Finder, ghost dict: seq<byte>, j: Job,
                   p: nat, lit: nat, m: Found, l3: int, ahead: nat, cur: Found, ghost look: nat,
                   ghost s: Story, ghost seen: map<nat, Report>)
    returns (op': nat, lit': nat, ghost s': Story)
    requires enc.f == j.f && Running(enc, dict, out, op, s.end.ts, j.inp, p, lit) && Apart(swd, enc, out)
    requires Follows(j, s.seen, s.rounds, s.end) && s.end == Place(p, lit, s.end.cur, s.end.ts)
    requires !IsLiteral(j.f, s.end.cur, lit, s.end.ts == []) && m == Better(j.prm, j.f, s.end.cur)
    requires IsMatch(dict, j.inp, p, m.off, m.len) && p + m.len <= |j.inp| && 1 <= ahead < m.len
    requires Ahead(j, seen, s.end, m, ahead, true) && Extends(s.seen, seen)
    requires Ready(swd, dict, j.inp, p + ahead + 1) && Known(swd, dict, j, seen, p + ahead + 1)
    requires look == Look(j.inp, p + ahead) && Sound(dict, j.inp, p + ahead, cur)
    requires cur == Better(j.prm, j.f, Heard(seen, p + ahead)) && l3 == ShortCost(j, s.end, m, ahead)
    requires out.Length >= Bound(|j.inp|)
    modifies enc, out
    ensures Going(enc, out, op', swd, dict, j, p + ahead, lit', cur, look, s')
  {
    hide Running, Ready, Sound, IsMatch, Codable, Bound, Known, IsLiteral, Follows, Ahead, Better, ShortCost, WithMatch,
      Look, Heard, Extends;
    ghost var rs, end := LazyRound(j, s.seen, seen, s.rounds, s.end, m, ahead);
    s' := Story(seen, rs, end);
    RunningFirst(enc, dict, out, op, s.end.ts, j.inp, p, lit);
    if l3 > 0 {
      ShortIsCodable(j, s.end, m, ahead);
      PrefixMatch(dict, j.inp, p, m.off, m.len, ahead);
      ghost var ts;
      op', ts := CodeRunAndMatch(enc, out, op, j.inp, p, lit, ahead, m.off, dict, s.end.ts);
      lit' := 0;
      WithMatchIs(j.inp, s.end, m.off, ahead);
    } else {
      RunningOn(enc, dict, out, op, s.end.ts, j.inp, p, lit, ahead);
      op', lit' := op, lit + ahead;
    }
  }

  lemma WithMatchIs(inp: seq<byte>, a: Place, off: nat, len: nat)
    ensures WithMatch(inp, a, off, len) == Stored(a.ts, Pending(inp, a.p, a.lit)) + [Match(off, len, [])]
  {
  }

  /** No better match ahead: code this one and go on behind it. */
  method PassMatch(enc: Encoder, out: array<byte>, op: nat, swd: Swd.Finder, ghost dict: seq<byte>, j: Job,
                   p: nat, lit: nat, m: Found, ahead: nat, ghost s: Story, ghost asked: map<nat, Report>)
    returns (op': nat, cur: Found, look: nat, ghost s': Story)
    requires enc.f == j.f && Running(enc, dict, out, op, s.end.ts, j.inp, p, lit) && Apart(swd, enc, out)
    requires Follows(j, s.seen, s.rounds, s.end) && s.end == Place(p, lit, s.end.cur, s.end.ts)
    requires !IsLiteral(j.f, s.end.cur, lit, s.end.ts == []) && m == Better(j.prm, j.f, s.end.cur)
    requires IsMatch(dict, j.inp, p, m.off, m.len) && p + m.len <= |j.inp| && ahead < m.len
    requires Codable(m.off, m.len, LitContext(lit)) && (op == 0 ==> lit > 0)
    requires Ahead(j, asked, s.end, m, ahead, false) && Extends(s.seen, asked)
    requires ahead >= MaxAhead(j, m, lit) || Look(j.inp, p + ahead) <= m.len
    requires Ready(swd, dict, j.inp, p + ahead + 1) && Known(swd, dict, j, asked, p + ahead + 1)
    requires out.Length >= Bound(|j.inp|)
    modifies enc, out, swd.Memory()
    ensures Going(enc, out, op', swd, dict, j, p + m.len, 0, cur, look, s')
  {
    hide Running, Ready, Sound, IsMatch, Codable, Bound, Known, IsLiteral, Follows, Ahead, Better, ShortCost, WithMatch,
      Look, Heard, MaxAhead;
    ghost var ts, seen, rs, end;
    op', ts := CodeRunAndMatch(enc, out, op, j.inp, p, lit, m.len, m.off, dict, s.end.ts);
    cur, look, seen := Ask(swd, j.prm.maxChain, m.len, 1 + ahead, j, dict, p + ahead + 1, asked);
    rs, end := MatchRound(j, s.seen, seen, s.rounds, s.end, m, ahead, asked, cur);
    WithMatchIs(j.inp, s.end, m.off, m.len);
    s' := Story(seen, rs, end);
  }

  /** The main loop up to the last pending literals. */
  method CompressLoop(enc: Encoder, out: array<byte>, swd: Swd.Finder, j: Job, ghost dict: seq<byte>)
    returns (op: nat, lit: nat, ghost s: Story)
    requires Ready(swd, dict, j.inp, 0) && Apart(swd, enc, out) && out.Length >= Bound(|j.inp|) && enc.f == j.f
    requires enc.litBytes == enc.matchBytes == 0
    requires swd.useBestOff == j.prm.bestOff && swd.bestCount == BEST_OFF
    modifies enc, out, swd.Memory()
    ensures Running(enc, dict, out, op, s.end.ts, j.inp, |j.inp|, lit)
    ensures Follows(j, s.seen, s.rounds, s.end) && s.end.p == |j.inp| && s.end.lit == lit
    ensures AllReported(dict, j, s.seen, swd.niceLength, swd.marks)
  {
    hide Going, Running, Ready, Sound, IsMatch, Codable, Bound, IsLiteral, Ahead, Better, ShortCost, Known, Follows,
      OwnCost, MaxAhead;
    var cur, look;
    cur, look, s := Begin(enc, out, swd, j, dict);
    var p := 0;
    op, lit := 0, 0;
    GoingParts(enc, out, op, swd, dict, j, p, lit, cur, look, s);
    while look > 0
      invariant Going(enc, out, op, swd, dict, j, p, lit, cur, look, s)
      invariant p <= |j.inp| && look == Look(j.inp, p)
      decreases |j.inp| - p
    {
      GoingParts(enc, out, op, swd, dict, j, p, lit, cur, look, s);
      if TakesLiteral(j.f, cur, lit, op == 0) {
        cur, look, s := PassLiteral(enc, out, op, swd, dict, j, p, lit, cur, look, s);
        p, lit := p + 1, lit + 1;
        GoingParts(enc, out, op, swd, dict, j, p, lit, cur, look, s);
        continue;
      }
      var m, l1, maxAhead := Weigh(j, cur, lit, op == 0, dict, p);
      var lazy, l3, ahead;
      ghost var seen;
      lazy, l3, ahead, look, cur, seen := SearchAhead(swd, j, dict, look, s.end, s.seen, m, lit, op == 0, l1, maxAhead);
      if lazy {
        op, lit, s := PassAhead(enc, out, op, swd, dict, j, p, lit, m, l3, ahead, cur, look, s, seen);
        p := p + ahead;
      } else {
        op, cur, look, s := PassMatch(enc, out, op, swd, dict, j, p, lit, m, ahead, s, seen);
        p, lit := p + m.len, 0;
      }
      GoingParts(enc, out, op, swd, dict, j, p, lit, cur, look, s);
    }
    GoingParts(enc, out, op, swd, dict, j, p, lit, cur, look, s);
    KnownParts(swd, dict, j, s.seen, p + 1);
  }

  lemma GoingParts(enc: Encoder, out: array<byte>, op: nat, swd: Swd.Finder, dict: seq<byte>, j: Job,
                   p: nat, lit: nat, cur: Found, look: nat, s: Story)
    requires Going(enc, out, op, swd, dict, j, p, lit, cur, look, s)
    ensures enc.f == j.f && Running(enc, dict, out, op, s.end.ts, j.inp, p, lit) && Sound(dict, j.inp, p, cur)
    ensures p <= |j.inp| && look == Look(j.inp, p) && (p < |j.inp| ==> Ready(swd, dict, j.inp, p + 1))
    ensures Known(swd, dict, j, s.seen, p + 1) && (op == 0 <==> s.end.ts == [])
    ensures Follows(j, s.seen, s.rounds, s.end) && s.end == Place(p, lit, cur, s.end.ts)
  {
    hide Running, Sound, Ready, Known, Follows, Look;
    RunningFirst(enc, dict, out, op, s.end.ts, j.inp, p, lit);
  }

  lemma KnownParts(swd: Swd.Finder, dict: seq<byte>, j: Job, seen: map<nat, Report>, p: nat)
    requires Known(swd, dict, j, seen, p)
    ensures AllReported(dict, j, seen, swd.niceLength, swd.marks)
  {
    hide AllReported;
  }

  method Begin(enc: Encoder, out: array<byte>, swd: Swd.Finder, j: Job, ghost dict: seq<byte>)
    returns (cur: Found, look: nat, ghost s: Story)
    requires Ready(swd, dict, j.inp, 0) && Apart(swd, enc, out) && enc.f == j.f
    requires enc.litBytes == enc.matchBytes == 0
    requires swd.useBestOff == j.prm.bestOff && swd.bestCount == BEST_OFF
    modifies swd.Memory()
    ensures Going(enc, out, 0, swd, dict, j, 0, 0, cur, look, s)
  {
    hide Running, Ready, Sound, Known, Follows, Look;
    RunningStart(enc, dict, out, j.inp);
    NothingKnown(swd, dict, j);
    ghost var seen;
    cur, look, seen := Ask(swd, j.prm.maxChain, 0, 0, j, dict, 0, map[]);
    s := Story(seen, [], Place(0, 0, cur, []));
    FollowsStart(j, seen, cur);
  }

  lemma NothingKnown(swd: Swd.Finder, dict: seq<byte>, j: Job)
    requires swd.useBestOff == j.prm.bestOff && swd.bestCount == BEST_OFF
    ensures Known(swd, dict, j, map[], 0)
  {
  }

  lemma FollowsStart(j: Job, seen: map<nat, Report>, cur: Found)
    requires 0 in seen && seen[0] == Report(cur, j.prm.maxChain)
    ensures Follows(j, seen, [], Place(0, 0, cur, []))
  {
  }

  lemma RunningFirst(enc: Encoder, dict: seq<byte>, out: array<byte>, op: nat, ts: seq<Token>, inp: seq<byte>,
                     p: nat, lit: nat)
    requires Running(enc, dict, out, op, ts, inp, p, lit)
    ensures (op == 0 <==> ts == []) && lit <= p <= |inp|
  {
  }

  /** A shortened match that has a price has a code. */
  lemma ShortIsCodable(j: Job, a: Place, m: Found, k: nat)
    requires ShortCost(j, a, m, k) > 0
    ensures Codable(m.off, k, LitContext(a.lit)) && a.ts != []
  {
    hide Codable;
  }

  lemma RunningOn(enc: Encoder, dict: seq<byte>, out: array<byte>, op: nat, ts: seq<Token>, inp: seq<byte>,
                  p: nat, lit: nat, n: nat)
    requires Running(enc, dict, out, op, ts, inp, p, lit) && p + n <= |inp|
    ensures Running(enc, dict, out, op, ts, inp, p + n, lit + n)
  {
  }

  /** A match that the loop does not turn into a literal can be coded behind the pending literals. */
  lemma Accepted(f: Flavour, prm: Params, cur: Found, m: Found, lit: nat, first: bool,
                 dict: seq<byte>, inp: seq<byte>, p: nat)
    requires !TakesLiteral(f, cur, lit, first) && Sound(dict, inp, p, cur)
    requires Sound(dict, inp, p, m) && 1 <= m.off && m == Better(prm, f, cur)
    ensures Codable(m.off, m.len, LitContext(lit)) && IsMatch(dict, inp, p, m.off, m.len)
    ensures first ==> lit > 0
    ensures 2 <= m.len && p + m.len <= |inp|
  {
    hide Nearer;
  }

  lemma LiteralRound(j: Job, before: map<nat, Report>, seen: map<nat, Report>, rs: seq<Round>, a: Place, cur: Found)
    returns (rs': seq<Round>, end: Place)
    requires Follows(j, before, rs, a) && Extends(before, seen) && IsLiteral(j.f, a.cur, a.lit, a.ts == [])
    requires a.p + 1 in seen && seen[a.p + 1] == Report(cur, j.prm.maxChain)
    ensures Follows(j, seen, rs', end) && end == Place(a.p + 1, a.lit + 1, cur, a.ts)
  {
    hide Follows, IsLiteral;
    var r := Round(a, 0, false);
    FollowsOn(j, before, seen, rs, a);
    FollowsSnoc(j, seen, rs, r);
    rs', end := rs + [r], Onward(j, seen, r);
  }

  lemma MatchRound(j: Job, before: map<nat, Report>, seen: map<nat, Report>, rs: seq<Round>, a: Place, m: Found, k: nat,
                   asked: map<nat, Report>, cur: Found)
    returns (rs': seq<Round>, end: Place)
    requires Follows(j, before, rs, a) && Extends(before, asked) && !IsLiteral(j.f, a.cur, a.lit, a.ts == [])
    requires m == Better(j.prm, j.f, a.cur) && Ahead(j, asked, a, m, k, false) && Extends(asked, seen)
    requires k >= MaxAhead(j, m, a.lit) || Look(j.inp, a.p + k) <= m.len
    requires a.p + m.len in seen && seen[a.p + m.len] == Report(cur, j.prm.maxChain)
    ensures Follows(j, seen, rs', end)
    ensures end == Place(a.p + m.len, 0, cur, WithMatch(j.inp, a, m.off, m.len))
  {
    hide Follows, IsLiteral, Ahead, MaxAhead, Look, Better, WithMatch;
    var r := Round(a, k, false);
    FollowsOn(j, before, seen, rs, a);
    AheadOn(j, asked, seen, a, m, k, false);
    FollowsSnoc(j, seen, rs, r);
    rs', end := rs + [r], Onward(j, seen, r);
  }

  lemma LazyRound(j: Job, before: map<nat, Report>, seen: map<nat, Report>, rs: seq<Round>, a: Place, m: Found, k: nat)
    returns (rs': seq<Round>, end: Place)
    requires Follows(j, before, rs, a) && Extends(before, seen) && !IsLiteral(j.f, a.cur, a.lit, a.ts == [])
    requires m == Better(j.prm, j.f, a.cur) && Ahead(j, seen, a, m, k, true)
    ensures Follows(j, seen, rs', end)
    ensures var next := Better(j.prm, j.f, Heard(seen, a.p + k));
            end == if ShortCost(j, a, m, k) > 0 then Place(a.p + k, 0, next, WithMatch(j.inp, a, m.off, k))
                   else Place(a.p + k, a.lit + k, next, a.ts)
  {
    hide Follows, IsLiteral, Ahead, ShortCost, Better, WithMatch;
    var r := Round(a, k, true);
    FollowsOn(j, before, seen, rs, a);
    FollowsSnoc(j, seen, rs, r);
    rs', end := rs + [r], Onward(j, seen, r);
  }

  /** The defaults of lzo1x_999_compress_internal and of the finder. */
  method Settle(prm: Params) returns (r: Params)
    ensures r == Settled(prm)
  {
    r := prm;
    if prm.tryLazy < 0 {
      r := r.(tryLazy := 1);
    }
    if prm.goodLength == 0 {
      r := r.(goodLength := 32);
    }
    if prm.maxLazy == 0 {
      r := r.(maxLazy := 32);
    }
    r := r.(niceLength := if prm.niceLength > 0 then prm.niceLength else F,
            maxChain := if prm.maxChain > 0 then prm.maxChain else Swd.MAX_CHAIN);
  }

  /** lzo1x_999_compress_dict and its LZO1Y twin: for every input, every preset dictionary and all tuning parameters,
      the block decodes to the input with code LZO_E_OK in any buffer that is large enough, and every input byte is
      counted once as a literal or as part of a match. The tokens are those that the finder's reports decide on. */
  method Compress(f: Flavour, inp: seq<byte>, out: array<byte>, dict0: seq<byte>, params: Params)
    returns (op: nat, enc: Encoder, ghost t: Trace)
    requires out.Length >= Bound(|inp|) + 3
    modifies out
    ensures op <= out.Length && fresh(enc)
    ensures forall cap :: |inp| <= cap ==> Decode(f, Trim(dict0), cap, out[..op]) == Done(Trim(dict0) + inp, op)
    ensures enc.litBytes + enc.matchBytes == |inp|
    ensures var j := Job(f, Settled(params), inp);
            Complete(Trim(dict0), j, t) && out[..op] == Encode(f, TokensOf(j, t)) + EOF_CODE
  {
    hide Decode, Bound, Trim, Flushed, Running, Swd.Finder.Valid, AllReported, Follows, Stored;
    var prm := Settle(params);
    ghost var dict := Trim(dict0);
    enc := new Encoder(f);
    TrimIsTail(dict0);
    var swd := new Swd.Finder(M4_MAX_OFFSET, dict0, inp, BEST_OFF, prm.bestOff, prm.maxChain, prm.niceLength);
    var j := Job(f, prm, inp);
    NothingKnown(swd, dict, j);
    var lit;
    ghost var s, ts;
    op, lit, s := CompressLoop(enc, out, swd, j, dict);
    t := Trace(s, swd.marks);
    op, ts := Finish(enc, out, op, j, lit, dict, t);
  }

  /** The last literals and the end code. */
  method Finish(enc: Encoder, out: array<byte>, op0: nat, j: Job, lit: nat, ghost dict: seq<byte>, ghost t: Trace)
    returns (op: nat, ghost ts: seq<Token>)
    requires enc.f == j.f && Running(enc, dict, out, op0, t.s.end.ts, j.inp, |j.inp|, lit)
    requires t.s.end.p == |j.inp| && t.s.end.lit == lit && out.Length >= Bound(|j.inp|) + 3
    modifies enc, out
    ensures op <= out.Length && ts == TokensOf(j, t) && out[..op] == Encode(j.f, ts) + EOF_CODE
    ensures forall cap :: |j.inp| <= cap ==> Decode(j.f, dict, cap, out[..op]) == Done(dict + j.inp, op)
    ensures enc.litBytes + enc.matchBytes == |j.inp|
  {
    hide Decode, Bound, Flushed, Running, Stored, Encode;
    op, ts := op0, t.s.end.ts;
    RunningEnds(enc, dict, out, op, ts, j.inp, lit);
    StoredNothing(j.inp, ts);
    if lit > 0 {
      op, ts := enc.StoreRun(out, op, j.inp, |j.inp| - lit, lit, dict, ts);
    }
    Finished(j.f, dict, out, op, ts, j.inp, lit);
    ghost var done := out[..op];
    out[op], out[op + 1], out[op + 2] := 17, 0, 0;
    assert out[..op + 3] == done + EOF_CODE;
    op := op + 3;
  }

  lemma StoredNothing(inp: seq<byte>, ts: seq<Token>)
    ensures Stored(ts, Pending(inp, |inp|, 0)) == ts
  {
  }

  lemma TrimIsTail(dict: seq<byte>)
    ensures Trim(dict) == Swd.Tail(dict, M4_MAX_OFFSET)
  {
  }

  lemma RunningEnds(enc: Encoder, dict: seq<byte>, out: array<byte>, op: nat, ts: seq<Token>, inp: seq<byte>, lit: nat)
    requires Running(enc, dict, out, op, ts, inp, |inp|, lit)
    ensures lit <= |inp| && Flushed(enc.f, dict, out, op, ts, inp, |inp| - lit, 0)
    ensures enc.litBytes + enc.matchBytes == |inp| - lit
  {
  }

  lemma Finished(f: Flavour, dict: seq<byte>, out: array<byte>, op: nat, ts: seq<Token>, inp: seq<byte>, lit: nat)
    requires Flushed(f, dict, out, op, ts, inp, |inp|, lit)
    ensures op <= Bound(|inp|) && op <= out.Length && out[..op] == Encode(f, ts)
    ensures forall cap :: |inp| <= cap ==> Decode(f, dict, cap, out[..op] + EOF_CODE) == Done(dict + inp, op + 3)
  {
    hide Decode;
    assert inp[..|inp|] == inp;
    forall cap | |inp| <= cap ensures Decode(f, dict, cap, out[..op] + EOF_CODE) == Done(dict + inp, op + 3) {
      DecodeEncode(f, dict, ts, cap);
    }
  }
}
