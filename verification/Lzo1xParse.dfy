/** Which tokens lzo1x_999_compress_internal writes, given what the match finder reports. */
module Lzo1xParse {
  import opened Bytes
  import opened Window
  import opened Tokens
  import opened Greedy
  import opened Lzo1xFormat
  import Swd

  type Found = Swd.Found

  /** The tuning parameters of the compressor; `bestOff` is swd->use_best_off. */
  datatype Params = Params(tryLazy: int, goodLength: nat, maxLazy: nat, niceLength: nat, maxChain: nat, bestOff: bool)

  /** What is compressed, and how. */
  datatype Job = Job(f: Flavour, prm: Params, inp: seq<byte>)

  /** A report of the finder and the chain limit it was given. */
  datatype Report = Report(m: Found, chain: nat)

  /** The state of the main loop: `lit` literals are pending, `cur` is the match at `p` and `ts` is written. */
  datatype Place = Place(p: nat, lit: nat, cur: Found, ts: seq<Token>)

  /** One round of the main loop: it starts at `at` and searches `ahead` positions further. */
  datatype Round = Round(at: Place, ahead: nat, lazy: bool)

  /** What the finder said, the rounds so far, and where they have led. */
  datatype Story = Story(seen: map<nat, Report>, rounds: seq<Round>, end: Place)

  /** A whole run, and what best3 was set to in it. */
  datatype Trace = Trace(s: Story, marks: seq<nat>)

  /** What parameters of 0, or a negative number of tries, stand for. */
  function Settled(prm: Params): Params {
    Params(if prm.tryLazy < 0 then 1 else prm.tryLazy,
           if prm.goodLength == 0 then 32 else prm.goodLength,
           if prm.maxLazy == 0 then 32 else prm.maxLazy,
           if prm.niceLength == 0 then 2048 else prm.niceLength,
           if prm.maxChain == 0 then 2048 else prm.maxChain,
           prm.bestOff)
  }

  /** c->look: one more than the look-ahead buffer holds, or what is left of the input. */
  function Look(inp: seq<byte>, p: nat): nat {
    if p >= |inp| then 0 else if |inp| - p > 2048 then 2049 else |inp| - p
  }

  // ----- what a match is worth -----

  function Shortened(m: Found, k: nat): Found
    requires k <= m.len
  {
    m.(len := m.len - k, off := Swd.BestOff(m, m.len - k))
  }

  /** How far back the two-byte code for three bytes and more reaches, and the longest match it holds. */
  function NearLimit(f: Flavour): nat {
    match f case X => 2048 case Y => 1024
  }

  function NearLength(f: Flavour): nat {
    match f case X => 8 case Y => 14
  }

  /** Give up one or two bytes of length for a code that is as much shorter. */
  function Nearer(f: Flavour, m: Found): (r: Found)
    ensures r == m || (r.len < m.len && r.off == Swd.BestOff(m, r.len) && r.bestOff == m.bestOff)
    ensures m.len >= 2 ==> m.len - 2 <= r.len <= m.len && (r == m || 3 <= r.len)
  {
    if 4 <= m.len <= NearLength(f) + 1 && NearLimit(f) < m.off && 1 <= Swd.BestOff(m, m.len - 1) <= NearLimit(f) then
      Shortened(m, 1)
    else if 10 <= m.len <= NearLength(f) + 2 && 16384 < m.off && 1 <= Swd.BestOff(m, m.len - 2) <= NearLimit(f) then
      Shortened(m, 2)
    else if 10 <= m.len <= 34 && 16384 < m.off && 1 <= Swd.BestOff(m, m.len - 1) <= 16384 then Shortened(m, 1)
    else m
  }

  function Better(prm: Params, f: Flavour, m: Found): (r: Found)
    ensures m.len >= 2 ==> m.len - 2 <= r.len <= m.len && (r == m || 3 <= r.len)
  {
    if prm.bestOff && m.len >= 2 then Nearer(f, m) else m
  }

  /** The length of a match's code behind `lit` literals, or -1. */
  function Cost(f: Flavour, off: nat, len: nat, lit: nat): int {
    if Codable(off, len, LitContext(lit)) then |Code(f, Match(off, len, []), LitContext(lit))| else -1
  }

  /** Of every byte of length that is given up, a byte of code is saved. */
  lemma NearerPays(f: Flavour, m: Found, lit: nat)
    requires 2 <= m.len && 1 <= m.off <= 49151
    ensures var r := Nearer(f, m);
            r != m ==> 0 < Cost(f, r.off, r.len, lit) <= Cost(f, m.off, m.len, lit) - (m.len - r.len)
  {
    var r := Nearer(f, m);
    if r != m {
      CodeLength(f, m.off, m.len, LitContext(lit));
      CodeLength(f, r.off, r.len, LitContext(lit));
    }
  }

  lemma CodeLength(f: Flavour, off: nat, len: nat, ctx: Context)
    requires 3 <= len && 1 <= off <= 49151 && ctx != Start
    ensures var c := |Code(f, Match(off, len, []), ctx)|;
            && (len <= NearLength(f) && off <= NearLimit(f) ==> c == 2)
            && (16384 < off && 10 <= len ==> c >= 4)
            && (NearLimit(f) < off && 4 <= len ==> c >= 3)
            && (len > NearLength(f) ==> c >= 3)
            && (off <= 16384 && len <= 33 ==> c <= 3)
  {
  }

  /** How much longer a match `k` bytes ahead must be. It counts whether the pending literals come to need a longer
      code, and what the codes cost, with the bytes passed over as literals or, if `l3` is positive, as a match. */
  function MinGain(k: nat, lit: nat, l1: int, l2: int, l3: int): nat {
    var moved := if lit <= 3 && lit + k > 3 then 2 else if 4 <= lit <= 18 && lit + k > 18 then 1 else 0;
    var g := k + moved + 2 * (l2 - l1) - if l3 > 0 then 2 * (k - l3) else 0;
    if g < 0 then 0 else g
  }

  // ----- a round -----

  /** A literal is coded where there is no match, none with a code, or none worth its code. */
  predicate IsLiteral(f: Flavour, m: Found, lit: nat, first: bool) {
    || m.len < 2
    || (first && (lit == 0 || m.len == 2))
    || (m.len == 2 && !(m.off <= 1024 && 1 <= lit <= 3))
    || (m.len == 3 && m.off > 1024 + NearLimit(f) && lit >= 4)
  }

  predicate TriesLazy(j: Job, m: Found) {
    j.prm.tryLazy > 0 && m.len < j.prm.maxLazy
  }

  /** What the current match costs, as far as it matters, ... */
  function OwnCost(j: Job, m: Found, lit: nat): int {
    if TriesLazy(j, m) then Cost(j.f, m.off, m.len, lit) else 0
  }

  /** ... and how many positions the loop looks ahead. */
  function MaxAhead(j: Job, m: Found, lit: nat): int {
    var cost := Cost(j.f, m.off, m.len, lit);
    if !TriesLazy(j, m) then 0 else if j.prm.tryLazy < cost - 1 then j.prm.tryLazy else cost - 1
  }

  /** The chain limit for the search ahead. */
  function LazyChain(prm: Params, m: Found): nat {
    if m.len >= prm.goodLength then prm.maxChain / 4 else prm.maxChain
  }

  /** What the bytes passed over cost as a shortened match. */
  function ShortCost(j: Job, a: Place, m: Found, k: nat): int {
    if a.ts == [] then -1 else Cost(j.f, m.off, k, a.lit)
  }

  /** Is the match `c`, `k` bytes ahead, to be preferred to the match `m` at hand? */
  predicate Worth(j: Job, a: Place, m: Found, k: nat, c: Found) {
    && c.len >= m.len && (c.len == m.len ==> c.off < m.off)
    && var n := Better(j.prm, j.f, c); var cost := Cost(j.f, n.off, n.len, a.lit + k);
       && cost >= 0
       && n.len >= m.len + MinGain(k, a.lit, OwnCost(j, m, a.lit), cost, ShortCost(j, a, m, k))
  }

  ghost predicate Asked(seen: map<nat, Report>, p: nat, chain: nat) {
    p in seen && seen[p].chain == chain
  }

  function Heard(seen: map<nat, Report>, p: nat): Found {
    if p in seen then seen[p].m else Swd.Found(0, 0, [])
  }

  /** The position `k` ahead has been looked at, and what stands there is preferred or not. */
  ghost predicate Looked(j: Job, seen: map<nat, Report>, a: Place, m: Found, k: nat, taken: bool)
    requires 1 <= k
  {
    && Asked(seen, a.p + k, LazyChain(j.prm, m)) && Look(j.inp, a.p + k - 1) > m.len
    && (Worth(j, a, m, k, Heard(seen, a.p + k)) <==> taken)
  }

  /** The positions up to `k` ahead have been looked at, and none was preferred, save the last one if the loop is
      `lazy`. */
  ghost predicate Ahead(j: Job, seen: map<nat, Report>, a: Place, m: Found, k: nat, lazy: bool) {
    && k <= (if MaxAhead(j, m, a.lit) < 0 then 0 else MaxAhead(j, m, a.lit)) && (lazy ==> 1 <= k)
    && (k > 0 ==> Looked(j, seen, a, m, k, lazy))
    && forall i: nat :: 1 <= i < k ==> Looked(j, seen, a, m, i, false)
  }

  /** The round asks what it should, and goes as far as it must. */
  ghost predicate Right(j: Job, seen: map<nat, Report>, r: Round) {
    var m := Better(j.prm, j.f, r.at.cur);
    if IsLiteral(j.f, r.at.cur, r.at.lit, r.at.ts == []) then
      Asked(seen, r.at.p + 1, j.prm.maxChain) && r.ahead == 0 && !r.lazy
    else
      && Ahead(j, seen, r.at, m, r.ahead, r.lazy)
      && (r.lazy || (&& (r.ahead >= MaxAhead(j, m, r.at.lit) || Look(j.inp, r.at.p + r.ahead) <= m.len)
                     && Asked(seen, r.at.p + m.len, j.prm.maxChain)))
  }

  /** How literals are stored: up to three of them with the match before. */
  function Stored(ts: seq<Token>, lit: seq<byte>): seq<Token> {
    if lit == [] then ts
    else if ts != [] && |lit| <= 3 && ts[|ts| - 1].Match? then ts[..|ts| - 1] + [ts[|ts| - 1].(tail := lit)]
    else ts + [Run(lit)]
  }

  /** The bytes that are still to be stored as literals. */
  function Pending(inp: seq<byte>, p: nat, lit: nat): seq<byte> {
    if lit <= p <= |inp| then inp[p - lit..p] else []
  }

  function WithMatch(inp: seq<byte>, a: Place, off: nat, len: nat): seq<Token> {
    Stored(a.ts, Pending(inp, a.p, a.lit)) + [Match(off, len, [])]
  }

  /** Where the round leads. */
  function Onward(j: Job, seen: map<nat, Report>, r: Round): Place {
    var a, m := r.at, Better(j.prm, j.f, r.at.cur);
    if IsLiteral(j.f, a.cur, a.lit, a.ts == []) then Place(a.p + 1, a.lit + 1, Heard(seen, a.p + 1), a.ts)
    else if !r.lazy then Place(a.p + m.len, 0, Heard(seen, a.p + m.len), WithMatch(j.inp, a, m.off, m.len))
    else
      var next := Better(j.prm, j.f, Heard(seen, a.p + r.ahead));
      if ShortCost(j, a, m, r.ahead) > 0 then Place(a.p + r.ahead, 0, next, WithMatch(j.inp, a, m.off, r.ahead))
      else Place(a.p + r.ahead, a.lit + r.ahead, next, a.ts)
  }

  /** The rounds `rs` lead from the start of the input to `end`. */
  ghost predicate Follows(j: Job, seen: map<nat, Report>, rs: seq<Round>, end: Place) {
    if rs == [] then Asked(seen, 0, j.prm.maxChain) && end == Place(0, 0, Heard(seen, 0), [])
    else
      var r := rs[|rs| - 1];
      Follows(j, seen, rs[..|rs| - 1], r.at) && Right(j, seen, r) && end == Onward(j, seen, r)
  }

  ghost predicate Extends(seen: map<nat, Report>, more: map<nat, Report>) {
    forall p :: p in seen ==> p in more && more[p] == seen[p]
  }

  lemma {:induction false} FollowsOn(j: Job, seen: map<nat, Report>, more: map<nat, Report>, rs: seq<Round>, end: Place)
    requires Follows(j, seen, rs, end) && Extends(seen, more)
    ensures Follows(j, more, rs, end)
  {
    hide Right, Onward;
    if rs != [] {
      var r := rs[|rs| - 1];
      FollowsOn(j, seen, more, rs[..|rs| - 1], r.at);
      RightOn(j, seen, more, r);
    }
  }

  lemma RightOn(j: Job, seen: map<nat, Report>, more: map<nat, Report>, r: Round)
    requires Right(j, seen, r) && Extends(seen, more)
    ensures Right(j, more, r) && Onward(j, more, r) == Onward(j, seen, r)
  {
    hide Better, IsLiteral, Worth, MaxAhead, ShortCost, WithMatch, LazyChain, Look;
    var a, m := r.at, Better(j.prm, j.f, r.at.cur);
    if !IsLiteral(j.f, a.cur, a.lit, a.ts == []) {
      AheadOn(j, seen, more, a, m, r.ahead, r.lazy);
    }
  }

  lemma AheadOn(j: Job, seen: map<nat, Report>, more: map<nat, Report>, a: Place, m: Found, k: nat, lazy: bool)
    requires Ahead(j, seen, a, m, k, lazy) && Extends(seen, more)
    ensures Ahead(j, more, a, m, k, lazy)
  {
    hide Worth, MaxAhead, LazyChain, Look;
    forall i: nat | 1 <= i < k ensures Looked(j, more, a, m, i, false) {
      assert Looked(j, seen, a, m, i, false);
    }
  }

  lemma FollowsSnoc(j: Job, seen: map<nat, Report>, rs: seq<Round>, r: Round)
    requires Follows(j, seen, rs, r.at) && Right(j, seen, r)
    ensures Follows(j, seen, rs + [r], Onward(j, seen, r))
  {
    hide Right, Onward;
    assert (rs + [r])[..|rs|] == rs;
  }

  // ----- what follows from what the finder promises -----

  /** Everything reported is what the finder promises. */
  ghost predicate AllReported(dict: seq<byte>, j: Job, seen: map<nat, Report>, nice: nat, marks: seq<nat>) {
    forall p :: p in seen ==>
      && p <= |j.inp|
      && Swd.Reported(dict + j.inp, |dict| + p, M4_MAX_OFFSET, seen[p].chain, nice, marks, seen[p].m)
      && (j.prm.bestOff ==>
            Swd.Recorded(dict + j.inp, |dict| + p, seen[p].m) && (seen[p].m.len >= 2 ==> |seen[p].m.bestOff| == 34))
  }

  /** The run goes from the start of the input to its end. */
  ghost predicate Complete(dict: seq<byte>, j: Job, t: Trace) {
    && Follows(j, t.s.seen, t.s.rounds, t.s.end) && t.s.end.p == |j.inp|
    && AllReported(dict, j, t.s.seen, j.prm.niceLength, t.marks)
  }

  /** The tokens of a complete run. */
  function TokensOf(j: Job, t: Trace): seq<Token> {
    Stored(t.s.end.ts, Pending(j.inp, t.s.end.p, t.s.end.lit))
  }

  // ----- literals are justified -----

  /** The match at hand is what the finder reported, or the nearer one it was given up for. */
  lemma CurIsHeard(j: Job, seen: map<nat, Report>, rs: seq<Round>, end: Place)
    requires Follows(j, seen, rs, end)
    ensures end.p in seen && (end.cur == seen[end.p].m || end.cur == Better(j.prm, j.f, seen[end.p].m))
  {
    hide Better, Worth, MaxAhead, WithMatch, ShortCost, IsLiteral;
  }

  lemma {:induction false} RoundsFollow(j: Job, seen: map<nat, Report>, rs: seq<Round>, end: Place, i: nat)
    requires Follows(j, seen, rs, end) && i < |rs|
    ensures Follows(j, seen, rs[..i], rs[i].at) && Right(j, seen, rs[i])
  {
    hide Right, Onward;
    if i < |rs| - 1 {
      RoundsFollow(j, seen, rs[..|rs| - 1], rs[|rs| - 1].at, i);
      assert rs[..|rs| - 1][..i] == rs[..i];
    }
  }

  /** A literal is passed over only where no two bytes repeat in the window, where two repeat but have no code there,
      at the very start, or where three repeat too far back for a code of two bytes and other literals wait. */
  lemma LiteralsAreJustified(dict: seq<byte>, j: Job, t: Trace, i: nat)
    requires Complete(dict, j, t) && i < |t.s.rounds|
    ensures var a := t.s.rounds[i].at;
            IsLiteral(j.f, a.cur, a.lit, a.ts == []) ==>
              || Swd.Longest(dict + j.inp, |dict| + a.p, 49151, 1)
              || (a.ts == [] && (a.lit == 0 || a.cur.len == 2))
              || (a.cur.len == 2 && (a.cur.off > 1024 || a.lit == 0 || a.lit >= 4))
              || (a.cur.len == 3 && a.cur.off > (match j.f case X => 3072 case Y => 2048) && a.lit >= 4)
  {
    hide Follows, Better, Right;
    var a := t.s.rounds[i].at;
    RoundsFollow(j, t.s.seen, t.s.rounds, t.s.end, i);
    CurIsHeard(j, t.s.seen, t.s.rounds[..i], a);
    NothingLonger(dict, j, t.s.seen, j.prm.niceLength, t.marks, a.p);
  }

  lemma NothingLonger(dict: seq<byte>, j: Job, seen: map<nat, Report>, nice: nat, marks: seq<nat>, p: nat)
    requires AllReported(dict, j, seen, nice, marks) && p in seen
    ensures seen[p].m.len < 2 ==> Swd.Longest(dict + j.inp, |dict| + p, 49151, 1)
    ensures Better(j.prm, j.f, seen[p].m).len < 2 ==> seen[p].m.len < 2
  {
    hide Swd.Longest, Swd.Sound, Swd.Nearest, Swd.Thorough, Swd.Prompt, Swd.Recorded;
  }

  // ----- one byte over and over -----

  ghost predicate Constant(inp: seq<byte>) {
    forall i, k :: 0 <= i < k < |inp| ==> inp[i] == inp[k]
  }

  /** Behind the first byte the finder reports all that is left, or all that it can see, one byte back. */
  lemma ConstantReport(dict: seq<byte>, j: Job, seen: map<nat, Report>, nice: nat, marks: seq<nat>, p: nat)
    requires AllReported(dict, j, seen, nice, marks) && Constant(j.inp) && p in seen && 1 <= p
    ensures p <= |j.inp|
    ensures var m, rest := seen[p].m, |j.inp| - p;
            && (m.len >= 2 ==> m.len <= rest && m.off == 1) && m.len <= 2048
            && (rest >= 3 ==> m.len == if rest < 2048 then rest else 2048)
    ensures Better(j.prm, j.f, seen[p].m) == seen[p].m
  {
    hide Swd.Longest, Swd.Thorough, Swd.Prompt, Swd.Recorded, Swd.HashAt;
    var w, q, m := dict + j.inp, |dict| + p, seen[p].m;
    var len := if |j.inp| - p < 2048 then |j.inp| - p else 2048;
    assert Swd.Same(w, q, q - 1, len);
    if len >= 3 {
      Swd.ReportedLength(w, q, M4_MAX_OFFSET, seen[p].chain, nice, marks, m, q - 1, len);
    }
    if m.len >= 2 {
      assert Swd.Within(w, q, m.off, m.len, M4_MAX_OFFSET);
      assert Swd.Same(w, q, q - 1, m.len);
    }
  }

  /** The literals so far: the first byte, and two more at the end at most. */
  ghost predicate FewLiterals(inp: seq<byte>, a: Place) {
    if a.ts == [] then a.p == a.lit && (a.p <= 1 || |inp| <= 3)
    else LiteralCount(a.ts) == 1 && 1 <= a.p && (a.lit == 0 || a.lit + (|inp| - a.p) <= 2)
  }

  lemma ConstantRound(dict: seq<byte>, j: Job, seen: map<nat, Report>, nice: nat, marks: seq<nat>, r: Round)
    requires AllReported(dict, j, seen, nice, marks) && Constant(j.inp) && Right(j, seen, r) && r.at.p in seen
    requires FewLiterals(j.inp, r.at) && r.at.p <= |j.inp|
    requires r.at.cur == seen[r.at.p].m || r.at.cur == Better(j.prm, j.f, seen[r.at.p].m)
    ensures FewLiterals(j.inp, Onward(j, seen, r))
  {
    hide AllReported, LiteralCount, MinGain, Cost, MaxAhead;
    var a := r.at;
    if a.p >= 1 {
      ConstantReport(dict, j, seen, nice, marks, a.p);
    }
    if IsLiteral(j.f, a.cur, a.lit, a.ts == []) {
      AskedInside(dict, j, seen, nice, marks, a.p + 1);
    } else {
      NothingAhead(dict, j, seen, nice, marks, r);
      MatchLiterals(j.inp, a, a.cur.off, a.cur.len);
      NoTokens();
    }
  }

  lemma AskedInside(dict: seq<byte>, j: Job, seen: map<nat, Report>, nice: nat, marks: seq<nat>, p: nat)
    requires AllReported(dict, j, seen, nice, marks) && p in seen
    ensures p <= |j.inp|
  {
  }

  /** A match one byte back is never given up for a later one. */
  lemma NothingAhead(dict: seq<byte>, j: Job, seen: map<nat, Report>, nice: nat, marks: seq<nat>, r: Round)
    requires AllReported(dict, j, seen, nice, marks) && Constant(j.inp) && Right(j, seen, r)
    requires 1 <= r.at.p && r.at.p in seen
    requires r.at.cur == seen[r.at.p].m && !IsLiteral(j.f, r.at.cur, r.at.lit, r.at.ts == [])
    ensures !r.lazy
  {
    hide AllReported, MinGain, Cost, MaxAhead;
    ConstantReport(dict, j, seen, nice, marks, r.at.p);
    if r.lazy {
      ConstantReport(dict, j, seen, nice, marks, r.at.p + r.ahead);
    }
  }

  lemma MatchLiterals(inp: seq<byte>, a: Place, off: nat, len: nat)
    requires a.lit <= a.p <= |inp| && (a.ts == [] || a.lit == 0)
    ensures LiteralCount(WithMatch(inp, a, off, len)) == LiteralCount(a.ts) + a.lit
  {
    hide LiteralCount;
    var lit := Pending(inp, a.p, a.lit);
    NoTokens();
    OneMatch(off, len);
    LiteralCountAppend(Stored(a.ts, lit), [Match(off, len, [])]);
    if a.lit > 0 {
      OneRun(lit);
      assert Stored(a.ts, lit) == [Run(lit)];
    }
  }

  lemma {:induction false} ConstantRun(dict: seq<byte>, j: Job, seen: map<nat, Report>, nice: nat, marks: seq<nat>,
                                       rs: seq<Round>, end: Place)
    requires AllReported(dict, j, seen, nice, marks) && Constant(j.inp) && Follows(j, seen, rs, end)
    ensures FewLiterals(j.inp, end)
  {
    hide AllReported, Right, Onward, Better, LiteralCount;
    if rs != [] {
      var r := rs[|rs| - 1];
      ConstantRun(dict, j, seen, nice, marks, rs[..|rs| - 1], r.at);
      CurIsHeard(j, seen, rs[..|rs| - 1], r.at);
      AskedInside(dict, j, seen, nice, marks, r.at.p);
      ConstantRound(dict, j, seen, nice, marks, r);
    }
  }

  /** Of one byte over and over, at most three bytes are literals, behind any dictionary and for all parameters. */
  lemma ConstantData(dict: seq<byte>, j: Job, t: Trace)
    requires Complete(dict, j, t) && Constant(j.inp)
    ensures LiteralCount(TokensOf(j, t)) <= 3
  {
    hide AllReported, Follows, LiteralCount;
    var end := t.s.end;
    ConstantRun(dict, j, t.s.seen, j.prm.niceLength, t.marks, t.s.rounds, end);
    var lit := Pending(j.inp, end.p, end.lit);
    StoredLiterals(end.ts, lit);
    NoTokens();
  }

  lemma StoredLiterals(ts: seq<Token>, lit: seq<byte>)
    ensures LiteralCount(Stored(ts, lit)) <= LiteralCount(ts) + |lit|
  {
    hide LiteralCount;
    OneRun(lit);
    LiteralCountAppend(ts, [Run(lit)]);
    if ts != [] && ts[|ts| - 1].Match? {
      var last := ts[|ts| - 1];
      OneTail(last, lit);
      LiteralCountAppend(ts[..|ts| - 1], [last.(tail := lit)]);
      LiteralCountAppend(ts[..|ts| - 1], [last]);
      assert ts == ts[..|ts| - 1] + [last];
    }
  }

  lemma OneTail(t: Token, lit: seq<byte>)
    requires t.Match?
    ensures LiteralCount([t.(tail := lit)]) == |lit|
  {
    assert [t.(tail := lit)][..0] == [];
  }
}
