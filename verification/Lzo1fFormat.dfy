/** The LZO1F block format (lzo1f_1.c, lzo1f_d.ch). A literal run is explicit at the start of a block or
    when it has four bytes or more; up to three literals are counted in the two low bits of the second to
    last byte of the match before them. What a byte below 32 means depends on whether literals came last. */
module Lzo1fFormat {
  import opened Bytes
  import opened Window
  import opened Tokens
  import opened LengthCode

  const M2_MAX_OFFSET: nat := 0x800
  const M3_MAX_OFFSET: nat := 0x3fff
  const M3_MARKER: nat := 224

  predicate Legal(t: Token, after: bool, w: seq<byte>) {
    match t
    case Run(lit) => !after && 1 <= |lit|
    case Match(off, len, tail) => 1 <= off <= |w| && off <= M3_MAX_OFFSET && 3 <= len && |tail| <= 3
  }

  /** Literals came last. */
  function After(t: Token): bool {
    t.Run? || t.tail != []
  }

  function Context(ts: seq<Token>): bool {
    ts != [] && After(ts[|ts| - 1])
  }

  predicate LegalAll(ts: seq<Token>) {
    ts == [] ||
    (LegalAll(ts[..|ts| - 1]) && Legal(ts[|ts| - 1], Context(ts[..|ts| - 1]), Expand([], ts[..|ts| - 1])))
  }

  // ----- writing -----

  function RunHeader(n: nat): seq<byte> {
    if n <= 31 then [LowByte(n)] else [0] + Ext(n - 31)
  }

  /** What comes before the last two bytes of a match. */
  function MatchHead(off: nat, len: nat, after: bool): seq<byte> {
    if TwoBytes(off, len, after) || len < 3 then []
    else if len <= 33 then [LowByte(M3_MARKER + len - 2)]
    else [LowByte(M3_MARKER)] + Ext(len - 33)
  }

  predicate TwoBytes(off: nat, len: nat, after: bool) {
    len <= 8 && (off <= M2_MAX_OFFSET || (len == 3 && off <= 2 * M2_MAX_OFFSET && after))
  }

  /** The second to last byte, whose two low bits are free for a literal count, ... */
  function MatchLow(off: nat, len: nat, after: bool): byte {
    if TwoBytes(off, len, after) then
      LowByte((if off <= M2_MAX_OFFSET then (len - 2) * 32 else 0) + (off - 1) % 8 * 4)
    else LowByte(off % 64 * 4)
  }

  /** ... and the last. */
  function MatchHigh(off: nat, len: nat, after: bool): byte {
    if TwoBytes(off, len, after) then LowByte((off - 1) / 8) else LowByte(off / 64)
  }

  function Code(t: Token, after: bool): seq<byte> {
    match t
    case Run(lit) => RunHeader(|lit|) + lit
    case Match(off, len, tail) =>
      MatchHead(off, len, after) + [LowByte(MatchLow(off, len, after) + |tail|), MatchHigh(off, len, after)] + tail
  }

  function Encode(ts: seq<Token>): seq<byte> {
    if ts == [] then []
    else Encode(ts[..|ts| - 1]) + Code(ts[|ts| - 1], Context(ts[..|ts| - 1]))
  }

  const EOF_CODE: seq<byte> := [225, 0, 0]

  // ----- reading -----

  datatype State = State(ip: nat, out: seq<byte>, after: bool)

  datatype Outcome =
    | Next(st: State)
    | End(ip: nat)
    | Stray   // the C code would read past the block or before the start of the output

  function TakeRun(s: seq<byte>, ip: nat, n: nat, st: State): Outcome {
    if |s| < ip + n then Stray else Next(State(ip + n, st.out + s[ip..ip + n], true))
  }

  /** The match proper, then the literals counted in the two low bits of the byte at ip - 2. */
  function TakeMatch(s: seq<byte>, ip: nat, off: nat, len: nat, st: State): Outcome
    requires 2 <= ip <= |s|
  {
    var k: int := s[ip - 2] % 4;
    if off == 0 || |st.out| < off || |s| < ip + k then Stray
    else Next(State(ip + k, Copy(st.out, off, len) + s[ip..ip + k], k > 0))
  }

  /** A marker of 224 or more; `ip` is at the two offset bytes. */
  function TakeFar(s: seq<byte>, ip: nat, len: nat, st: State): Outcome {
    if |s| < ip + 2 then Stray
    else
      var off: int := s[ip] / 4 + 64 * (s[ip + 1] as int);
      if off == 0 then End(ip + 2) else TakeMatch(s, ip + 2, off, len, st)
  }

  function Step(s: seq<byte>, st: State): (r: Outcome)
    ensures r.Next? ==> st.ip < r.st.ip <= |s|
    ensures r.Next? ==> |st.out| <= |r.st.out| && r.st.out[..|st.out|] == st.out
    ensures r.End? ==> r.ip <= |s|
  {
    if |s| <= st.ip then Stray
    else
      var t: int := s[st.ip];
      if t < 32 && !st.after then
        if t > 0 then TakeRun(s, st.ip + 1, t, st)
        else
          match ReadExt(s, st.ip + 1)
          case None => Stray
          case Some(l) => TakeRun(s, l.ip, 31 + l.value, st)
      else if t < M3_MARKER then
        if |s| < st.ip + 2 then Stray
        else
          var off: int := 1 + t / 4 % 8 + 8 * (s[st.ip + 1] as int);
          if t < 32 then TakeMatch(s, st.ip + 2, off + M2_MAX_OFFSET, 3, st)
          else TakeMatch(s, st.ip + 2, off, 2 + t / 32, st)
      else if t > M3_MARKER then TakeFar(s, st.ip + 1, 2 + t % 32, st)
      else
        match ReadExt(s, st.ip + 1)
        case None => Stray
        case Some(l) => TakeFar(s, l.ip, 33 + l.value, st)
  }

  datatype Result = Result(out: seq<byte>, ip: nat)

  /** The output and the input position at the end code; the C code returns LZO_E_OK when that position
      is the end of the block. */
  function DecodeFrom(s: seq<byte>, st: State): (r: Option<Result>)
    ensures r.Some? ==> |st.out| <= |r.value.out| && r.value.out[..|st.out|] == st.out
    decreases |s| - st.ip
  {
    match Step(s, st)
    case Stray => None
    case End(ip) => Some(Result(st.out, ip))
    case Next(next) => DecodeFrom(s, next)
  }

  function Decode(s: seq<byte>): Option<Result> {
    DecodeFrom(s, State(0, [], false))
  }

  // ----- reading what was written -----

  lemma StepReadsHeader(s: seq<byte>, st: State, n: nat)
    requires 1 <= n && !st.after && At(s, st.ip, RunHeader(n))
    ensures Step(s, st) == TakeRun(s, st.ip + |RunHeader(n)|, n, st)
  {
    hide TakeRun;
    AtIndex(s, st.ip, RunHeader(n), 0);
    if n > 31 {
      AtSplit(s, st.ip, [0], Ext(n - 31));
      ReadExtReads(s, st.ip + 1, n - 31);
    }
  }

  lemma StepReadsRun(s: seq<byte>, st: State, lit: seq<byte>)
    requires 1 <= |lit| && !st.after && At(s, st.ip, RunHeader(|lit|) + lit)
    ensures Step(s, st) == Next(State(st.ip + |RunHeader(|lit|) + lit|, st.out + lit, true))
  {
    hide Step, RunHeader;
    AtSplit(s, st.ip, RunHeader(|lit|), lit);
    StepReadsHeader(s, st, |lit|);
  }

  lemma TakeMatchReads(s: seq<byte>, ip: nat, off: nat, len: nat, tail: seq<byte>, st: State)
    requires 2 <= ip && 1 <= off <= |st.out| && |tail| <= 3
    requires At(s, ip, tail) && s[ip - 2] % 4 == |tail|
    ensures TakeMatch(s, ip, off, len, st) == Next(State(ip + |tail|, Copy(st.out, off, len) + tail, tail != []))
  {
  }

  lemma Fields(m: nat, r: nat, k: nat)
    requires r < 8 && k < 4
    ensures var a := m * 32 + r * 4 + k; a / 32 == m && a / 4 % 8 == r && a % 4 == k
  {
    assert (m * 32 + r * 4 + k) / 4 == m * 8 + r;
  }

  lemma Divided(o: nat, d: nat) returns (q: nat, r: nat)
    requires d == 8 || d == 64
    ensures q == o / d && r == o % d && o == d * q + r && r < d
  {
    q, r := o / d, o % d;
  }

  /** What the last two bytes of a match give back, with `k` literals counted in. */
  lemma NearBytes(off: nat, len: nat, after: bool, k: nat)
    requires 1 <= off && 3 <= len && k <= 3 && TwoBytes(off, len, after)
    ensures var a, b := MatchLow(off, len, after) + k, MatchHigh(off, len, after);
            && a < M3_MARKER && a % 4 == k
            && if off <= M2_MAX_OFFSET then 32 <= a && a / 32 == len - 2 && 1 + a / 4 % 8 + 8 * (b as int) == off
               else a < 32 && len == 3 && after && 1 + M2_MAX_OFFSET + a / 4 % 8 + 8 * (b as int) == off
  {
    hide LowByte;
    var q, r := Divided(off - 1, 8);
    var m := if off <= M2_MAX_OFFSET then len - 2 else 0;
    LowByteId(m * 32 + r * 4);
    LowByteWraps(q);
    Fields(m, r, k);
  }

  /** An offset up to twice the near limit loses its ninth bit here, which the marker makes up for. */
  lemma LowByteWraps(x: int)
    requires 0 <= x < 512
    ensures LowByte(x) == if x < 256 then x else x - 256
  {
  }

  lemma FarBytes(off: nat, len: nat, after: bool, k: nat)
    requires 1 <= off <= M3_MAX_OFFSET && k <= 3 && !TwoBytes(off, len, after)
    ensures var a, b := MatchLow(off, len, after) + k, MatchHigh(off, len, after);
            a < 256 && a % 4 == k && a / 4 + 64 * (b as int) == off
  {
    var q, r := Divided(off, 64);
  }

  lemma StepReadsNear(s: seq<byte>, st: State, off: nat, len: nat, tail: seq<byte>)
    requires Legal(Match(off, len, tail), st.after, st.out) && TwoBytes(off, len, st.after)
    requires st.ip + 2 <= |s|
    requires s[st.ip] == MatchLow(off, len, st.after) + |tail| && s[st.ip + 1] == MatchHigh(off, len, st.after)
    ensures Step(s, st) == TakeMatch(s, st.ip + 2, off, len, st)
  {
    hide TakeMatch, MatchLow, MatchHigh;
    NearBytes(off, len, st.after, |tail|);
  }

  /** The parts of a match's code: the head, the two bytes with the literal count added in, the literals. */
  lemma MatchParts(off: nat, len: nat, tail: seq<byte>, after: bool) returns (a: byte, b: byte)
    requires 1 <= off <= M3_MAX_OFFSET && 3 <= len && |tail| <= 3
    ensures a == MatchLow(off, len, after) + |tail| && a % 4 == |tail| && b == MatchHigh(off, len, after)
    ensures Code(Match(off, len, tail), after) == MatchHead(off, len, after) + [a, b] + tail
  {
    hide MatchHead, MatchLow, MatchHigh, LowByte, TwoBytes;
    a := MatchLowFits(off, len, |tail|, after);
    b := MatchHigh(off, len, after);
    LowByteId(a);
  }

  lemma MatchLowFits(off: nat, len: nat, k: nat, after: bool) returns (a: byte)
    requires 1 <= off <= M3_MAX_OFFSET && 3 <= len && k <= 3
    ensures a == MatchLow(off, len, after) + k && a % 4 == k
  {
    hide MatchLow, MatchHigh;
    if TwoBytes(off, len, after) {
      NearBytes(off, len, after, k);
    } else {
      FarBytes(off, len, after, k);
    }
    a := MatchLow(off, len, after) + k;
  }

  lemma StepReadsMatch(s: seq<byte>, st: State, off: nat, len: nat, tail: seq<byte>)
    requires Legal(Match(off, len, tail), st.after, st.out)
    requires At(s, st.ip, Code(Match(off, len, tail), st.after))
    ensures Step(s, st)
         == Next(State(st.ip + |Code(Match(off, len, tail), st.after)|, Copy(st.out, off, len) + tail, tail != []))
  {
    hide Step, MatchLow, MatchHigh, MatchHead, LowByte, TwoBytes, At, Code, Copy, TakeMatch, TakeFar;
    var h := MatchHead(off, len, st.after);
    var a, b := MatchParts(off, len, tail, st.after);
    var p := st.ip + |h|;
    AtSplit(s, st.ip, h + [a, b], tail);
    AtSplit(s, st.ip, h, [a, b]);
    AtIndex(s, p, [a, b], 0);
    AtIndex(s, p, [a, b], 1);
    TakeMatchReads(s, p + 2, off, len, tail, st);
    if TwoBytes(off, len, st.after) {
      NearHead(off, len, st.after);
      StepReadsNear(s, st, off, len, tail);
    } else {
      StepReadsHead(s, st, off, len);
      TakeFarReads(s, p, off, len, tail, st);
    }
  }

  lemma TakeFarReads(s: seq<byte>, p: nat, off: nat, len: nat, tail: seq<byte>, st: State)
    requires 1 <= off <= M3_MAX_OFFSET && |tail| <= 3 && 3 <= len && !TwoBytes(off, len, st.after)
    requires p + 2 <= |s|
    requires s[p] == MatchLow(off, len, st.after) + |tail| && s[p + 1] == MatchHigh(off, len, st.after)
    ensures TakeFar(s, p, len, st) == TakeMatch(s, p + 2, off, len, st)
  {
    hide MatchLow, MatchHigh, TwoBytes, TakeMatch;
    FarBytes(off, len, st.after, |tail|);
  }

  lemma NearHead(off: nat, len: nat, after: bool)
    requires TwoBytes(off, len, after)
    ensures MatchHead(off, len, after) == []
  {
  }

  lemma StepReadsHead(s: seq<byte>, st: State, off: nat, len: nat)
    requires 3 <= len && !TwoBytes(off, len, st.after) && At(s, st.ip, MatchHead(off, len, st.after))
    ensures Step(s, st) == TakeFar(s, st.ip + |MatchHead(off, len, st.after)|, len, st)
  {
    hide TakeFar, TakeRun, TakeMatch, Ext, ReadExt, At;
    AtIndex(s, st.ip, MatchHead(off, len, st.after), 0);
    if len > 33 {
      AtSplit(s, st.ip, [M3_MARKER], Ext(len - 33));
      ReadExtReads(s, st.ip + 1, len - 33);
    }
  }

  /** Reading the code of a legal token stream, with anything after it, arrives at the stream's meaning. */
  lemma {:induction false} DecodeReaches(ts: seq<Token>, rest: seq<byte>)
    requires LegalAll(ts)
    ensures DecodeFrom(Encode(ts) + rest, State(0, [], false))
         == DecodeFrom(Encode(ts) + rest, State(|Encode(ts)|, Expand([], ts), Context(ts)))
  {
    hide Step, Code;
    if ts != [] {
      var init, t := ts[..|ts| - 1], ts[|ts| - 1];
      var c, st := Code(t, Context(init)), State(|Encode(init)|, Expand([], init), Context(init));
      DecodeReaches(init, c + rest);
      var s := Encode(init) + c + rest;
      AtMiddle(Encode(init), c, rest);
      StepReadsToken(s, st, t);
      assert Encode(init) + (c + rest) == s == Encode(ts) + rest;
    }
  }

  lemma StepReadsToken(s: seq<byte>, st: State, t: Token)
    requires Legal(t, st.after, st.out) && At(s, st.ip, Code(t, st.after))
    ensures Step(s, st) == Next(State(st.ip + |Code(t, st.after)|, Grow(st.out, t), After(t)))
  {
    hide Step;
    match t
    case Run(lit) => StepReadsRun(s, st, lit);
    case Match(off, len, tail) => StepReadsMatch(s, st, off, len, tail);
  }

  lemma StepReadsEnd(pre: seq<byte>, st: State)
    requires st.ip == |pre|
    ensures Step(pre + EOF_CODE, st) == End(|pre| + 3)
  {
    var s := pre + EOF_CODE;
    assert s[|pre|] == 225 && s[|pre| + 1] == 0 && s[|pre| + 2] == 0;
  }

  /** Every legal token stream, closed with the end code, decodes to what it stands for; the end code is
      found exactly at the end of the block, never inside a match. */
  lemma DecodeEncode(ts: seq<Token>)
    requires LegalAll(ts)
    ensures Decode(Encode(ts) + EOF_CODE) == Some(Result(Expand([], ts), |Encode(ts) + EOF_CODE|))
  {
    hide Step, LegalAll;
    DecodeReaches(ts, EOF_CODE);
    StepReadsEnd(Encode(ts), State(|Encode(ts)|, Expand([], ts), Context(ts)));
  }

  lemma Snoc(ts: seq<Token>, t: Token)
    requires LegalAll(ts) && Legal(t, Context(ts), Expand([], ts))
    ensures LegalAll(ts + [t])
    ensures Encode(ts + [t]) == Encode(ts) + Code(t, Context(ts))
    ensures Expand([], ts + [t]) == Grow(Expand([], ts), t)
    ensures Context(ts + [t]) == After(t)
  {
    assert (ts + [t])[..|ts|] == ts;
  }

  lemma Unsnoc(ts: seq<Token>) returns (init: seq<Token>, last: Token)
    requires LegalAll(ts) && ts != []
    ensures ts == init + [last] && Context(ts) == After(last)
    ensures LegalAll(init) && Legal(last, Context(init), Expand([], init))
    ensures Encode(ts) == Encode(init) + Code(last, Context(init))
    ensures Expand([], ts) == Grow(Expand([], init), last)
  {
    init, last := ts[..|ts| - 1], ts[|ts| - 1];
  }
}
