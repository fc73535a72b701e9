/** The LZO1 and LZO1A block formats with RBITS = 5 (lzo1.c, lzo1a.c, lzo1a_de.h): what the marker bytes
    mean, how a token is written, and why reading what was written gives the token back.

    marker 0          a long ("R0") literal run
    marker 000rrrrr   a short literal run
    marker mmmooooo   a match of 2 + m bytes, m in 1..6
    marker 111ooooo   a long match, its length in a third byte
    LZO1A only: directly after a short literal run a match must follow, so a marker below 32 is free
    there and stands for an "R1" match: three bytes plus one literal. */
module Lzo1Format {
  import opened Bytes
  import opened Window
  import opened Tokens

  datatype Variant = Lzo1 | Lzo1a

  const R0MIN: nat := 32
  const R0FAST: nat := 280
  const MIN_MATCH: nat := 3
  const MIN_MATCH_LONG: nat := 9
  const MAX_MATCH_LONG: nat := 264
  const MAX_OFFSET: nat := 8192
  const D_SIZE: nat := 8192
  const DVAL_LEN: nat := 3

  /** The eight run lengths with a code of their own: 280, then 512 << k. */
  function LongRun(code: nat): (n: nat)
    requires code < 8
    ensures R0FAST <= n
  {
    if code == 0 then 280
    else if code == 1 then 512
    else if code == 2 then 1024
    else if code == 3 then 2048
    else if code == 4 then 4096
    else if code == 5 then 8192
    else if code == 6 then 16384
    else 32768
  }

  predicate IsLongRun(n: nat) {
    n == 280 || n == 512 || n == 1024 || n == 2048 || n == 4096 || n == 8192 || n == 16384 || n == 32768
  }

  function LongRunCode(n: nat): (code: nat)
    requires IsLongRun(n)
    ensures code < 8 && LongRun(code) == n
  {
    if n == 280 then 0
    else if n == 512 then 1
    else if n == 1024 then 2
    else if n == 2048 then 3
    else if n == 4096 then 4
    else if n == 8192 then 5
    else if n == 16384 then 6
    else 7
  }

  // ----- tokens the formats can express -----

  /** Which token may come next: `after` says that a short literal run (or an R1 match) came last,
      and `w` is the output so far. In LZO1 every token stands alone. */
  predicate Legal(v: Variant, t: Token, after: bool, w: seq<byte>) {
    match t
    case Run(lit) =>
      && (v == Lzo1a ==> !after)
      && 1 <= |lit|
      && (|lit| < R0FAST || IsLongRun(|lit|))
    case Match(off, len, tail) =>
      && 1 <= off <= |w| && off <= MAX_OFFSET
      && if tail == [] then MIN_MATCH <= len <= MAX_MATCH_LONG
         else v == Lzo1a && after && len == MIN_MATCH && |tail| == 1
  }

  function After(t: Token): bool {
    match t
    case Run(lit) => |lit| < R0FAST
    case Match(_, _, tail) => tail != []
  }

  function Context(ts: seq<Token>): bool {
    ts != [] && After(ts[|ts| - 1])
  }

  predicate LegalAll(v: Variant, ts: seq<Token>) {
    ts == [] ||
    (LegalAll(v, ts[..|ts| - 1]) &&
     Legal(v, ts[|ts| - 1], Context(ts[..|ts| - 1]), Expand([], ts[..|ts| - 1])))
  }

  // ----- writing -----

  function RunHeader(n: nat): seq<byte> {
    if n < R0MIN then [LowByte(n)]
    else if n < R0FAST then [0, LowByte(n - R0MIN)]
    else if IsLongRun(n) then [0, LowByte(R0FAST - R0MIN + LongRunCode(n))]
    else []
  }

  function Code(t: Token): seq<byte> {
    match t
    case Run(lit) => RunHeader(|lit|) + lit
    case Match(off, len, tail) =>
      if tail != [] then [LowByte((off - 1) % 32), LowByte((off - 1) / 32)] + tail
      else if len < MIN_MATCH_LONG then [LowByte((len - 2) * 32 + (off - 1) % 32), LowByte((off - 1) / 32)]
      else [LowByte(7 * 32 + (off - 1) % 32), LowByte((off - 1) / 32), LowByte(len - MIN_MATCH_LONG)]
  }

  function Encode(ts: seq<Token>): seq<byte> {
    if ts == [] then [] else Encode(ts[..|ts| - 1]) + Code(ts[|ts| - 1])
  }

  // ----- reading: one token of the decompressor's loop -----

  datatype State = State(ip: nat, out: seq<byte>, after: bool)

  function TakeRun(s: seq<byte>, ip: nat, n: nat, st: State): Option<State> {
    if |s| < ip + n then None
    else Some(State(ip + n, st.out + s[ip..ip + n], n < R0FAST))
  }

  function TakeMatch(s: seq<byte>, ip: nat, off: nat, len: nat, tail: nat, st: State): Option<State> {
    if |s| < ip + tail || |st.out| < off || off == 0 then None
    else Some(State(ip + tail, Copy(st.out, off, len) + s[ip..ip + tail], tail > 0))
  }

  /** None where the C code would read past the block or before the start of the output. */
  function Step(v: Variant, s: seq<byte>, st: State): (r: Option<State>)
    requires st.ip < |s|
    ensures r.Some? ==> st.ip < r.value.ip <= |s|
    ensures r.Some? ==> |st.out| <= |r.value.out| && r.value.out[..|st.out|] == st.out
  {
    var t: int := s[st.ip];
    var t1: int := if st.ip + 1 < |s| then s[st.ip + 1] else 0;
    if (t >= R0MIN || t == 0 || (v == Lzo1a && st.after)) && |s| < st.ip + 2 then None
    else if t >= 7 * 32 then
      if |s| < st.ip + 3 then None
      else TakeMatch(s, st.ip + 3, 1 + t % 32 + 32 * t1, MIN_MATCH_LONG + s[st.ip + 2], 0, st)
    else if t >= R0MIN then TakeMatch(s, st.ip + 2, 1 + t % 32 + 32 * t1, 2 + t / 32, 0, st)
    else if v == Lzo1a && st.after then TakeMatch(s, st.ip + 2, 1 + t + 32 * t1, MIN_MATCH, 1, st)
    else if t > 0 then TakeRun(s, st.ip + 1, t, st)
    else if t1 >= R0FAST - R0MIN then TakeRun(s, st.ip + 2, LongRun(t1 - (R0FAST - R0MIN)), st)
    else TakeRun(s, st.ip + 2, t1 + R0MIN, st)
  }

  /** Decoding from a given point of the block to its end. */
  function DecodeFrom(v: Variant, s: seq<byte>, st: State): (r: Option<seq<byte>>)
    requires st.ip <= |s|
    ensures r.Some? ==> |st.out| <= |r.value| && r.value[..|st.out|] == st.out
    decreases |s| - st.ip
  {
    if st.ip == |s| then Some(st.out)
    else
      match Step(v, s, st)
      case None => None
      case Some(next) => DecodeFrom(v, s, next)
  }

  function Decode(v: Variant, s: seq<byte>): Option<seq<byte>> {
    DecodeFrom(v, s, State(0, [], false))
  }

  // ----- reading what was written -----

  lemma StepReadsHeader(v: Variant, s: seq<byte>, st: State, n: nat)
    requires 1 <= n && (n < R0FAST || IsLongRun(n)) && (v == Lzo1a ==> !st.after)
    requires st.ip + |RunHeader(n)| <= |s|
    requires forall i :: 0 <= i < |RunHeader(n)| ==> s[st.ip + i] == RunHeader(n)[i]
    ensures Step(v, s, st) == TakeRun(s, st.ip + |RunHeader(n)|, n, st)
  {
    hide TakeRun, TakeMatch;
    assert s[st.ip + 0] == RunHeader(n)[0];
    if n >= R0MIN {
      assert s[st.ip + 1] == RunHeader(n)[1];
    }
  }

  lemma StepReadsShort(v: Variant, s: seq<byte>, st: State, off: nat, len: nat)
    requires 1 <= off <= MAX_OFFSET && off <= |st.out| && MIN_MATCH <= len < MIN_MATCH_LONG
    requires st.ip + 2 <= |s|
    requires s[st.ip] == (len - 2) * 32 + (off - 1) % 32 && s[st.ip + 1] == (off - 1) / 32
    ensures Step(v, s, st) == Some(State(st.ip + 2, Copy(st.out, off, len), false))
  {
    hide Copy, TakeRun;
    assert Copy(st.out, off, len) + s[st.ip + 2..st.ip + 2] == Copy(st.out, off, len);
  }

  lemma StepReadsLong(v: Variant, s: seq<byte>, st: State, off: nat, len: nat)
    requires 1 <= off <= MAX_OFFSET && off <= |st.out| && MIN_MATCH_LONG <= len <= MAX_MATCH_LONG
    requires st.ip + 3 <= |s|
    requires s[st.ip] == 7 * 32 + (off - 1) % 32 && s[st.ip + 1] == (off - 1) / 32
    requires s[st.ip + 2] == len - MIN_MATCH_LONG
    ensures Step(v, s, st) == Some(State(st.ip + 3, Copy(st.out, off, len), false))
  {
    assert Copy(st.out, off, len) + s[st.ip + 3..st.ip + 3] == Copy(st.out, off, len);
  }

  lemma StepReadsR1(s: seq<byte>, st: State, off: nat)
    requires 1 <= off <= MAX_OFFSET && off <= |st.out| && st.after
    requires st.ip + 3 <= |s|
    requires s[st.ip] == (off - 1) % 32 && s[st.ip + 1] == (off - 1) / 32
    ensures Step(Lzo1a, s, st) == Some(State(st.ip + 3, Copy(st.out, off, MIN_MATCH) + [s[st.ip + 2]], true))
  {
    assert s[st.ip + 2..st.ip + 3] == [s[st.ip + 2]];
  }

  /** The bytes of a match, without the truncation. */
  lemma MatchBytes(v: Variant, t: Token, after: bool, w: seq<byte>) returns (c: seq<byte>)
    requires t.Match? && Legal(v, t, after, w)
    ensures c == Code(t) && |c| == (if t.tail == [] && t.len < MIN_MATCH_LONG then 2 else 3)
    ensures c[1] == (t.off - 1) / 32
    ensures c[0] == (t.off - 1) % 32 + 32 * if t.tail != [] then 0 else if t.len < MIN_MATCH_LONG then t.len - 2 else 7
    ensures t.tail != [] ==> t.tail == [c[2]]
    ensures t.tail == [] && t.len >= MIN_MATCH_LONG ==> c[2] == t.len - MIN_MATCH_LONG
  {
    hide Copy;
    assert 0 <= (t.off - 1) / 32 < 256;
    c := Code(t);
  }

  lemma StepReadsMatch(v: Variant, s: seq<byte>, st: State, t: Token)
    requires t.Match? && Legal(v, t, st.after, st.out)
    requires st.ip + |Code(t)| <= |s|
    requires forall i :: 0 <= i < |Code(t)| ==> s[st.ip + i] == Code(t)[i]
    ensures Step(v, s, st) == Some(State(st.ip + |Code(t)|, Grow(st.out, t), After(t)))
  {
    hide Step, Copy, Code;
    var c := MatchBytes(v, t, st.after, st.out);
    assert s[st.ip + 0] == c[0] && s[st.ip + 1] == c[1];
    var g := Copy(st.out, t.off, t.len);
    if t.tail != [] {
      assert s[st.ip + 2] == c[2];
      assert t.tail == [t.tail[0]];
      StepReadsR1(s, st, t.off);
    } else {
      assert g + t.tail == g;
      if t.len < MIN_MATCH_LONG {
        StepReadsShort(v, s, st, t.off, t.len);
      } else {
        assert s[st.ip + 2] == c[2];
        StepReadsLong(v, s, st, t.off, t.len);
      }
    }
  }

  lemma StepReadsToken(v: Variant, pre: seq<byte>, t: Token, rest: seq<byte>, w: seq<byte>, after: bool)
    requires Legal(v, t, after, w)
    ensures Step(v, pre + Code(t) + rest, State(|pre|, w, after))
         == Some(State(|pre + Code(t)|, Grow(w, t), After(t)))
  {
    hide Step, RunHeader;
    var c := Code(t);
    var s := pre + c + rest;
    assert forall i :: 0 <= i < |c| ==> s[|pre| + i] == c[i];
    match t
    case Run(lit) =>
      var h := RunHeader(|lit|);
      assert forall i :: 0 <= i < |h| ==> c[i] == h[i];
      StepReadsHeader(v, s, State(|pre|, w, after), |lit|);
      assert s[|pre| + |h|..|pre| + |h| + |lit|] == lit;
    case Match(_, _, _) =>
      StepReadsMatch(v, s, State(|pre|, w, after), t);
  }

  /** Reading the code of a legal token stream, with anything after it, arrives at the stream's meaning. */
  lemma {:induction false} DecodeReaches(v: Variant, ts: seq<Token>, rest: seq<byte>)
    requires LegalAll(v, ts)
    ensures DecodeFrom(v, Encode(ts) + rest, State(0, [], false))
         == DecodeFrom(v, Encode(ts) + rest, State(|Encode(ts)|, Expand([], ts), Context(ts)))
  {
    hide Step, Code, Legal, Grow, After;
    if ts != [] {
      var init, t := ts[..|ts| - 1], ts[|ts| - 1];
      DecodeReaches(v, init, Code(t) + rest);
      StepReadsToken(v, Encode(init), t, rest, Expand([], init), Context(init));
      assert Encode(init) + (Code(t) + rest) == Encode(init) + Code(t) + rest == Encode(ts) + rest;
    }
  }

  /** Every legal token stream decodes to what it stands for, and the block is consumed exactly. */
  lemma DecodeEncode(v: Variant, ts: seq<Token>)
    requires LegalAll(v, ts)
    ensures Decode(v, Encode(ts)) == Some(Expand([], ts))
  {
    DecodeReaches(v, ts, []);
    assert Encode(ts) + [] == Encode(ts);
  }

  lemma Snoc(v: Variant, ts: seq<Token>, t: Token)
    requires LegalAll(v, ts) && Legal(v, t, Context(ts), Expand([], ts))
    ensures LegalAll(v, ts + [t])
    ensures Encode(ts + [t]) == Encode(ts) + Code(t)
    ensures Expand([], ts + [t]) == Grow(Expand([], ts), t)
    ensures Context(ts + [t]) == After(t)
  {
    assert (ts + [t])[..|ts|] == ts;
  }
}
