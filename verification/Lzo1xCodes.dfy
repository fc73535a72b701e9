/** The code book of LZO1X and LZO1Y in plain numbers: which offsets and lengths the bytes of a block stand for. Near
    matches take two bytes, and every offset within reach has exactly one pair of them. */
module Lzo1xCodes {
  import opened Bytes
  import opened Window
  import opened Tokens
  import opened LengthCode
  import opened Lzo1xFormat
  import opened Lzo1xRoundTrip

  // ----- near matches -----

  /** In this context the bytes `a` and `b` are a match of `len` bytes from `off` back, whatever comes before and after
      them. */
  ghost predicate ReadsAs(f: Flavour, ctx: Context, a: byte, b: byte, off: nat, len: nat) {
    1 <= off &&
    forall e: Env, s: seq<byte>, st: State |
      e.f == f && st.ctx == ctx && st.ip + 2 <= |s| && s[st.ip] == a && s[st.ip + 1] == b ::
      Step(e, s, st) == TakeMatch(e, s, st.ip + 2, off, len, st.w)
  }

  /** The bytes cannot be read in two ways. */
  lemma ReadsOnce(f: Flavour, ctx: Context, a: byte, b: byte, off: nat, len: nat, off': nat, len': nat)
    requires ReadsAs(f, ctx, a, b, off, len) && ReadsAs(f, ctx, a, b, off', len')
    ensures off == off' && len == len'
  {
    hide Step, Copy;
    var s := [a, b, 0, 0, 0, 0];
    var near := if off < off' then off else off';
    var w := seq(near, _ => 0);
    var e, st := Env(f, near, len + len' + 3), State(0, w, ctx);
    assert Step(e, s, st) == TakeMatch(e, s, 2, off, len, w) == TakeMatch(e, s, 2, off', len', w);
  }

  /** Behind a run of four and more, a marker below 16 is a match of three bytes from just behind the reach of the
      other near matches: 2049 to 3072 in LZO1X and 1025 to 2048 in LZO1Y. */
  lemma ReadsBehindRun(f: Flavour, a: byte, b: byte)
    requires a < 16
    ensures ReadsAs(f, AfterRun, a, b, (if f == X then 2049 else 1025) + a / 4 + 4 * (b as int), 3)
  {
    hide TakeMatch;
  }

  /** Behind one to three literals it is a match of two bytes from 1 to 1024 back. */
  lemma ReadsBehindFew(f: Flavour, a: byte, b: byte)
    requires a < 16
    ensures ReadsAs(f, AfterFew, a, b, 1 + a / 4 + 4 * (b as int), 2)
  {
    hide TakeMatch;
  }

  /** A marker of 64 or more is, wherever a match may stand, one of 3 to 8 bytes from 1 to 2048 back in LZO1X, and of 3
      to 14 bytes from 1 to 1024 back in LZO1Y. */
  lemma ReadsNear(f: Flavour, ctx: Context, a: byte, b: byte)
    requires 64 <= a && ctx != Start
    ensures f == X ==> ReadsAs(f, ctx, a, b, 1 + a / 4 % 8 + 8 * (b as int), a / 32 + 1)
    ensures f == Y ==> ReadsAs(f, ctx, a, b, 1 + a / 4 % 4 + 4 * (b as int), a / 16 - 1)
  {
    hide TakeMatch;
  }

  /** Any near marker. */
  predicate NearMarker(ctx: Context, a: byte) {
    (64 <= a && ctx != Start) || (a < 16 && (ctx == AfterFew || ctx == AfterRun))
  }

  /** Behind a run, every offset up to 3072 in LZO1X and 2048 in LZO1Y is read from exactly one pair of bytes as a
      match of three bytes without literals: the nearer ones from 64 on, the others below 16. No other offset is. */
  lemma ThreeBehindRun(f: Flavour, off: nat)
    ensures var near, far := if f == X then 2048 else 1024, if f == X then 3072 else 2048;
            if 1 <= off <= far then
              exists a: byte, b: byte ::
                && ReadsAs(f, AfterRun, a, b, off, 3) && a % 4 == 0 && (if off <= near then 64 <= a else a < 16)
                && forall a': byte, b': byte ::
                     (a' % 4 == 0 && NearMarker(AfterRun, a') && ReadsAs(f, AfterRun, a', b', off, 3)) ==>
                       a' == a && b' == b
            else
              forall a: byte, b: byte :: NearMarker(AfterRun, a) ==> !ReadsAs(f, AfterRun, a, b, off, 3)
  {
    hide ReadsAs;
    var near, far := if f == X then 2048 else 1024, if f == X then 3072 else 2048;
    forall a: byte, b: byte | NearMarker(AfterRun, a) && ReadsAs(f, AfterRun, a, b, off, 3)
      ensures 1 <= off <= far && (a % 4 == 0 ==> (a, b) == ThreeBytes(f, off))
    {
      OnlyThree(f, off, a, b);
    }
    if 1 <= off <= far {
      var (a, b) := ThreeBytes(f, off);
      ReadsThree(f, off);
      assert ReadsAs(f, AfterRun, a, b, off, 3);
    }
  }

  /** The pair for a match of three bytes behind a run. */
  function ThreeBytes(f: Flavour, off: nat): (byte, byte)
    requires 1 <= off <= if f == X then 3072 else 2048
  {
    if f == X then
      if off <= 2048 then (64 + (off - 1) % 8 * 4, (off - 1) / 8) else ((off - 2049) % 4 * 4, (off - 2049) / 4)
    else
      if off <= 1024 then (64 + (off - 1) % 4 * 4, (off - 1) / 4) else ((off - 1025) % 4 * 4, (off - 1025) / 4)
  }

  lemma ReadsThree(f: Flavour, off: nat)
    requires 1 <= off <= if f == X then 3072 else 2048
    ensures var (a, b) := ThreeBytes(f, off); ReadsAs(f, AfterRun, a, b, off, 3) && a % 4 == 0
    ensures ThreeBytes(f, off).0 >= 64 <==> off <= if f == X then 2048 else 1024
  {
    hide ReadsAs;
    var (a, b) := ThreeBytes(f, off);
    if a < 16 {
      ReadsBehindRun(f, a, b);
    } else {
      ReadsNear(f, AfterRun, a, b);
    }
  }

  lemma OnlyThree(f: Flavour, off: nat, a: byte, b: byte)
    requires NearMarker(AfterRun, a) && ReadsAs(f, AfterRun, a, b, off, 3)
    ensures 1 <= off <= (if f == X then 3072 else 2048) && (a % 4 == 0 ==> (a, b) == ThreeBytes(f, off))
  {
    hide ReadsAs, ThreeBytes;
    if a < 16 {
      ReadsBehindRun(f, a, b);
      ReadsOnce(f, AfterRun, a, b, off, 3, (if f == X then 2049 else 1025) + a / 4 + 4 * (b as int), 3);
      ThreeFar(f, off, a, b);
    } else {
      ReadsNear(f, AfterRun, a, b);
      if f == X {
        ReadsOnce(f, AfterRun, a, b, off, 3, 1 + a / 4 % 8 + 8 * (b as int), a / 32 + 1);
      } else {
        ReadsOnce(f, AfterRun, a, b, off, 3, 1 + a / 4 % 4 + 4 * (b as int), a / 16 - 1);
      }
      ThreeNear(f, off, a, b);
    }
  }

  lemma ThreeFar(f: Flavour, off: nat, a: byte, b: byte)
    requires a < 16 && off == (if f == X then 2049 else 1025) + a / 4 + 4 * (b as int)
    ensures 1 <= off <= (if f == X then 3072 else 2048) && (a % 4 == 0 ==> (a, b) == ThreeBytes(f, off))
  {
  }

  lemma ThreeNear(f: Flavour, off: nat, a: byte, b: byte)
    requires 64 <= a && 1 <= off
    requires if f == X then off == 1 + a / 4 % 8 + 8 * (b as int) && a / 32 == 2
             else off == 1 + a / 4 % 4 + 4 * (b as int) && a / 16 == 4
    ensures off <= (if f == X then 2048 else 1024) && (a % 4 == 0 ==> (a, b) == ThreeBytes(f, off))
  {
    var m := if f == X then 8 else 4;
    SplitByte(a, m);
    Unsplit(a / 4 % m, b, m, off - 1);
  }

  lemma Unsplit(r: nat, q: nat, m: nat, x: nat)
    requires (m == 4 || m == 8) && r < m && x == r + m * q
    ensures x % m == r && x / m == q
  {
  }

  /** A marker is made of a length, an offset part below `m`, and the two bits of a literal count. */
  lemma SplitByte(a: nat, m: nat)
    requires m == 4 || m == 8
    ensures a == 4 * m * (a / (4 * m)) + 4 * (a / 4 % m) + a % 4
  {
    var q := a / 4;
    assert a == 4 * q + a % 4;
    if m == 4 {
      assert q == 4 * (q / 4) + q % 4 && a / 16 == q / 4;
    } else {
      assert q == 8 * (q / 8) + q % 8 && a / 32 == q / 8;
    }
  }

  // ----- far matches, the end code, and runs -----

  /** A length code behind a marker, if the marker has no room for the length. */
  function Longer(marker: byte, len: nat, max: nat): seq<byte>
    requires 3 <= len && marker + max < 256
  {
    if len - 2 <= max then [marker + (len - 2)] else [marker] + Ext(len - 2 - max)
  }

  lemma LongerReads(s: seq<byte>, ip: nat, marker: byte, len: nat, max: nat)
    requires 3 <= len && marker + max < 256 && At(s, ip, Longer(marker, len, max))
    ensures ip < |s| && s[ip] == marker + (if len - 2 <= max then len - 2 else 0)
    ensures ReadLength(s, ip + 1, if len - 2 <= max then len - 2 else 0, max)
         == Some(Length(len - 2, ip + |Longer(marker, len, max)|))
  {
    hide Ext, ReadLength;
    var n := if len - 2 <= max then len - 2 else 0;
    AtIndex(s, ip, Longer(marker, len, max), 0);
    assert Longer(marker, len, max) == [marker + n] + (if len - 2 <= max then [] else Ext(len - 2 - max));
    ReadLengthReads(s, ip, marker + n, n, max, len);
  }

  lemma TwoBytes(s: seq<byte>, ip: nat, head: seq<byte>, lo: byte, hi: byte)
    requires At(s, ip, head + [lo, hi])
    ensures At(s, ip, head) && ip + |head| + 2 <= |s| && s[ip + |head|] == lo && s[ip + |head| + 1] == hi
  {
    AtSplit(s, ip, head, [lo, hi]);
    AtIndex(s, ip + |head|, [lo, hi], 0);
    AtIndex(s, ip + |head|, [lo, hi], 1);
  }

  /** From 32 on: matches of any length from 1 to 16384 back. */
  lemma ReadsMiddle(e: Env, s: seq<byte>, st: State, off: nat, len: nat, k: nat)
    requires 1 <= off <= 16384 && 3 <= len && k < 4 && st.ctx != Start
    requires At(s, st.ip, Longer(32, len, 31) + [(off - 1) % 64 * 4 + k, (off - 1) / 64])
    ensures Step(e, s, st) == TakeMatch(e, s, st.ip + |Longer(32, len, 31)| + 2, off, len, st.w)
  {
    hide TakeMatch, TakeLiterals, Near, Longer, ReadLength;
    TwoBytes(s, st.ip, Longer(32, len, 31), (off - 1) % 64 * 4 + k, (off - 1) / 64);
    LongerReads(s, st.ip, 32, len, 31);
    SixBits(off - 1, k);
  }

  lemma SixBits(x: nat, k: nat)
    requires k < 4
    ensures (x % 64 * 4 + k) / 4 + 64 * (x / 64) == x
  {
  }

  /** From 16 to 31: matches of any length from 16385 to 49151 back; ... */
  lemma ReadsFar(e: Env, s: seq<byte>, st: State, off: nat, len: nat, k: nat)
    requires 16385 <= off <= 49151 && 3 <= len && k < 4 && st.ctx != Start
    requires var head := Longer(if off < 32768 then 16 else 24, len, 7);
             At(s, st.ip, head + [(off - 16384) % 64 * 4 + k, (off - 16384) % 16384 / 64])
    ensures var head := Longer(if off < 32768 then 16 else 24, len, 7);
            Step(e, s, st) == TakeMatch(e, s, st.ip + |head| + 2, off, len, st.w)
  {
    hide TakeMatch, TakeLiterals, Near, Longer, ReadLength;
    var marker, x := if off < 32768 then 16 else 24, off - 16384;
    TwoBytes(s, st.ip, Longer(marker, len, 7), x % 64 * 4 + k, x % 16384 / 64);
    LongerReads(s, st.ip, marker, len, 7);
    SixBits(x % 16384, k);
    FarParts(x);
  }

  lemma FarParts(x: nat)
    requires x < 32768
    ensures x % 16384 == (if x < 16384 then x else x - 16384) && x % 16384 % 64 == x % 64 && x % 16384 / 64 < 256
  {
  }

  /** ... and 16384 back is the end code, with any length. */
  lemma ReadsEnd(e: Env, s: seq<byte>, st: State, len: nat, k: nat)
    requires 3 <= len && k < 4 && At(s, st.ip, Longer(16, len, 7) + [k, 0])
    requires st.ctx == Start ==> len == 3
    ensures Step(e, s, st) == End(st.ip + |Longer(16, len, 7)| + 2)
  {
    hide TakeMatch, TakeLiterals, Near, Longer, ReadLength;
    TwoBytes(s, st.ip, Longer(16, len, 7), k, 0);
    LongerReads(s, st.ip, 16, len, 7);
  }

  /** Runs. The first marker of a block, from 18 on, is a run of itself less 17; ... */
  lemma ReadsFirstRun(e: Env, s: seq<byte>, st: State, n: nat)
    requires 1 <= n <= 238 && st.ctx == Start && st.ip < |s| && s[st.ip] == 17 + n
    ensures Step(e, s, st) == TakeLiterals(e, s, st.ip + 1, n, st.w, if n <= 3 then AfterFew else AfterRun)
  {
  }

  /** ... at the start and behind a match without literals, one below 16 is a run of itself and 3, and 0 continues in a
      length code. */
  lemma ReadsRun(e: Env, s: seq<byte>, st: State, n: nat)
    requires 4 <= n && (st.ctx == Start || st.ctx == AfterMatch)
    requires At(s, st.ip, if n <= 18 then [n - 3] else [0] + Ext(n - 18))
    ensures var ip := st.ip + if n <= 18 then 1 else 1 + |Ext(n - 18)|;
            Step(e, s, st) == TakeLiterals(e, s, ip, n, st.w, AfterRun)
  {
    hide TakeLiterals, Near, Far, Ext;
    var head := if n <= 18 then [n - 3] else [0] + Ext(n - 18);
    AtIndex(s, st.ip, head, 0);
    if n > 18 {
      AtSplit(s, st.ip, [0], Ext(n - 18));
      ReadExtReads(s, st.ip + 1, n - 18);
    }
  }

  /** At the end of the block there is no marker: the end code is missing, unless the block was empty, where the C code
      looks at a byte that is not there. */
  lemma ReadsNothing(e: Env, s: seq<byte>, st: State)
    requires |s| <= st.ip || (|s| == st.ip + 1 && st.ctx == AfterFew)
    ensures Step(e, s, st) == Fail(if st.ctx == Start then PastEnd else EofNotFound, st.w)
  {
  }

  // ----- what the encoder writes -----

  /** The matches that have a code at all. */
  lemma CodableIs(off: nat, len: nat, ctx: Context)
    ensures Codable(off, len, ctx) <==>
            ctx != Start && 1 <= off <= 49151 && (3 <= len || (len == 2 && ctx == AfterFew && off <= 1024))
  {
  }

  /** The code of a match with `k` literals behind it, in the shortest form that can hold it. */
  function MatchCode(f: Flavour, off: nat, len: nat, k: nat, ctx: Context): seq<byte>
    requires Codable(off, len, ctx) && k <= 3
  {
    if len == 2 then [(off - 1) % 4 * 4 + k, (off - 1) / 4]
    else if f == X && len <= 8 && off <= 2048 then [(len - 1) * 32 + (off - 1) % 8 * 4 + k, (off - 1) / 8]
    else if f == Y && len <= 14 && off <= 1024 then [(len + 1) * 16 + (off - 1) % 4 * 4 + k, (off - 1) / 4]
    else if f == X && len == 3 && off <= 3072 && ctx == AfterRun then [(off - 2049) % 4 * 4 + k, (off - 2049) / 4]
    else if f == Y && len == 3 && off <= 2048 && ctx == AfterRun then [(off - 1025) % 4 * 4 + k, (off - 1025) / 4]
    else if off <= 16384 then Longer(32, len, 31) + [(off - 1) % 64 * 4 + k, (off - 1) / 64]
    else
      Longer(if off < 32768 then 16 else 24, len, 7) + [(off - 16384) % 64 * 4 + k, (off - 16384) % 16384 / 64]
  }

  lemma WritesMatch(f: Flavour, off: nat, len: nat, tail: seq<byte>, ctx: Context)
    requires Codable(off, len, ctx) && |tail| <= 3
    ensures Code(f, Match(off, len, tail), ctx) == MatchCode(f, off, len, |tail|, ctx) + tail
  {
    hide Code, FormOf, Head, Low, High, Longer;
    var form := FormOf(f, off, len, ctx);
    FormIs(f, off, len, ctx);
    CodeBytes(f, off, len, tail, ctx);
    match form
    case M1 => WritesM1(f, off, len, |tail|);
    case M2 => WritesM2(f, off, len, |tail|);
    case MX => WritesMX(f, off, len, |tail|);
    case M3 => WritesM3(f, off, len, |tail|);
    case M4 => WritesM4(f, off, len, |tail|);
  }

  lemma FormIs(f: Flavour, off: nat, len: nat, ctx: Context)
    requires Codable(off, len, ctx)
    ensures FormOf(f, off, len, ctx) ==
            if len == 2 then M1
            else if len <= (if f == X then 8 else 14) && off <= (if f == X then 2048 else 1024) then M2
            else if len == 3 && off <= (if f == X then 3072 else 2048) && ctx == AfterRun then MX
            else if off <= 16384 then M3 else M4
    ensures FormOf(f, off, len, ctx) == M1 ==> off <= 1024
  {
  }

  lemma CodeBytes(f: Flavour, off: nat, len: nat, tail: seq<byte>, ctx: Context)
    requires Codable(off, len, ctx) && |tail| <= 3
    ensures var form := FormOf(f, off, len, ctx);
            Low(f, form, off, len) + |tail| < 256 ==>
              Code(f, Match(off, len, tail), ctx)
              == Head(form, off, len) + [Low(f, form, off, len) + |tail|, High(f, form, off)] + tail
  {
    hide FormOf, Head, Low, High;
  }

  lemma WritesM1(f: Flavour, off: nat, len: nat, k: nat)
    requires 1 <= off <= 1024 && k <= 3
    ensures Head(M1, off, len) == [] && High(f, M1, off) == (off - 1) / 4
    ensures Low(f, M1, off, len) + k == (off - 1) % 4 * 4 + k < 256
  {
  }

  lemma WritesM2(f: Flavour, off: nat, len: nat, k: nat)
    requires k <= 3 && 1 <= off <= (if f == X then 2048 else 1024) && 3 <= len <= if f == X then 8 else 14
    ensures Head(M2, off, len) == [] && High(f, M2, off) == if f == X then (off - 1) / 8 else (off - 1) / 4
    ensures var x := if f == X then (len - 1) * 32 + (off - 1) % 8 * 4 else (len + 1) * 16 + (off - 1) % 4 * 4;
            Low(f, M2, off, len) + k == x + k < 256
  {
  }

  lemma WritesMX(f: Flavour, off: nat, len: nat, k: nat)
    requires k <= 3 && if f == X then 2049 <= off <= 3072 else 1025 <= off <= 2048
    ensures var x := off - if f == X then 2049 else 1025;
            && Head(MX, off, len) == [] && High(f, MX, off) == x / 4
            && Low(f, MX, off, len) + k == x % 4 * 4 + k < 256
  {
  }

  lemma WritesM3(f: Flavour, off: nat, len: nat, k: nat)
    requires 1 <= off <= 16384 && 3 <= len && k <= 3
    ensures Head(M3, off, len) == Longer(32, len, 31) && High(f, M3, off) == (off - 1) / 64
    ensures Low(f, M3, off, len) + k == (off - 1) % 64 * 4 + k < 256
  {
    hide Ext;
    LowSix(off - 1);
  }

  lemma WritesM4(f: Flavour, off: nat, len: nat, k: nat)
    requires 16385 <= off <= 49151 && 3 <= len && k <= 3
    ensures Head(M4, off, len) == Longer(if off < 32768 then 16 else 24, len, 7)
    ensures Low(f, M4, off, len) + k == (off - 16384) % 64 * 4 + k < 256
    ensures High(f, M4, off) == (off - 16384) % 16384 / 64
  {
    hide Ext;
    LowSix(off - 16384);
    HighSix(off - 16384);
  }

  lemma HighSix(x: nat)
    requires x < 32768
    ensures x / 64 % 256 == x % 16384 / 64
  {
  }

  lemma WritesRunHeader(n: nat, first: bool)
    requires (first && 1 <= n) || 4 <= n
    ensures RunHeader(n, first) ==
            if first && n <= 238 then [17 + n] else if n <= 18 then [n - 3] else [0] + Ext(n - 18)
  {
    hide Ext;
  }
}
