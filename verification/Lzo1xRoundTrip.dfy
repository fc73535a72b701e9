/** LZO1X and LZO1Y token streams decode uniquely: reading what was written gives the tokens back, using only
    the number of literals that came last as context, and no match reads as the end code. */
module Lzo1xRoundTrip {
  import opened Bytes
  import opened Window
  import opened Tokens
  import opened LengthCode
  import opened Lzo1xFormat

  // ----- literal runs -----

  lemma StepReadsHeader(e: Env, s: seq<byte>, st: State, n: nat)
    requires (st.ctx == Start && 1 <= n) || (st.ctx == AfterMatch && 4 <= n)
    requires At(s, st.ip, RunHeader(n, st.ctx == Start))
    ensures Step(e, s, st) == TakeLiterals(e, s, st.ip + |RunHeader(n, st.ctx == Start)|, n, st.w,
                                           if n < 4 then AfterFew else AfterRun)
  {
    hide TakeLiterals, Near, Far, At, ReadLength, RunHeader;
    if st.ctx == Start && n <= 238 {
      FirstHeader(s, st.ip, n);
    } else {
      LaterHeader(s, st.ip, n, st.ctx == Start);
    }
  }

  lemma FirstHeader(s: seq<byte>, ip: nat, n: nat)
    requires 1 <= n <= 238 && At(s, ip, RunHeader(n, true))
    ensures |RunHeader(n, true)| == 1 && ip < |s| && s[ip] == 17 + n
  {
    hide At;
    AtIndex(s, ip, RunHeader(n, true), 0);
  }

  lemma LaterHeader(s: seq<byte>, ip: nat, n: nat, first: bool)
    requires 4 <= n && !(first && n <= 238) && At(s, ip, RunHeader(n, first))
    ensures ip < |s| && s[ip] < 16
    ensures ReadLength(s, ip + 1, s[ip], 15) == Some(Length(n - 3, ip + |RunHeader(n, first)|))
  {
    hide Ext, ReadExt, At;
    AtIndex(s, ip, RunHeader(n, first), 0);
    if n > 18 {
      AtSplit(s, ip, [0], Ext(n - 18));
      ReadExtReads(s, ip + 1, n - 18);
    }
  }

  lemma StepReadsRun(e: Env, s: seq<byte>, st: State, lit: seq<byte>)
    requires Legal(Run(lit), st.ctx, st.w) && !NoRoom(e, st.w, |lit|)
    requires At(s, st.ip, Code(e.f, Run(lit), st.ctx)) && st.ip + |Code(e.f, Run(lit), st.ctx)| < |s|
    ensures Step(e, s, st) == Next(State(st.ip + |Code(e.f, Run(lit), st.ctx)|, st.w + lit, After(Run(lit))))
  {
    hide Step, RunHeader, At, TakeLiterals, NoRoom;
    AtSplit(s, st.ip, RunHeader(|lit|, st.ctx == Start), lit);
    StepReadsHeader(e, s, st, |lit|);
    TakeLiteralsReads(e, s, st.ip + |RunHeader(|lit|, st.ctx == Start)|, lit, st.w, After(Run(lit)));
  }

  lemma TakeLiteralsReads(e: Env, s: seq<byte>, ip: nat, lit: seq<byte>, w: seq<byte>, ctx: Context)
    requires At(s, ip, lit) && ip + |lit| < |s| && !NoRoom(e, w, |lit|)
    ensures TakeLiterals(e, s, ip, |lit|, w, ctx) == Next(State(ip + |lit|, w + lit, ctx))
  {
  }

  // ----- the two bytes that end every match -----

  lemma Quotient(o: nat, d: nat) returns (q: nat, r: nat)
    requires d == 4 || d == 8 || d == 64
    ensures q == o / d && r == o % d && o == d * q + r && r < d
  {
    q, r := o / d, o % d;
  }

  lemma Fields(m: nat, r: nat, k: nat, d: nat)
    requires (d == 4 || d == 8) && r < d && k < 4
    ensures var a := m * (4 * d) + r * 4 + k; a / (4 * d) == m && a / 4 % d == r && a % 4 == k
  {
    assert (m * (4 * d) + r * 4 + k) / 4 == m * d + r;
  }

  ghost predicate NearReads(f: Flavour, form: Form, off: nat, len: nat, a: int, b: int) {
    match form
    case M1 => a < 16 && off == 1 + a / 4 + 4 * b
    case M2 =>
      && 64 <= a < 256
      && if f == X then off == 1 + a / 4 % 8 + 8 * b && len == a / 32 + 1
         else off == 1 + a / 4 % 4 + 4 * b && len == a / 16 - 1
    case MX => a < 16 && off == 1 + M2MaxOffset(f) + a / 4 + 4 * b
    case _ => false
  }

  lemma M1Bytes(off: nat, k: nat)
    requires 1 <= off <= M1_MAX_OFFSET && k <= 3
    ensures var a, b := LowByte((off - 1) % 4 * 4) + k, LowByte((off - 1) / 4);
            a < 16 && a % 4 == k && off == 1 + a / 4 + 4 * (b as int)
  {
    var q, r := Quotient(off - 1, 4);
  }

  lemma M2BytesX(m: nat, off: nat, k: nat)
    requires 1 <= off <= 0x800 && k <= 3 && 2 <= m < 8
    ensures var a, b := LowByte(m * 32 + (off - 1) % 8 * 4) + k, LowByte((off - 1) / 8);
            64 <= a < 256 && a % 4 == k && a / 32 == m && off == 1 + a / 4 % 8 + 8 * (b as int)
  {
    hide LowByte;
    var q, r := Quotient(off - 1, 8);
    LowByteId(m * 32 + r * 4);
    LowByteId(q);
    Fields(m, r, k, 8);
  }

  lemma M2BytesY(m: nat, off: nat, k: nat)
    requires 1 <= off <= 0x400 && k <= 3 && 4 <= m < 16
    ensures var a, b := LowByte(m * 16 + (off - 1) % 4 * 4) + k, LowByte((off - 1) / 4);
            64 <= a < 256 && a % 4 == k && a / 16 == m && off == 1 + a / 4 % 4 + 4 * (b as int)
  {
    hide LowByte;
    var q, r := Quotient(off - 1, 4);
    LowByteId(m * 16 + r * 4);
    LowByteId(q);
    Fields(m, r, k, 4);
  }

  lemma NearBytes(f: Flavour, off: nat, len: nat, ctx: Context, k: nat)
    requires Codable(off, len, ctx) && k <= 3
    requires var form := FormOf(f, off, len, ctx); form == M1 || form == M2 || form == MX
    ensures var form := FormOf(f, off, len, ctx);
            var a := Low(f, form, off, len) + k;
            0 <= a < 256 && a % 4 == k && NearReads(f, form, off, len, a, High(f, form, off))
  {
    match FormOf(f, off, len, ctx)
    case M1 => M1Bytes(off, k);
    case M2 => if f == X { M2BytesX(len - 1, off, k); } else { M2BytesY(len + 1, off, k); }
    case MX => M1Bytes(off - M2MaxOffset(f), k);
  }

  lemma LowSix(o: nat)
    ensures LowByte(o * 4) == o % 64 * 4
  {
    var q, r := Quotient(o, 64);
    assert o * 4 == 256 * q + 4 * r;
  }

  lemma FarBytes(f: Flavour, off: nat, len: nat, ctx: Context, k: nat)
    requires Codable(off, len, ctx) && k <= 3
    requires var form := FormOf(f, off, len, ctx); form == M3 || form == M4
    ensures var form := FormOf(f, off, len, ctx);
            var a, b := Low(f, form, off, len) + k, High(f, form, off);
            && 0 <= a < 256 && a % 4 == k
            && (form == M3 ==> off == 1 + a / 4 + 64 * (b as int))
            && (form == M4 ==> off == 0x4000 + (if off >= 0x8000 then 0x4000 else 0) + a / 4 + 64 * (b as int))
  {
    var o := if FormOf(f, off, len, ctx) == M3 then off - 1 else off - 0x4000;
    LowSix(o);
    var q, r := Quotient(o, 64);
    if o >= 0x4000 {
      assert 256 <= q < 512;
    }
  }

  // ----- matches -----

  lemma TakeMatchReads(e: Env, s: seq<byte>, ip: nat, off: nat, len: nat, tail: seq<byte>, w: seq<byte>)
    requires 2 <= ip && 1 <= off <= |w| && |tail| <= 3
    requires !NoRoom(e, w, len + |tail|)
    requires At(s, ip, tail) && ip + |tail| < |s| && s[ip - 2] % 4 == |tail|
    ensures TakeMatch(e, s, ip, off, len, w)
         == Next(State(ip + |tail|, Copy(w, off, len) + tail, if tail == [] then AfterMatch else AfterFew))
  {
    assert Copy(w, off, len) + [] == Copy(w, off, len);
  }

  lemma StepReadsNear(e: Env, s: seq<byte>, st: State, off: nat, len: nat, k: nat)
    requires Codable(off, len, st.ctx) && k <= 3
    requires var form := FormOf(e.f, off, len, st.ctx); form == M1 || form == M2 || form == MX
    requires st.ip + 2 <= |s|
    requires var form := FormOf(e.f, off, len, st.ctx);
             s[st.ip] == Low(e.f, form, off, len) + k && s[st.ip + 1] == High(e.f, form, off)
    ensures Step(e, s, st) == TakeMatch(e, s, st.ip + 2, off, len, st.w)
  {
    hide TakeMatch, Low, High, ReadLength;
    NearBytes(e.f, off, len, st.ctx, k);
  }

  lemma ReadLengthReads(s: seq<byte>, ip: nat, marker: byte, n: nat, max: nat, len: nat)
    requires 3 <= len && n == (if len - 2 <= max then len - 2 else 0)
    requires At(s, ip, [marker] + (if len - 2 <= max then [] else Ext(len - 2 - max)))
    ensures ReadLength(s, ip + 1, n, max)
         == Some(Length(len - 2, ip + 1 + (if len - 2 <= max then 0 else |Ext(len - 2 - max)|)))
  {
    hide Ext, ReadExt, At;
    if len - 2 > max {
      AtSplit(s, ip, [marker], Ext(len - 2 - max));
      ReadExtReads(s, ip + 1, len - 2 - max);
    }
  }

  lemma MarkerFields(k: nat, n: nat)
    requires (k == 0 || k == 8) && n < 8
    ensures var t := M4_MARKER + k + n; t % 8 == n && t / 8 % 2 == k / 8
  {
  }

  lemma StepReadsM3(e: Env, s: seq<byte>, st: State, off: nat, len: nat)
    requires 3 <= len && st.ctx != Start && At(s, st.ip, Head(M3, off, len))
    requires st.ip + |Head(M3, off, len)| < |s|
    ensures Step(e, s, st) == TakeFar(e, s, st.ip + |Head(M3, off, len)|, len, 0, false, st.w)
  {
    hide TakeFar, Near, TakeLiterals, ReadLength, Ext;
    var n := if len <= M3_MAX_LEN then len - 2 else 0;
    AtIndex(s, st.ip, Head(M3, off, len), 0);
    assert s[st.ip] == M3_MARKER + n;
    assert Head(M3, off, len) == [M3_MARKER + n] + (if len - 2 <= 31 then [] else Ext(len - 2 - 31));
    ReadLengthReads(s, st.ip, M3_MARKER + n, n, 31, len);
  }

  lemma StepReadsM4(e: Env, s: seq<byte>, st: State, off: nat, len: nat)
    requires 3 <= len && st.ctx != Start && At(s, st.ip, Head(M4, off, len))
    requires st.ip + |Head(M4, off, len)| < |s|
    ensures var base := if off >= 0x8000 then 0x4000 else 0;
            Step(e, s, st) == TakeFar(e, s, st.ip + |Head(M4, off, len)|, len, base, true, st.w)
  {
    hide TakeFar, Near, TakeLiterals, ReadLength, Ext;
    var k := if off >= 0x8000 then 8 else 0;
    var n := if len <= M4_MAX_LEN then len - 2 else 0;
    MarkerFields(k, n);
    AtIndex(s, st.ip, Head(M4, off, len), 0);
    assert s[st.ip] == M4_MARKER + k + n;
    assert Head(M4, off, len) == [M4_MARKER + k + n] + (if len - 2 <= 7 then [] else Ext(len - 2 - 7));
    ReadLengthReads(s, st.ip, M4_MARKER + k + n, n, 7, len);
  }

  lemma NearHead(form: Form, off: nat, len: nat)
    requires form == M1 || form == M2 || form == MX
    ensures Head(form, off, len) == []
  {
  }

  /** The parts of a match's code: the head, the two bytes with the literal count added in, the literals. */
  lemma MatchParts(f: Flavour, off: nat, len: nat, tail: seq<byte>, ctx: Context) returns (a: byte, b: byte)
    requires Codable(off, len, ctx) && |tail| <= 3
    ensures var form := FormOf(f, off, len, ctx);
            && a == Low(f, form, off, len) + |tail| && a % 4 == |tail| && b == High(f, form, off)
            && Code(f, Match(off, len, tail), ctx) == Head(form, off, len) + [a, b] + tail
  {
    hide Low, High, LowByte, Head, FormOf, Codable, NearReads;
    var form := FormOf(f, off, len, ctx);
    LowFits(f, off, len, ctx, |tail|);
    a, b := Low(f, form, off, len) + |tail|, High(f, form, off);
    LowByteId(a);
  }

  lemma LowFits(f: Flavour, off: nat, len: nat, ctx: Context, k: nat)
    requires Codable(off, len, ctx) && k <= 3
    ensures var a := Low(f, FormOf(f, off, len, ctx), off, len) + k; a < 256 && a % 4 == k
  {
    hide Low, High, FormOf, Codable, NearReads;
    var form := FormOf(f, off, len, ctx);
    if form == M3 || form == M4 {
      FarBytes(f, off, len, ctx, k);
    } else {
      NearBytes(f, off, len, ctx, k);
    }
  }

  /** Where those parts stand in the block. */
  lemma CodeParts(f: Flavour, s: seq<byte>, ip: nat, off: nat, len: nat, tail: seq<byte>, ctx: Context)
    requires Codable(off, len, ctx) && |tail| <= 3 && At(s, ip, Code(f, Match(off, len, tail), ctx))
    ensures var form := FormOf(f, off, len, ctx);
            var p := ip + |Head(form, off, len)|;
            && At(s, ip, Head(form, off, len)) && At(s, p + 2, tail)
            && |Code(f, Match(off, len, tail), ctx)| == p + 2 + |tail| - ip
            && p + 2 <= |s|
            && s[p] == Low(f, form, off, len) + |tail| && s[p] % 4 == |tail| && s[p + 1] == High(f, form, off)
  {
    hide Low, High, LowByte, Head, FormOf, Codable, Code, At;
    var h := Head(FormOf(f, off, len, ctx), off, len);
    var a, b := MatchParts(f, off, len, tail, ctx);
    AtSplit(s, ip, h + [a, b], tail);
    AtSplit(s, ip, h, [a, b]);
    AtIndex(s, ip + |h|, [a, b], 0);
    AtIndex(s, ip + |h|, [a, b], 1);
  }

  lemma StepReadsFar(e: Env, s: seq<byte>, st: State, off: nat, len: nat, k: nat)
    requires Codable(off, len, st.ctx) && k <= 3
    requires var form := FormOf(e.f, off, len, st.ctx);
             var p := st.ip + |Head(form, off, len)|;
             && (form == M3 || form == M4)
             && At(s, st.ip, Head(form, off, len)) && p + 2 <= |s|
             && s[p] == Low(e.f, form, off, len) + k && s[p + 1] == High(e.f, form, off)
    ensures var p := st.ip + |Head(FormOf(e.f, off, len, st.ctx), off, len)|;
            Step(e, s, st) == TakeMatch(e, s, p + 2, off, len, st.w)
  {
    hide Step, Low, High, LowByte, Head, FormOf, TakeMatch;
    FarBytes(e.f, off, len, st.ctx, k);
    FarLength(e.f, off, len, st.ctx);
    if FormOf(e.f, off, len, st.ctx) == M3 {
      StepReadsM3(e, s, st, off, len);
    } else {
      StepReadsM4(e, s, st, off, len);
    }
  }

  lemma StepReadsMatch(e: Env, s: seq<byte>, st: State, off: nat, len: nat, tail: seq<byte>)
    requires Legal(Match(off, len, tail), st.ctx, st.w) && !NoRoom(e, st.w, len + |tail|)
    requires var c := Code(e.f, Match(off, len, tail), st.ctx); At(s, st.ip, c) && st.ip + |c| < |s|
    ensures Step(e, s, st) == Next(State(st.ip + |Code(e.f, Match(off, len, tail), st.ctx)|,
                                         Copy(st.w, off, len) + tail, After(Match(off, len, tail))))
  {
    hide Step, Low, High, Head, FormOf, Codable, TakeMatch, Code, NoRoom;
    var form := FormOf(e.f, off, len, st.ctx);
    CodeParts(e.f, s, st.ip, off, len, tail, st.ctx);
    OffsetPositive(off, len, st.ctx);
    var p := st.ip + |Head(form, off, len)|;
    TakeMatchReads(e, s, p + 2, off, len, tail, st.w);
    if form == M3 || form == M4 {
      StepReadsFar(e, s, st, off, len, |tail|);
    } else {
      NearHead(form, off, len);
      StepReadsNear(e, s, st, off, len, |tail|);
    }
  }

  lemma OffsetPositive(off: nat, len: nat, ctx: Context)
    requires Codable(off, len, ctx)
    ensures 1 <= off && ctx != Start
  {
  }

  lemma FarLength(f: Flavour, off: nat, len: nat, ctx: Context)
    requires Codable(off, len, ctx) && (FormOf(f, off, len, ctx) == M3 || FormOf(f, off, len, ctx) == M4)
    ensures 3 <= len && (FormOf(f, off, len, ctx) == M4 ==> off > 0x4000)
  {
  }

  // ----- streams -----

  lemma StepReadsToken(e: Env, s: seq<byte>, st: State, t: Token)
    requires Legal(t, st.ctx, st.w) && |Grow(st.w, t)| <= e.d + e.cap
    requires At(s, st.ip, Code(e.f, t, st.ctx)) && st.ip + |Code(e.f, t, st.ctx)| < |s|
    ensures Step(e, s, st) == Next(State(st.ip + |Code(e.f, t, st.ctx)|, Grow(st.w, t), After(t)))
  {
    hide Step, Code;
    match t
    case Run(lit) => StepReadsRun(e, s, st, lit);
    case Match(off, len, tail) => StepReadsMatch(e, s, st, off, len, tail);
  }

  lemma {:induction false} DecodeReaches(e: Env, dict: seq<byte>, ts: seq<Token>, rest: seq<byte>)
    requires LegalAll(dict, ts) && rest != []
    requires e.d == |dict| && |Expand(dict, ts)| <= e.d + e.cap
    ensures DecodeFrom(e, Encode(e.f, ts) + rest, State(0, dict, Start))
         == DecodeFrom(e, Encode(e.f, ts) + rest, State(|Encode(e.f, ts)|, Expand(dict, ts), ContextOf(ts)))
  {
    hide Step, Code, Legal, Grow, At;
    if ts != [] {
      var init, t := ts[..|ts| - 1], ts[|ts| - 1];
      var c := Code(e.f, t, ContextOf(init));
      var st := State(|Encode(e.f, init)|, Expand(dict, init), ContextOf(init));
      DecodeReaches(e, dict, init, c + rest);
      var s := Encode(e.f, init) + c + rest;
      AtMiddle(Encode(e.f, init), c, rest);
      StepReadsToken(e, s, st, t);
      assert Encode(e.f, init) + (c + rest) == s == Encode(e.f, ts) + rest;
    }
  }

  lemma StepReadsEnd(e: Env, pre: seq<byte>, st: State)
    requires st.ip == |pre|
    ensures Step(e, pre + EOF_CODE, st) == End(|pre| + 3)
  {
    hide Near, TakeLiterals, TakeMatch;
    var s := pre + EOF_CODE;
    assert s[|pre|] == 17 && s[|pre| + 1] == 0 && s[|pre| + 2] == 0;
  }

  /** Every legal token stream, closed with the end code, decodes to what it stands for, for every preset
      dictionary and with exactly enough room; the end code is met at the end of the block and not before. */
  lemma DecodeEncode(f: Flavour, dict: seq<byte>, ts: seq<Token>, cap: nat)
    requires LegalAll(dict, ts) && |Expand(dict, ts)| <= |dict| + cap
    ensures Decode(f, dict, cap, Encode(f, ts) + EOF_CODE)
         == Done(Expand(dict, ts), |Encode(f, ts) + EOF_CODE|)
  {
    hide Step, LegalAll, Expand;
    var e := Env(f, |dict|, cap);
    DecodeReaches(e, dict, ts, EOF_CODE);
    StepReadsEnd(e, Encode(f, ts), State(|Encode(f, ts)|, Expand(dict, ts), ContextOf(ts)));
  }

  lemma Snoc(f: Flavour, dict: seq<byte>, ts: seq<Token>, t: Token)
    requires LegalAll(dict, ts) && Legal(t, ContextOf(ts), Expand(dict, ts))
    ensures LegalAll(dict, ts + [t])
    ensures Encode(f, ts + [t]) == Encode(f, ts) + Code(f, t, ContextOf(ts))
    ensures Expand(dict, ts + [t]) == Grow(Expand(dict, ts), t)
    ensures ContextOf(ts + [t]) == After(t)
  {
    assert (ts + [t])[..|ts|] == ts;
  }

  lemma Unsnoc(f: Flavour, dict: seq<byte>, ts: seq<Token>) returns (init: seq<Token>, last: Token)
    requires LegalAll(dict, ts) && ts != []
    ensures ts == init + [last] && ContextOf(ts) == After(last)
    ensures LegalAll(dict, init) && Legal(last, ContextOf(init), Expand(dict, init))
    ensures Encode(f, ts) == Encode(f, init) + Code(f, last, ContextOf(init))
    ensures Expand(dict, ts) == Grow(Expand(dict, init), last)
  {
    init, last := ts[..|ts| - 1], ts[|ts| - 1];
  }
}
