/** lzo1f_1_compress. The work memory is never cleared: a dictionary slot may hold anything, and the check
    LZO_CHECK_MPOS_NON_DET has to reject everything that is not an earlier input position. */
module Lzo1fCompressor {
  import opened Bytes
  import opened Window
  import opened Tokens
  import opened LengthCode
  import opened Lzo1fFormat
  import opened Lzo1fParse
  import opened Room

  ghost predicate Emitted(out: array<byte>, op: nat, ts: seq<Token>)
    reads out
  {
    op <= out.Length && LegalAll(ts) && out[..op] == Encode(ts)
  }

  /** At the top of the loop: everything before `ii` is coded; if that is anything, it ends with a match
      whose two low bits are still free. */
  ghost predicate Coded(out: array<byte>, op: nat, ts: seq<Token>, inp: seq<byte>, ii: nat)
    reads out
  {
    && Emitted(out, op, ts)
    && ii <= |inp| && Expand([], ts) == inp[..ii]
    && 32 * op <= 33 * ii
    && !Context(ts)
    && (op == 0 <==> ts == [])
  }

  /** Everything before `ip` is coded, and `lit` says whether literals came last. */
  ghost predicate Flushed(out: array<byte>, op: nat, ts: seq<Token>, inp: seq<byte>, ip: nat, lit: bool)
    reads out
  {
    && Emitted(out, op, ts)
    && ip <= |inp| && Expand([], ts) == inp[..ip]
    && 32 * op <= 33 * ip + 32
    && Context(ts) == lit
  }

  // ----- literals -----

  method PutRunHeader(out: array<byte>, op: nat, n: nat) returns (op': nat)
    requires 1 <= n && op + |RunHeader(n)| <= out.Length
    modifies out
    ensures op' == op + |RunHeader(n)| && out[..op'] == old(out[..op]) + RunHeader(n)
  {
    if n <= 31 {
      out[op] := LowByte(n);
      op' := op + 1;
    } else {
      out[op] := 0;
      assert out[..op + 1] == old(out[..op]) + [0];
      op' := PutExt(out, op + 1, n - 31);
    }
  }

  lemma RunHeaderRoom(n: nat)
    requires 1 <= n
    ensures |RunHeader(n)| <= n / 32 + 1
  {
  }

  /** Or the count into the byte before last: its two low bits are clear, so the count is added. */
  method FoldLiterals(out: array<byte>, op: nat, inp: seq<byte>, ii: nat, k: nat, ghost ts: seq<Token>)
    returns (op': nat, ghost ts': seq<Token>)
    requires Coded(out, op, ts, inp, ii) && op > 0 && 1 <= k <= 3 && ii + k <= |inp|
    requires out.Length >= Bound(|inp|)
    modifies out
    ensures Flushed(out, op', ts', inp, ii + k, true) && ts' == Literals(inp, ii, ii + k, ts)
  {
    hide LegalAll, Encode, Expand, Code, Bound, Legal;
    FoldRoom(op, ii, k, |inp|);
    ghost var w;
    w, ts' := FoldTokens(ts, inp[ii..ii + k]);
    assert out[..op][..|w|] == out[..|w|] == w;
    assert out[op - 2] == out[..op][|w|] && out[op - 1] == out[..op][|w| + 1];
    assert out[op - 2] % 4 == 0;
    out[op - 2] := out[op - 2] + k;
    assert out[..|w|] == w;
    assert out[..op] == w + [out[op - 2], out[op - 1]];
    CopyLiterals(out, op, inp, ii, k);
    op' := op + k;
    assert inp[..ii] + inp[ii..ii + k] == inp[..ii + k];
  }

  lemma FoldTokens(ts: seq<Token>, lit: seq<byte>) returns (w: seq<byte>, ts': seq<Token>)
    requires LegalAll(ts) && ts != [] && !Context(ts) && 1 <= |lit| <= 3
    ensures LegalAll(ts') && Context(ts')
    ensures ts[|ts| - 1].Match? && ts' == ts[..|ts| - 1] + [ts[|ts| - 1].(tail := lit)]
    ensures Expand([], ts') == Expand([], ts) + lit
    ensures |Encode(ts)| == |w| + 2 && w <= Encode(ts)
    ensures Encode(ts)[|w|] % 4 == 0 && Encode(ts)[|w|] <= 252
    ensures Encode(ts') == w + [Encode(ts)[|w|] + |lit|, Encode(ts)[|w| + 1]] + lit
  {
    hide LegalAll, Encode, Expand, Context, Code, MatchHead, MatchLow, MatchHigh;
    var init, last := Unsnoc(ts);
    var after := Context(init);
    var m := last.(tail := lit);
    FoldBytes(last, lit, after);
    Snoc(init, m);
    ts' := init + [m];
    w := Encode(init) + MatchHead(last.off, last.len, after);
    ghost var g := Copy(Expand([], init), last.off, last.len);
    assert g + [] == g;
  }

  lemma FoldBytes(last: Token, lit: seq<byte>, after: bool)
    requires last.Match? && last.tail == [] && 1 <= |lit| <= 3 && 1 <= last.off <= M3_MAX_OFFSET && 3 <= last.len
    ensures var h, a, b := MatchHead(last.off, last.len, after), MatchLow(last.off, last.len, after),
                           MatchHigh(last.off, last.len, after);
            && a % 4 == 0 && a <= 252
            && Code(last, after) == h + [a, b]
            && Code(last.(tail := lit), after) == h + [a + |lit|, b] + lit
  {
    hide MatchHead, MatchHigh, MatchLow, Code;
    var a, b := MatchParts(last.off, last.len, [], after);
    var a', b' := MatchParts(last.off, last.len, lit, after);
    assert MatchHead(last.off, last.len, after) + [a, b] + [] == MatchHead(last.off, last.len, after) + [a, b];
    assert last == Match(last.off, last.len, []);
  }

  /** Store the literals `inp[ii..ip]`: folded into the last match, or as an explicit run. */
  method CodeLiterals(out: array<byte>, op: nat, inp: seq<byte>, ii: nat, ip: nat, ghost ts: seq<Token>)
    returns (op': nat, ghost ts': seq<Token>)
    requires Coded(out, op, ts, inp, ii) && ii < ip <= |inp|
    requires out.Length >= Bound(|inp|)
    modifies out
    ensures Flushed(out, op', ts', inp, ip, true) && ts' == Literals(inp, ii, ip, ts)
  {
    hide LegalAll, Encode, Expand, Bound, RunHeader;
    var t := ip - ii;
    if t < 4 && op > 0 {
      op', ts' := FoldLiterals(out, op, inp, ii, t, ts);
      return;
    }
    ghost var run := Run(inp[ii..ip]);
    RunHeaderRoom(t);
    RunHeaderBound(t);
    RunRoom(op, ii, ip, |inp|);
    op' := PutRunHeader(out, op, t);
    CopyLiterals(out, op', inp, ii, t);
    op' := op' + t;
    FlushedRoom(op, ii, ip, op');
    Snoc(ts, run);
    ts' := ts + [run];
    assert inp[..ii] + inp[ii..ip] == inp[..ip];
    assert out[..op'] == old(out[..op]) + Code(run, false);
  }

  lemma RunHeaderBound(n: nat)
    requires 1 <= n
    ensures |RunHeader(n)| + n <= Bound(n)
  {
  }

  // ----- matches -----

  /** The length of the match at `ii`; three bytes are known to agree. */
  method ExtendMatch(inp: seq<byte>, ii: nat, off: nat) returns (len: nat)
    requires 1 <= off <= ii && ii + 9 <= |inp| && SameThree(inp, ii - off, ii)
    ensures len == MatchLen(inp, ii, off)
    ensures 3 <= len && ii + len <= |inp|
    ensures forall i :: ii <= i < ii + len ==> inp[i] == inp[i - off]
    ensures ii + len < |inp| ==> inp[ii + len] != inp[ii + len - off]
  {
    hide MatchLen;
    var ip, mPos := ii + 3, ii + 3 - off;
    var differs := false;
    while ip < ii + 9 && !differs
      invariant ii + 3 <= ip <= ii + 9 && mPos == ip - off
      invariant differs ==> ip > ii + 3 && inp[ip - 1] != inp[ip - 1 - off]
      invariant forall i :: ii <= i < (if differs then ip - 1 else ip) ==> inp[i] == inp[i - off]
    {
      differs := inp[mPos] != inp[ip];
      ip, mPos := ip + 1, mPos + 1;
    }
    if differs {
      ip := ip - 1;
    } else {
      while ip < |inp| && inp[mPos] == inp[ip]
        invariant ii + 9 <= ip <= |inp| && mPos == ip - off
        invariant forall i :: ii <= i < ip ==> inp[i] == inp[i - off]
      {
        ip, mPos := ip + 1, mPos + 1;
      }
    }
    len := ip - ii;
    MatchLenIs(inp, ii, off, len);
  }

  /** The bytes of one match: two for a near one, and for a three-byte one up to twice as far if literals
      come before it; otherwise the far form. */
  method PutMatch(out: array<byte>, op: nat, off: nat, len: nat, lit: bool) returns (op': nat)
    requires 3 <= len && 1 <= off <= M3_MAX_OFFSET
    requires op + |Code(Match(off, len, []), lit)| <= out.Length
    modifies out
    ensures op' == op + |Code(Match(off, len, []), lit)|
    ensures out[..op'] == old(out[..op]) + Code(Match(off, len, []), lit)
  {
    ghost var h, low, high := MatchHead(off, len, lit), MatchLow(off, len, lit), MatchHigh(off, len, lit);
    LowByteId(low);
    assert Code(Match(off, len, []), lit) == h + [low, high] + [] == h + [low, high];
    op' := PutMatchBytes(out, op, off, len, lit);
  }

  method PutMatchBytes(out: array<byte>, op: nat, off: nat, len: nat, lit: bool) returns (op': nat)
    requires 3 <= len && 1 <= off <= M3_MAX_OFFSET
    requires op + |MatchHead(off, len, lit)| + 2 <= out.Length
    modifies out
    ensures op' == op + |MatchHead(off, len, lit)| + 2
    ensures var code := MatchHead(off, len, lit) + [MatchLow(off, len, lit), MatchHigh(off, len, lit)];
            out[..op'] == old(out[..op]) + code
  {
    hide Ext;
    ghost var h := MatchHead(off, len, lit);
    op' := op;
    if len <= 8 && off <= M2_MAX_OFFSET {
      out[op'] := LowByte((len - 2) * 32 + (off - 1) % 8 * 4);
      out[op' + 1] := LowByte((off - 1) / 8);
    } else if len <= 8 && len == 3 && off <= 2 * M2_MAX_OFFSET && lit {
      out[op'] := LowByte((off - 1) % 8 * 4);
      out[op' + 1] := LowByte((off - 1) / 8);
    } else {
      op' := PutFarHead(out, op, off, len, lit);
      out[op'] := LowByte(off % 64 * 4);
      out[op' + 1] := LowByte(off / 64);
    }
    assert out[..op'] == old(out[..op]) + h;
    op' := op' + 2;
  }

  lemma FarHead(off: nat, len: nat, lit: bool)
    requires 3 <= len && !TwoBytes(off, len, lit)
    ensures MatchHead(off, len, lit)
         == if len <= 33 then [LowByte(M3_MARKER + len - 2)] else [M3_MARKER] + Ext(len - 33)
  {
    hide Ext;
  }

  method PutFarHead(out: array<byte>, op: nat, off: nat, len: nat, lit: bool) returns (op': nat)
    requires 3 <= len && !TwoBytes(off, len, lit) && op + |MatchHead(off, len, lit)| <= out.Length
    modifies out
    ensures op' == op + |MatchHead(off, len, lit)|
    ensures out[..op'] == old(out[..op]) + MatchHead(off, len, lit)
  {
    hide Ext, TwoBytes, MatchHead, LowByte;
    FarHead(off, len, lit);
    if len <= 33 {
      out[op] := LowByte(M3_MARKER + len - 2);
      op' := op + 1;
    } else {
      out[op] := M3_MARKER;
      assert out[..op + 1] == old(out[..op]) + [M3_MARKER];
      op' := PutExt(out, op + 1, len - 33);
    }
  }

  /** A match saves a byte unless it is a three-byte one beyond the near offsets. */
  lemma MatchSaves(off: nat, len: nat, lit: bool)
    requires 3 <= len && (off <= M2_MAX_OFFSET || 4 <= len)
    ensures 2 <= |Code(Match(off, len, []), lit)| <= len - 1
  {
  }

  method CodeMatch(out: array<byte>, op: nat, inp: seq<byte>, ip: nat, off: nat, len: nat, lit: bool,
                   ghost ts: seq<Token>)
    returns (op': nat, ghost ts': seq<Token>)
    requires Flushed(out, op, ts, inp, ip, lit)
    requires 3 <= len && ip + len <= |inp| && 1 <= off <= ip && off <= M3_MAX_OFFSET
    requires off <= M2_MAX_OFFSET || 4 <= len
    requires forall i :: ip <= i < ip + len ==> inp[i] == inp[i - off]
    requires out.Length >= Bound(|inp|)
    modifies out
    ensures Coded(out, op', ts', inp, ip + len) && ts' == ts + [Match(off, len, [])]
  {
    hide LegalAll, Encode, Expand, Code;
    ghost var m := Match(off, len, []);
    MatchSaves(off, len, lit);
    op' := PutMatch(out, op, off, len, lit);
    ts' := ts + [m];
    Snoc(ts, m);
    CopyReproduces(inp, ip, off, len);
    assert inp[..ip + len] + m.tail == inp[..ip + len];
  }

  // ----- the dictionary -----

  /** LZO_CHECK_MPOS_NON_DET and the two-slot lookup, on whatever the slots hold. A far candidate must also
      agree on the fourth byte. Offset 0 stands for "literal". */
  method Find(inp: seq<byte>, ip: nat, dict: array<int>, hash: (seq<byte>, nat) -> nat) returns (off: nat)
    requires ip + 4 <= |inp| && dict.Length == D_SIZE
    modifies dict
    ensures var r := Lookup(inp, ip, old(dict[..]), hash(inp, ip) % D_SIZE);
            off == r.0 && dict[..] == old(dict[..])[r.1 := ip]
    ensures off != 0 ==> off <= ip && off <= M3_MAX_OFFSET && SameThree(inp, ip - off, ip)
    ensures off > M2_MAX_OFFSET ==> inp[ip + 3] == inp[ip + 3 - off]
  {
    var dindex := hash(inp, ip) % D_SIZE;
    var mPos := dict[dindex];
    off := 0;
    if !(mPos < 0 || ip - mPos <= 0 || ip - mPos > M3_MAX_OFFSET) {
      var candidate := true;
      if !(ip - mPos <= M2_MAX_OFFSET || inp[mPos + 3] == inp[ip + 3]) {
        var low := dindex % 0x800;
        dindex := low - low % 32 + (31 - low % 32) + 0x2000;
        mPos := dict[dindex];
        candidate := !(mPos < 0 || ip - mPos <= 0 || ip - mPos > M3_MAX_OFFSET)
          && (ip - mPos <= M2_MAX_OFFSET || inp[mPos + 3] == inp[ip + 3]);
      }
      if candidate && inp[mPos] == inp[ip] && inp[mPos + 1] == inp[ip + 1] && inp[mPos + 2] == inp[ip + 2] {
        off := ip - mPos;
      }
    }
    dict[dindex] := ip;
  }

  // ----- do_compress and the public entry point -----

  lemma CodedStart(out: array<byte>, inp: seq<byte>)
    ensures Coded(out, 0, [], inp, 0)
  {
  }

  lemma CodedIsFlushed(out: array<byte>, op: nat, ts: seq<Token>, inp: seq<byte>, ii: nat)
    requires Coded(out, op, ts, inp, ii)
    ensures Flushed(out, op, ts, inp, ii, false)
  {
  }

  method DoCompress(inp: seq<byte>, out: array<byte>, dict: array<int>, hash: (seq<byte>, nat) -> nat)
    returns (op: nat, ghost ts: seq<Token>)
    requires |inp| > 10 && out.Length >= Bound(|inp|) && dict.Length == D_SIZE
    modifies out, dict
    ensures exists lit :: Flushed(out, op, ts, inp, |inp|, lit)
    ensures ts == Parse(inp, hash, Cursor(1, 0, old(dict[..]), []))
  {
    hide Coded, Flushed, Emitted, LegalAll, Encode, Expand, Bound, Context, Parse, Turn, Lookup, MatchLen, Literals;
    ghost var goal := Parse(inp, hash, Cursor(1, 0, dict[..], []));
    var ipEnd := |inp| - 9;
    var ip: nat, ii: nat := 1, 0;
    op, ts := 0, [];
    CodedStart(out, inp);
    while ip < ipEnd
      invariant ii <= ip <= |inp|
      invariant Coded(out, op, ts, inp, ii)
      invariant Parse(inp, hash, Cursor(ip, ii, dict[..], ts)) == goal
    {
      ParseOne(inp, hash, Cursor(ip, ii, dict[..], ts));
      var off := Find(inp, ip, dict, hash);
      if off == 0 {
        ip := ip + 1;
        continue;
      }
      CodedIsFlushed(out, op, ts, inp, ii);
      NoLiterals(inp, ii, ts);
      var lit := ip > ii;
      if lit {
        op, ts := CodeLiterals(out, op, inp, ii, ip, ts);
      }
      var len := ExtendMatch(inp, ip, off);
      assert off > M2_MAX_OFFSET ==> len != 3;
      op, ts := CodeMatch(out, op, inp, ip, off, len, lit, ts);
      ip := ip + len;
      ii := ip;
    }
    CodedIsFlushed(out, op, ts, inp, ii);
    ParseLast(inp, hash, Cursor(ip, ii, dict[..], ts));
    NoLiterals(inp, ii, ts);
    if |inp| > ii {
      op, ts := CodeLiterals(out, op, inp, ii, |inp|, ts);
    } else {
      CodedWhole(out, op, ts, inp, ii);
    }
  }

  lemma NoLiterals(inp: seq<byte>, ii: nat, ts: seq<Token>)
    requires ii <= |inp|
    ensures Literals(inp, ii, ii, ts) == ts
  {
  }

  lemma CodedWhole(out: array<byte>, op: nat, ts: seq<Token>, inp: seq<byte>, ii: nat)
    requires Flushed(out, op, ts, inp, ii, false) && ii >= |inp|
    ensures Flushed(out, op, ts, inp, |inp|, false)
  {
  }

  lemma FlushedDecodes(out: array<byte>, op: nat, ts: seq<Token>, inp: seq<byte>, lit: bool)
    requires Flushed(out, op, ts, inp, |inp|, lit)
    ensures op <= Bound(|inp|) && op <= out.Length && out[..op] == Encode(ts)
    ensures Decode(out[..op] + EOF_CODE) == Some(Result(inp, op + 3))
  {
    hide Decode, Encode, LegalAll, Expand, Context;
    DecodeEncode(ts);
    assert inp[..|inp|] == inp;
  }

  /** For every input and every initial dictionary content: what is written decodes to the input, the end
      code stands exactly at the end of the block, and the block fits in n + n/32 + 4 bytes. */
  method Compress(inp: seq<byte>, out: array<byte>, dict: array<int>, hash: (seq<byte>, nat) -> nat)
    returns (op: nat)
    requires out.Length >= Bound(|inp|) + 3 && dict.Length == D_SIZE
    modifies out, dict
    ensures op <= Bound(|inp|) + 3 && op <= out.Length
    ensures Decode(out[..op]) == Some(Result(inp, op))
    ensures out[..op] == Encode(Parsed(inp, old(dict[..]), hash)) + EOF_CODE
  {
    hide Coded, Flushed, Emitted, LegalAll, Encode, Expand, Decode, Context, Parse, Literals;
    NoLiterals(inp, 0, []);
    ghost var ts: seq<Token> := [];
    op := 0;
    CodedStart(out, inp);
    if |inp| == 0 {
      CodedIsFlushed(out, op, ts, inp, 0);
    } else if |inp| <= 10 {
      op, ts := CodeLiterals(out, 0, inp, 0, |inp|, ts);
    } else {
      op, ts := DoCompress(inp, out, dict, hash);
    }
    ghost var lit :| Flushed(out, op, ts, inp, |inp|, lit);
    FlushedDecodes(out, op, ts, inp, lit);
    ghost var done := out[..op];
    out[op], out[op + 1], out[op + 2] := 225, 0, 0;
    assert out[..op + 3] == done + EOF_CODE;
    op := op + 3;
  }
}
