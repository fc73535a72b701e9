/** LZO1X and LZO1Y blocks can be read in one way only: the bytes of a legal token stream determine the tokens.
    What the decoder does on windows and buffer sizes of all kinds tells any two tokens apart. */
module Lzo1xUnique {
  import opened Bytes
  import opened Window
  import opened Tokens
  import opened Lzo1xFormat
  import opened Lzo1xRoundTrip

  /** Legal, whatever the window. */
  predicate Expressible(t: Token, ctx: Context) {
    match t
    case Run(lit) => (ctx == Start && 1 <= |lit|) || (ctx == AfterMatch && 4 <= |lit|)
    case Match(off, len, tail) => Codable(off, len, ctx) && |tail| <= 3
  }

  function MatchEnd(f: Flavour, ip: nat, off: nat, len: nat, ctx: Context): nat {
    ip + |Head(FormOf(f, off, len, ctx), off, len)| + 2
  }

  /** On any window, the code of a match is read as that match. */
  lemma StepIsMatch(e: Env, s: seq<byte>, st: State, off: nat, len: nat, tail: seq<byte>)
    requires Codable(off, len, st.ctx) && |tail| <= 3
    requires At(s, st.ip, Code(e.f, Match(off, len, tail), st.ctx))
    ensures var p := MatchEnd(e.f, st.ip, off, len, st.ctx);
            2 <= p <= |s| && 1 <= off && Step(e, s, st) == TakeMatch(e, s, p, off, len, st.w)
  {
    hide Step, Low, High, Head, FormOf, Codable, TakeMatch, Code;
    CodeParts(e.f, s, st.ip, off, len, tail, st.ctx);
    OffsetPositive(off, len, st.ctx);
    var form := FormOf(e.f, off, len, st.ctx);
    if form == M3 || form == M4 {
      StepReadsFar(e, s, st, off, len, |tail|);
    } else {
      NearHead(form, off, len);
      StepReadsNear(e, s, st, off, len, |tail|);
    }
  }

  function Zeros(n: nat): (w: seq<byte>)
    ensures |w| == n
  {
    seq(n, _ => 0)
  }

  /** A window too short for a match, but long enough for another, separates the two. */
  lemma SameOffset(f: Flavour, s: seq<byte>, ip: nat, ctx: Context, off: nat, len: nat, tail: seq<byte>,
                   off': nat, len': nat, tail': seq<byte>)
    requires Codable(off, len, ctx) && |tail| <= 3 && At(s, ip, Code(f, Match(off, len, tail), ctx))
    requires Codable(off', len', ctx) && |tail'| <= 3 && At(s, ip, Code(f, Match(off', len', tail'), ctx))
    ensures off' <= off
  {
    hide Step, Codable, Code, At, MatchEnd;
    var e, st := Env(f, 0, off + len + len' + 3), State(ip, Zeros(off), ctx);
    StepIsMatch(e, s, st, off, len, tail);
    StepIsMatch(e, s, st, off', len', tail');
  }

  /** A buffer with room for exactly one of two matches separates them. */
  lemma SameLength(f: Flavour, s: seq<byte>, ip: nat, ctx: Context, off: nat, len: nat, tail: seq<byte>,
                   len': nat, tail': seq<byte>)
    requires Codable(off, len, ctx) && |tail| <= 3 && At(s, ip, Code(f, Match(off, len, tail), ctx))
    requires Codable(off, len', ctx) && |tail'| <= 3 && At(s, ip, Code(f, Match(off, len', tail'), ctx))
    ensures len' <= len
  {
    hide Step, Code, At, MatchEnd;
    var e, st := Env(f, 0, off + len), State(ip, Zeros(off), ctx);
    StepIsMatch(e, s, st, off, len, tail);
    StepIsMatch(e, s, st, off, len', tail');
  }

  lemma SameTail(f: Flavour, s: seq<byte>, ip: nat, ctx: Context, off: nat, len: nat, tail: seq<byte>, tail': seq<byte>)
    requires Codable(off, len, ctx)
    requires |tail| <= 3 && At(s, ip, Code(f, Match(off, len, tail), ctx))
    requires |tail'| <= 3 && At(s, ip, Code(f, Match(off, len, tail'), ctx))
    ensures tail == tail'
  {
    hide Code, Low, High, Head, FormOf, Codable;
    CodeParts(f, s, ip, off, len, tail, ctx);
    CodeParts(f, s, ip, off, len, tail', ctx);
  }

  lemma SameMatch(f: Flavour, s: seq<byte>, ip: nat, ctx: Context, t: Token, t': Token)
    requires t.Match? && Expressible(t, ctx) && At(s, ip, Code(f, t, ctx))
    requires t'.Match? && Expressible(t', ctx) && At(s, ip, Code(f, t', ctx))
    ensures t == t'
  {
    hide Code, Codable, At;
    SameOffset(f, s, ip, ctx, t.off, t.len, t.tail, t'.off, t'.len, t'.tail);
    SameOffset(f, s, ip, ctx, t'.off, t'.len, t'.tail, t.off, t.len, t.tail);
    SameLength(f, s, ip, ctx, t.off, t.len, t.tail, t'.len, t'.tail);
    SameLength(f, s, ip, ctx, t.off, t'.len, t'.tail, t.len, t.tail);
    SameTail(f, s, ip, ctx, t.off, t.len, t.tail, t'.tail);
  }

  /** On any window, the code of a literal run is read as that many literals. */
  lemma StepIsRun(e: Env, s: seq<byte>, st: State, lit: seq<byte>)
    requires Expressible(Run(lit), st.ctx) && At(s, st.ip, Code(e.f, Run(lit), st.ctx))
    ensures var p := st.ip + |RunHeader(|lit|, st.ctx == Start)|;
            && At(s, p, lit)
            && Step(e, s, st) == TakeLiterals(e, s, p, |lit|, st.w, if |lit| < 4 then AfterFew else AfterRun)
  {
    hide Step, RunHeader, At, TakeLiterals;
    AtSplit(s, st.ip, RunHeader(|lit|, st.ctx == Start), lit);
    StepReadsHeader(e, s, st, |lit|);
  }

  lemma SameRunLength(f: Flavour, s: seq<byte>, ip: nat, ctx: Context, lit: seq<byte>, lit': seq<byte>)
    requires Expressible(Run(lit), ctx) && At(s, ip, Code(f, Run(lit), ctx))
    requires Expressible(Run(lit'), ctx) && At(s, ip, Code(f, Run(lit'), ctx))
    ensures |lit'| <= |lit|
  {
    hide Step, RunHeader, At, Code;
    var e, st := Env(f, 0, |lit|), State(ip, [], ctx);
    StepIsRun(e, s, st, lit);
    StepIsRun(e, s, st, lit');
  }

  lemma SameRun(f: Flavour, s: seq<byte>, ip: nat, ctx: Context, lit: seq<byte>, lit': seq<byte>)
    requires Expressible(Run(lit), ctx) && At(s, ip, Code(f, Run(lit), ctx))
    requires Expressible(Run(lit'), ctx) && At(s, ip, Code(f, Run(lit'), ctx))
    ensures lit == lit'
  {
    hide Step, RunHeader, Code;
    SameRunLength(f, s, ip, ctx, lit, lit');
    SameRunLength(f, s, ip, ctx, lit', lit);
    var e, st := Env(f, 0, |lit|), State(ip, [], ctx);
    StepIsRun(e, s, st, lit);
    StepIsRun(e, s, st, lit');
  }

  /** A match looks behind; on an empty window it fails in a way that literals never do. */
  lemma RunIsNoMatch(f: Flavour, s: seq<byte>, ip: nat, ctx: Context, t: Token, t': Token)
    requires Expressible(t, ctx) && At(s, ip, Code(f, t, ctx))
    requires Expressible(t', ctx) && At(s, ip, Code(f, t', ctx))
    ensures t.Run? <==> t'.Run?
  {
    hide Step, RunHeader, At, Code, Codable, MatchEnd;
    var run, mat := if t.Run? then t else t', if t.Run? then t' else t;
    if run.Run? && mat.Match? {
      var e, st := Env(f, 0, mat.len), State(ip, [], ctx);
      StepIsMatch(e, s, st, mat.off, mat.len, mat.tail);
      StepIsRun(e, s, st, run.lit);
    }
  }

  /** In one context, one place of a block is the code of at most one token. */
  lemma SameToken(f: Flavour, s: seq<byte>, ip: nat, ctx: Context, t: Token, t': Token)
    requires Expressible(t, ctx) && At(s, ip, Code(f, t, ctx))
    requires Expressible(t', ctx) && At(s, ip, Code(f, t', ctx))
    ensures t == t'
  {
    hide Code, At, Expressible;
    RunIsNoMatch(f, s, ip, ctx, t, t');
    if t.Run? {
      SameRun(f, s, ip, ctx, t.lit, t'.lit);
    } else {
      SameMatch(f, s, ip, ctx, t, t');
    }
  }

  /** Where the end code stands, no token's code can. */
  lemma EndIsNoToken(f: Flavour, pre: seq<byte>, ctx: Context, t: Token)
    requires Expressible(t, ctx)
    ensures !At(pre + EOF_CODE, |pre|, Code(f, t, ctx))
  {
    hide Step, RunHeader, Code, Codable, MatchEnd, At;
    var s, e, st := pre + EOF_CODE, Env(f, 0, 0), State(|pre|, [], ctx);
    if At(s, |pre|, Code(f, t, ctx)) {
      StepReadsEnd(e, pre, st);
      match t {
        case Run(lit) => StepIsRun(e, s, st, lit);
        case Match(off, len, tail) => StepIsMatch(e, s, st, off, len, tail);
      }
    }
  }

  // ----- streams -----

  lemma LegalIsExpressible(t: Token, ctx: Context, w: seq<byte>)
    requires Legal(t, ctx, w)
    ensures Expressible(t, ctx)
  {
  }

  /** Token k of a stream stands behind the code of the k tokens before it. */
  lemma {:induction false} TokenAt(f: Flavour, dict: seq<byte>, ts: seq<Token>, k: nat, rest: seq<byte>)
    requires LegalAll(dict, ts) && k < |ts|
    ensures Expressible(ts[k], ContextOf(ts[..k]))
    ensures At(Encode(f, ts) + rest, |Encode(f, ts[..k])|, Code(f, ts[k], ContextOf(ts[..k])))
    decreases |ts|
  {
    hide Code, Legal, Expressible, Expand, ContextOf;
    var init, last := ts[..|ts| - 1], ts[|ts| - 1];
    var c := Code(f, last, ContextOf(init));
    assert Encode(f, ts) + rest == Encode(f, init) + (c + rest) == Encode(f, init) + c + rest;
    if k == |ts| - 1 {
      LegalIsExpressible(last, ContextOf(init), Expand(dict, init));
      AtMiddle(Encode(f, init), c, rest);
    } else {
      TokenAt(f, dict, init, k, c + rest);
      assert init[..k] == ts[..k] && init[k] == ts[k];
    }
  }

  lemma {:induction false} SamePrefix(f: Flavour, dict: seq<byte>, ts: seq<Token>,
                                      dict': seq<byte>, ts': seq<Token>, k: nat)
    requires LegalAll(dict, ts) && LegalAll(dict', ts') && k <= |ts| && k <= |ts'|
    requires Encode(f, ts) + EOF_CODE == Encode(f, ts') + EOF_CODE
    ensures ts[..k] == ts'[..k]
  {
    hide Code, At, LegalAll, Encode, Expressible, ContextOf;
    if k > 0 {
      SamePrefix(f, dict, ts, dict', ts', k - 1);
      var init := ts[..k - 1];
      TokenAt(f, dict, ts, k - 1, EOF_CODE);
      TokenAt(f, dict', ts', k - 1, EOF_CODE);
      SameToken(f, Encode(f, ts) + EOF_CODE, |Encode(f, init)|, ContextOf(init), ts[k - 1], ts'[k - 1]);
      assert ts[..k] == init + [ts[k - 1]] && ts'[..k] == init + [ts'[k - 1]];
    }
  }

  lemma NotShorter(f: Flavour, dict: seq<byte>, ts: seq<Token>, dict': seq<byte>, ts': seq<Token>)
    requires LegalAll(dict, ts) && LegalAll(dict', ts')
    requires Encode(f, ts) + EOF_CODE == Encode(f, ts') + EOF_CODE
    ensures |ts'| <= |ts|
  {
    hide Code, At, LegalAll, Encode, Expressible, ContextOf;
    if |ts| < |ts'| {
      var n := |ts|;
      SamePrefix(f, dict, ts, dict', ts', n);
      assert ts[..n] == ts;
      TokenAt(f, dict', ts', n, EOF_CODE);
      EndIsNoToken(f, Encode(f, ts), ContextOf(ts), ts'[n]);
    }
  }

  /** A closed block is the code of one legal token stream only, whatever dictionaries the streams are legal
      over: literal counts, explicit runs and all match forms can be told apart by what came before them. */
  lemma UniqueTokens(f: Flavour, dict: seq<byte>, ts: seq<Token>, dict': seq<byte>, ts': seq<Token>)
    requires LegalAll(dict, ts) && LegalAll(dict', ts')
    requires Encode(f, ts) + EOF_CODE == Encode(f, ts') + EOF_CODE
    ensures ts == ts'
  {
    NotShorter(f, dict, ts, dict', ts');
    NotShorter(f, dict', ts', dict, ts);
    SamePrefix(f, dict, ts, dict', ts', |ts|);
    assert ts[..|ts|] == ts && ts'[..|ts|] == ts';
  }
}
