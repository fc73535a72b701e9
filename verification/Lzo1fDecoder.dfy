/** lzo1f_decompress (lzo1f_d.ch without overrun tests), proved to compute Lzo1fFormat.Decode. */
module Lzo1fDecoder {
  import opened Bytes
  import opened Window
  import opened LengthCode
  import opened ReturnCodes
  import opened Lzo1fFormat

  /** What one step puts out is no longer than a C length, and so its length code does not wrap. */
  lemma RunFits(s: seq<byte>, st: State)
    requires st.ip < |s| && s[st.ip] == 0 && !st.after
    requires var next := Step(s, st); next.Next? && |next.st.out| < WORD
    ensures var l := ReadExt(s, st.ip + 1);
            && l.Some? && 31 + l.value.value < WORD
            && Step(s, st) == TakeRun(s, l.value.ip, 31 + l.value.value, st)
  {
  }

  lemma MatchFits(s: seq<byte>, st: State)
    requires st.ip < |s| && s[st.ip] == M3_MARKER
    requires var next := Step(s, st); !next.Stray? && (next.Next? ==> |next.st.out| < WORD)
    ensures var l := ReadExt(s, st.ip + 1);
            && l.Some? && Step(s, st) == TakeFar(s, l.value.ip, 33 + l.value.value, st)
            && l.value.ip + 2 <= |s|
            && (s[l.value.ip] / 4 + 64 * (s[l.value.ip + 1] as int) != 0 ==> 33 + l.value.value < WORD)
  {
    hide Copy;
  }

  /** An explicit literal run. */
  method ReadRun(inp: seq<byte>, ip: nat, out: array<byte>, op: nat) returns (ip': nat, op': nat)
    requires ip < |inp| && inp[ip] < 32 && op <= out.Length
    requires var next := Step(inp, State(ip, out[..op], false)); next.Next? && |next.st.out| <= out.Length < WORD
    modifies out
    ensures op' <= out.Length
    ensures Step(inp, State(ip, old(out[..op]), false)) == Next(State(ip', out[..op'], true))
  {
    var t: int := inp[ip];
    ip' := ip + 1;
    if t == 0 {
      RunFits(inp, State(ip, out[..op], false));
      t, ip' := GetExt(inp, ip');
      t := Word(t + 31);
    }
    assert Step(inp, State(ip, out[..op], false)) == TakeRun(inp, ip', t, State(ip, out[..op], false));
    CopyLiterals(out, op, inp, ip', t);
    ip', op' := ip' + t, op + t;
  }

  /** The match loop's decoding of a marker into an offset, a length and the position behind the match code;
      offset 0 is the end code. */
  method ReadMatchCode(inp: seq<byte>, ip: nat, ghost st: State) returns (off: nat, len: nat, ip': nat)
    requires st.ip == ip < |inp| && (inp[ip] >= 32 || st.after) && !Step(inp, st).Stray?
    requires Step(inp, st).Next? ==> |Step(inp, st).st.out| < WORD
    ensures 2 <= ip' <= |inp|
    ensures off == 0 ==> Step(inp, st) == End(ip')
    ensures off != 0 ==> Step(inp, st) == TakeMatch(inp, ip', off, len, st)
  {
    hide TakeMatch;
    var t: int := inp[ip];
    ip' := ip + 1;
    if t < M3_MARKER {
      var hi: int := inp[ip'];
      off := 1 + t / 4 % 8 + 8 * hi;
      ip' := ip' + 1;
      if t < 32 {
        off, len := off + M2_MAX_OFFSET, 3;
      } else {
        len := 2 + t / 32;
      }
    } else {
      t := t % 32;
      if t == 0 {
        MatchFits(inp, st);
        t, ip' := GetExt(inp, ip');
        t := Word(t + 31);
      }
      var lo: int, hi: int := inp[ip'], inp[ip' + 1];
      off, len := lo / 4 + 64 * hi, Word(t + 2);
      ip' := ip' + 2;
    }
  }

  method ReadMatch(inp: seq<byte>, ip: nat, out: array<byte>, op: nat, ghost after: bool)
    returns (ended: bool, ip': nat, op': nat, k: nat)
    requires ip < |inp| && (inp[ip] >= 32 || after) && op <= out.Length
    requires var next := Step(inp, State(ip, out[..op], after));
             !next.Stray? && (next.Next? ==> |next.st.out| <= out.Length < WORD)
    modifies out
    ensures op' <= out.Length
    ensures ended ==> Step(inp, State(ip, old(out[..op]), after)) == End(ip') && out[..op'] == old(out[..op])
    ensures !ended ==> Step(inp, State(ip, old(out[..op]), after)) == Next(State(ip', out[..op'], k > 0))
  {
    hide Step;
    var off, len;
    off, len, ip' := ReadMatchCode(inp, ip, State(ip, out[..op], after));
    if off == 0 {
      return true, ip', op, 0;
    }
    CopyMatch(out, op, off, len);
    op' := op + len;
    k := inp[ip' - 2] % 4;
    CopyLiterals(out, op', inp, ip', k);
    ip', op' := ip' + k, op' + k;
    ended := false;
  }

  /** The block must be one the code can decode without leaving its buffers. */
  method Decompress(inp: seq<byte>, out: array<byte>) returns (r: EndCode, op: nat)
    requires Decode(inp).Some? && |Decode(inp).value.out| <= out.Length < WORD
    modifies out
    ensures op <= out.Length && Decode(inp).value.out == out[..op]
    ensures r == AtEnd(Decode(inp).value.ip, |inp|)
  {
    hide Step;
    var ip := 0;
    op := 0;
    while true
      invariant op <= out.Length && DecodeFrom(inp, State(ip, out[..op], false)) == Decode(inp)
      decreases |inp| - ip
    {
      StepInside(inp, State(ip, out[..op], false));
      ghost var ip0, after := ip, false;
      if inp[ip] < 32 {
        ip, op := ReadRun(inp, ip, out, op);
        after := true;
      }
      var k: nat := 1;
      while k > 0
        invariant op <= out.Length && ip0 <= ip && (ip == ip0 ==> k > 0 && !after)
        invariant k > 0 ==> after || (ip < |inp| && inp[ip] >= 32)
        invariant k == 0 ==> !after
        invariant DecodeFrom(inp, State(ip, out[..op], after)) == Decode(inp)
        decreases k > 0, |inp| - ip
      {
        StepInside(inp, State(ip, out[..op], after));
        var ended;
        ended, ip, op, k := ReadMatch(inp, ip, out, op, after);
        if ended {
          return AtEnd(ip, |inp|), op;
        }
        after := k > 0;
      }
    }
  }

  lemma StepInside(s: seq<byte>, st: State)
    ensures Step(s, st).Stray? || st.ip < |s|
    ensures Step(s, st).End? ==> s[st.ip] >= M3_MARKER
  {
  }
}
