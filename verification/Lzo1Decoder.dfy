/** The decompressors lzo1_decompress and lzo1a_decompress: loops that write the output buffer in place,
    proved to compute Lzo1Format.Decode. */
module Lzo1Decoder {
  import opened Bytes
  import opened Window
  import opened ReturnCodes
  import opened Lzo1Format

  /** `256 << t` by repeated doubling, as the decoder computes a long run's length; code 0 is R0FAST. */
  method LongRunLength(code: nat) returns (n: nat)
    requires code < 8
    ensures n == LongRun(code)
  {
    if code == 0 {
      return R0FAST;
    }
    n := 512;
    var k := 1;
    while k < code
      invariant 1 <= k <= code && n == LongRun(k)
    {
      n := n * 2;
      k := k + 1;
    }
  }

  /** The marker of a literal run, at `ip`. */
  method ReadRunHeader(v: Variant, inp: seq<byte>, ip: nat, ghost out: seq<byte>) returns (n: nat, ip': nat)
    requires ip < |inp| && inp[ip] < R0MIN && Step(v, inp, State(ip, out, false)).Some?
    ensures ip < ip' && Step(v, inp, State(ip, out, false)) == TakeRun(inp, ip', n, State(ip, out, false))
  {
    hide TakeRun, TakeMatch;
    n := inp[ip];
    ip' := ip + 1;
    if n == 0 {
      n := inp[ip'];
      ip' := ip' + 1;
      if n >= R0FAST - R0MIN {
        n := LongRunLength(n - (R0FAST - R0MIN));
      } else {
        n := n + R0MIN;
      }
    }
  }

  /** One literal run: the marker byte is at `ip`. */
  method ReadRun(v: Variant, inp: seq<byte>, ip: nat, out: array<byte>, op: nat) returns (ip': nat, op': nat)
    requires ip < |inp| && inp[ip] < R0MIN && op <= out.Length
    requires var next := Step(v, inp, State(ip, out[..op], false)); next.Some? && |next.value.out| <= out.Length
    modifies out
    ensures op <= op' <= out.Length && ip < ip' <= |inp|
    ensures var n := op' - op;
            Step(v, inp, State(ip, old(out[..op]), false)) == Some(State(ip', out[..op'], n < R0FAST))
  {
    hide Step;
    var n;
    n, ip' := ReadRunHeader(v, inp, ip, out[..op]);
    CopyLiterals(out, op, inp, ip', n);
    ip', op' := ip' + n, op + n;
  }

  /** The code of a match, at `ip`: its marker is at least R0MIN, so the context does not matter. */
  method ReadMatchCode(v: Variant, inp: seq<byte>, ip: nat, ghost st: State) returns (off: nat, len: nat, ip': nat)
    requires st.ip == ip < |inp| && inp[ip] >= R0MIN && Step(v, inp, st).Some?
    ensures ip < ip' && Step(v, inp, st) == TakeMatch(inp, ip', off, len, 0, st)
  {
    hide TakeRun, TakeMatch;
    var t: int, hi: int := inp[ip], inp[ip + 1];
    off := 1 + t % 32 + 32 * hi;
    if t >= 7 * 32 {
      len := MIN_MATCH_LONG + inp[ip + 2];
      ip' := ip + 3;
    } else {
      len := 2 + t / 32;
      ip' := ip + 2;
    }
  }

  method ReadMatch(v: Variant, inp: seq<byte>, ip: nat, out: array<byte>, op: nat, ghost after: bool)
    returns (ip': nat, op': nat)
    requires ip < |inp| && inp[ip] >= R0MIN && op <= out.Length
    requires var next := Step(v, inp, State(ip, out[..op], after)); next.Some? && |next.value.out| <= out.Length
    modifies out
    ensures op <= op' <= out.Length && ip < ip' <= |inp|
    ensures Step(v, inp, State(ip, old(out[..op]), after)) == Some(State(ip', out[..op'], false))
  {
    hide Step, Copy;
    var off, len;
    off, len, ip' := ReadMatchCode(v, inp, ip, State(ip, out[..op], after));
    CopyMatch(out, op, off, len);
    op' := op + len;
    assert out[..op'] + inp[ip'..ip'] == out[..op'];
  }

  /** One R1 match: three bytes from the window and one literal. */
  method ReadR1(inp: seq<byte>, ip: nat, out: array<byte>, op: nat) returns (ip': nat, op': nat)
    requires ip < |inp| && inp[ip] < R0MIN && op <= out.Length
    requires var next := Step(Lzo1a, inp, State(ip, out[..op], true)); next.Some? && |next.value.out| <= out.Length
    modifies out
    ensures op <= op' <= out.Length && ip < ip' <= |inp|
    ensures Step(Lzo1a, inp, State(ip, old(out[..op]), true)) == Some(State(ip', out[..op'], true))
  {
    var t: int, hi: int := inp[ip], inp[ip + 1];
    CopyMatch(out, op, 1 + t + 32 * hi, MIN_MATCH);
    assert inp[ip + 2..ip + 3] == [inp[ip + 2]];
    CopyLiterals(out, op + MIN_MATCH, inp, ip + 2, 1);
    ip', op' := ip + 3, op + MIN_MATCH + 1;
  }

  /** lzo1_decompress. The block must be one the code can decode without leaving its buffers; the one check, at
      the end, then never fails. */
  method DecompressLzo1(inp: seq<byte>, out: array<byte>) returns (r: EndCode, op: nat)
    requires Decode(Lzo1, inp).Some? && |Decode(Lzo1, inp).value| <= out.Length
    modifies out
    ensures r == Ok && op <= out.Length && Decode(Lzo1, inp) == Some(out[..op])
  {
    hide Step;
    var ip := 0;
    op := 0;
    ghost var after := false;
    while ip < |inp|
      invariant ip <= |inp| && op <= out.Length
      invariant DecodeFrom(Lzo1, inp, State(ip, out[..op], after)) == Decode(Lzo1, inp)
    {
      ghost var st := State(ip, out[..op], after);
      assert Step(Lzo1, inp, st).Some?;
      if inp[ip] < R0MIN {
        LzoRunIgnoresContext(inp, st);
        ip, op := ReadRun(Lzo1, inp, ip, out, op);
        after := op - |st.out| < R0FAST;
      } else {
        ip, op := ReadMatch(Lzo1, inp, ip, out, op, after);
        after := false;
      }
    }
    r := AtEnd(ip, |inp|);
  }

  lemma LzoRunIgnoresContext(s: seq<byte>, st: State)
    requires st.ip < |s|
    ensures Step(Lzo1, s, st) == Step(Lzo1, s, st.(after := false))
  {
  }

  /** lzo1a_decompress: after a short literal run the inner loop takes R1 matches until a match follows. */
  method DecompressLzo1a(inp: seq<byte>, out: array<byte>) returns (r: EndCode, op: nat)
    requires Decode(Lzo1a, inp).Some? && |Decode(Lzo1a, inp).value| <= out.Length
    modifies out
    ensures r == Ok && op <= out.Length && Decode(Lzo1a, inp) == Some(out[..op])
  {
    hide Step;
    var ip := 0;
    op := 0;
    while ip < |inp|
      invariant ip <= |inp| && op <= out.Length
      invariant DecodeFrom(Lzo1a, inp, State(ip, out[..op], false)) == Decode(Lzo1a, inp)
    {
      ghost var after := false;
      if inp[ip] < R0MIN {
        var op0 := op;
        ip, op := ReadRun(Lzo1a, inp, ip, out, op);
        after := op - op0 < R0FAST;
        if op - op0 >= R0FAST {
          continue;
        }
        while ip < |inp| && inp[ip] < R0MIN
          invariant ip <= |inp| && op <= out.Length
          invariant DecodeFrom(Lzo1a, inp, State(ip, out[..op], true)) == Decode(Lzo1a, inp)
        {
          ip, op := ReadR1(inp, ip, out, op);
        }
      }
      if ip < |inp| {
        ip, op := ReadMatch(Lzo1a, inp, ip, out, op, after);
      }
    }
    r := AtEnd(ip, |inp|);
  }
}
