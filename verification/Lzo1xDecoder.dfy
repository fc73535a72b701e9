/** lzo1x_decompress_dict_safe and lzo1y_decompress_dict_safe (lzo1x_d3.c, lzo1x_d.ch): decoding with a preset
    dictionary and every overrun test, in 32-bit counters, proved to compute Lzo1xMachine.MachineDecode, error codes
    included. That module says when this is the format's own result. */
module Lzo1xDecoder {
  import opened Bytes
  import opened Window
  import opened LengthCode
  import opened Lzo1xFormat
  import opened Lzo1xMachine

  // ----- COPY_DICT -----

  /** FAST_MEMCPY within the output: source and destination do not overlap. */
  method BlockCopy(out: array<byte>, op: nat, off: nat, len: nat)
    requires len <= off <= op && op + len <= out.Length
    modifies out
    ensures out[..op + len] == old(out[..op] + out[op - off..op - off + len])
  {
    CopyLiterals(out, op, out[..op], op - off, len);
  }

  lemma FromOutput(dict: seq<byte>, o: seq<byte>, off: nat, n: nat)
    requires 1 <= off <= |o| && n <= off
    ensures dict + (o + o[|o| - off..|o| - off + n]) == Copy(dict + o, off, n)
  {
    hide Copy;
    var w, i := dict + o, |o| - off;
    CopyDisjoint(w, off, n);
    assert w[|w| - off..|w| - off + n] == o[i..i + n];
    assert dict + (o + o[i..i + n]) == w + o[i..i + n];
  }

  /** COPY_DICT: a match whose source may start in the dictionary and run over into the output. Whatever the
      split into block copies and byte loops, the result is the overlapping copy from the window that the
      dictionary and the output form together. */
  method CopyDict(dict: seq<byte>, out: array<byte>, op: nat, off: nat, len: nat)
    requires 1 <= off <= |dict| + op && op + len <= out.Length
    modifies out
    ensures dict + out[..op + len] == Copy(dict + old(out[..op]), off, len)
  {
    hide Copy;
    if off > op {
      CopyDictDict(dict, out, op, off, len);
    } else if off >= len {
      ghost var o := out[..op];
      FromOutput(dict, o, off, len);
      assert o[op - off..op - off + len] == out[op - off..op - off + len];
      BlockCopy(out, op, off, len);
    } else {
      ByteCopy(dict, out, op, op - off, off, len);
    }
  }

  /** COPY_DICT_DICT: the source starts `off - op` bytes before the end of the dictionary. */
  method CopyDictDict(dict: seq<byte>, out: array<byte>, op: nat, off: nat, len: nat)
    requires op < off <= |dict| + op && op + len <= out.Length
    modifies out
    ensures dict + out[..op + len] == Copy(dict + old(out[..op]), off, len)
  {
    hide Copy;
    ghost var o := out[..op];
    var back := off - op;
    var fromDict := if len > back then back else len;
    FromDictionary(dict, o, off, fromDict);
    CopyLiterals(out, op, dict, |dict| - back, fromDict);
    if len > back {
      CopySplit(dict + o, off, back, len - back);
      ByteCopy(dict, out, op + back, 0, off, len - back);
    }
  }

  lemma FromDictionary(dict: seq<byte>, o: seq<byte>, off: nat, n: nat)
    requires |o| < off <= |dict| + |o| && n <= off - |o|
    ensures dict + (o + dict[|dict| + |o| - off..|dict| + |o| - off + n]) == Copy(dict + o, off, n)
  {
    hide Copy;
    var w, i := dict + o, |dict| + |o| - off;
    CopyDisjoint(w, off, n);
    SliceOfPrefix(dict, o, i, n);
    AppendAgain(dict, o, dict[i..i + n]);
  }

  lemma SliceOfPrefix(a: seq<byte>, b: seq<byte>, i: nat, n: nat)
    requires i + n <= |a|
    ensures (a + b)[i..i + n] == a[i..i + n]
  {
  }

  lemma AppendAgain(a: seq<byte>, b: seq<byte>, c: seq<byte>)
    ensures a + (b + c) == a + b + c
  {
  }

  /** SLOW_MEMCPY from output position `from`, which lies `off` bytes before `op` in the window. */
  method ByteCopy(dict: seq<byte>, out: array<byte>, op: nat, from: nat, off: nat, len: nat)
    requires from + off == op && 1 <= off && op + len <= out.Length
    modifies out
    ensures dict + out[..op + len] == Copy(dict + old(out[..op]), off, len)
  {
    var i := 0;
    while i < len
      invariant i <= len
      invariant dict + out[..op + i] == Copy(dict + old(out[..op]), off, i)
    {
      ghost var p := dict + out[..op + i];
      assert p[|p| - off] == out[from + i];
      out[op + i] := out[from + i];
      assert dict + out[..op + i + 1] == p + [out[op + i]];
      i := i + 1;
    }
  }

  // ----- the decoding loop -----

  datatype Status = Going | Ended | Stopped(error: Error)

  /** The loop's position after one piece of work, against what the specification says of that piece. */
  ghost predicate Did(r: Outcome, status: Status, ip: nat, w: seq<byte>, ctx: Context) {
    match status
    case Going => r == Next(State(ip, w, ctx))
    case Ended => r == End(ip)
    case Stopped(error) => r == Fail(error, w)
  }

  /** NEED_OP, NEED_IP and the literal loop. */
  method ReadLiterals(e: Env, inp: seq<byte>, ip: nat, n: nat, dict: seq<byte>, out: array<byte>, op: nat, ctx: Context)
    returns (status: Status, ip': nat, op': nat)
    requires e.d == |dict| && op <= e.cap <= out.Length && ip <= |inp|
    modifies out
    ensures op' <= e.cap && status != Ended
    ensures Did(TakeLiterals(e, inp, ip, n, dict + old(out[..op]), ctx), status, ip', dict + out[..op'], ctx)
  {
    if e.cap - op < n {
      return Stopped(OutputOverrun), ip, op;
    }
    if |inp| - ip < n + 1 {
      return Stopped(InputOverrun), ip, op;
    }
    CopyLiterals(out, op, inp, ip, n);
    assert dict + out[..op + n] == dict + old(out[..op]) + inp[ip..ip + n];
    return Going, ip + n, op + n;
  }

  /** Copy a match whose code ends at `ip`, then the literals counted in its second to last byte. */
  method ReadMatch(e: Env, inp: seq<byte>, ip: nat, off: nat, len: nat, dict: seq<byte>, out: array<byte>, op: nat)
    returns (status: Status, ip': nat, op': nat, ctx: Context)
    requires e.d == |dict| && op <= e.cap <= out.Length && 2 <= ip <= |inp| && 1 <= off
    modifies out
    ensures op' <= e.cap && status != Ended
    ensures Did(TakeMatch(e, inp, ip, off, len, dict + old(out[..op])), status, ip', dict + out[..op'], ctx)
  {
    hide TakeLiterals;
    ctx := AfterMatch;
    if e.cap - op < len {
      return Stopped(OutputOverrun), ip, op, ctx;
    }
    if off > op && off - op > |dict| {
      return Stopped(LookbehindOverrun), ip, op, ctx;
    }
    CopyDict(dict, out, op, off, len);
    op' := op + len;
    var k := inp[ip - 2] % 4;
    if k == 0 {
      return Going, ip, op', ctx;
    }
    ctx := AfterFew;
    status, ip', op' := ReadLiterals(e, inp, ip, k, dict, out, op', ctx);
  }

  /** The literals of an explicit run, whose counter is `t`. Going on with a wrapped sum would lead the copy loop
      out of the buffers. */
  method ReadRun(e: Env, inp: seq<byte>, ip: nat, t: nat, dict: seq<byte>, out: array<byte>, op: nat)
    returns (status: Status, ip': nat, op': nat)
    requires e.d == |dict| && op <= e.cap <= out.Length && ip <= |inp|
    requires var w := dict + out[..op]; MachineLiterals(e, inp, ip, t, w) != Fail(PastEnd, w)
    modifies out
    ensures op' <= e.cap && status != Ended
    ensures Did(MachineLiterals(e, inp, ip, t, dict + old(out[..op])), status, ip', dict + out[..op'], AfterRun)
  {
    if e.cap - op < Word(t + 3) {
      return Stopped(OutputOverrun), ip, op;
    }
    if |inp| - ip < Word(t + 4) {
      return Stopped(InputOverrun), ip, op;
    }
    var n := Copied(t);
    CopyLiterals(out, op, inp, ip, n);
    assert dict + out[..op + n] == dict + old(out[..op]) + inp[ip..ip + n];
    return Going, ip + n, op + n;
  }

  /** A length of zero in the marker continues in a length code, every byte of it guarded by NEED_IP(1) and added
      modulo 2^32. */
  method ReadLengthChecked(inp: seq<byte>, ip: nat, n: nat, max: nat) returns (ok: bool, value: nat, ip': nat)
    requires ip <= |inp| && n < WORD
    ensures ok == ReadLength(inp, ip, n, max).Some?
    ensures ok ==> var l := ReadLength(inp, ip, n, max).value; value == Word(l.value) && ip' == l.ip <= |inp|
  {
    if n > 0 {
      return true, n, ip;
    }
    value, ip' := 0, ip;
    ghost var counted: nat := 0;
    while ip' < |inp| && inp[ip'] == 0
      invariant ip <= ip' <= |inp| && value == Word(counted)
      invariant var l := ReadExt(inp, ip');
                ReadExt(inp, ip) == if l.None? then None else Some(Length(counted + l.value.value, l.value.ip))
    {
      WordAdd(counted, 255);
      value, ip', counted := Word(value + 255), ip' + 1, counted + 255;
    }
    if ip' == |inp| {
      return false, 0, ip';
    }
    WordAdd(counted, max + inp[ip']);
    return true, Word(value + max + inp[ip']), ip' + 1;
  }

  /** The block must not make the C code read behind its end; every other fault has an error code. */
  method ReadNear(e: Env, inp: seq<byte>, ghost st: State, ip: nat, ctx0: Context,
                  dict: seq<byte>, out: array<byte>, op: nat)
    returns (status: Status, ip': nat, op': nat, ctx: Context)
    requires e.d == |dict| && op <= e.cap <= out.Length && st == State(ip, dict + out[..op], ctx0) && ip < |inp|
    requires Near(e, inp, st) != Fail(PastEnd, st.w)
    requires inp[ip] < 16 || 64 <= inp[ip]
    modifies out
    ensures op' <= e.cap && status != Ended
    ensures Did(Near(e, inp, st), status, ip', dict + out[..op'], ctx)
  {
    hide TakeMatch;
    var t: int, b: int := inp[ip], inp[ip + 1];
    var off, len;
    if t >= 64 {
      if e.f == X {
        off, len := 1 + t / 4 % 8 + 8 * b, t / 32 + 1;
      } else {
        off, len := 1 + t / 4 % 4 + 4 * b, t / 16 - 1;
      }
    } else if ctx0 == AfterRun {
      off, len := 1 + M2MaxOffset(e.f) + t / 4 + 4 * b, 3;
    } else {
      off, len := 1 + t / 4 + 4 * b, 2;
    }
    status, ip', op', ctx := ReadMatch(e, inp, ip + 2, off, len, dict, out, op);
  }

  method ReadFar(e: Env, inp: seq<byte>, ghost st: State, ip: nat, ctx0: Context,
                 dict: seq<byte>, out: array<byte>, op: nat, n: nat, max: nat, base: nat, isM4: bool)
    returns (status: Status, ip': nat, op': nat, ctx: Context)
    requires e.d == |dict| && op <= e.cap <= out.Length && st == State(ip, dict + out[..op], ctx0) && ip < |inp|
    requires n < WORD && MachineFar(e, inp, st, n, max, base, isM4) != Fail(PastEnd, st.w)
    modifies out
    ensures op' <= e.cap && (status == Ended ==> out[..op'] == old(out[..op]))
    ensures Did(MachineFar(e, inp, st, n, max, base, isM4), status, ip', dict + out[..op'], ctx)
  {
    hide TakeMatch, ReadLength, Word;
    ctx := AfterMatch;
    var ok, t, p := ReadLengthChecked(inp, ip + 1, n, max);
    if !ok {
      return Stopped(InputOverrun), ip, op, ctx;
    }
    var lo: int, hi: int := inp[p], inp[p + 1];
    var o := base + lo / 4 + 64 * hi;
    if isM4 && o == 0 {
      return Ended, p + 2, op, ctx;
    }
    WordAdd(ReadLength(inp, ip + 1, n, max).value.value, 2);
    status, ip', op', ctx := ReadMatch(e, inp, p + 2, if isM4 then o + 0x4000 else o + 1, Word(t + 2), dict, out, op);
  }

  /** One pass through the labels of the C loop: the context is where the C code stands (outer loop,
      first_literal_run, or the match loop after one to three literals). */
  method ReadMarker(e: Env, inp: seq<byte>, ghost st: State, ip: nat, ctx0: Context,
                    dict: seq<byte>, out: array<byte>, op: nat)
    returns (status: Status, ip': nat, op': nat, ctx: Context)
    requires e.d == |dict| && op <= e.cap <= out.Length && st == State(ip, dict + out[..op], ctx0) && ip <= |inp|
    requires MachineStep(e, inp, st) != Fail(PastEnd, st.w)
    modifies out
    ensures op' <= e.cap && (status == Ended ==> out[..op'] == old(out[..op]))
    ensures Did(MachineStep(e, inp, st), status, ip', dict + out[..op'], ctx)
  {
    hide TakeLiterals, MachineLiterals, Near, Far, MachineFar, ReadLength;
    ctx := ctx0;
    if (if ctx0 == AfterFew then ip + 1 else ip) >= |inp| {
      return Stopped(EofNotFound), ip, op, ctx;
    }
    var t: int := inp[ip];
    if ctx0 == Start && t > 17 {
      ctx := if t - 17 < 4 then AfterFew else AfterRun;
      status, ip', op' := ReadLiterals(e, inp, ip + 1, t - 17, dict, out, op, ctx);
    } else if t >= 64 || (t < 16 && (ctx0 == AfterFew || ctx0 == AfterRun)) {
      status, ip', op', ctx := ReadNear(e, inp, st, ip, ctx0, dict, out, op);
    } else if t >= 32 {
      status, ip', op', ctx := ReadFar(e, inp, st, ip, ctx0, dict, out, op, t % 32, 31, 0, false);
    } else if t >= 16 {
      status, ip', op', ctx := ReadFar(e, inp, st, ip, ctx0, dict, out, op, t % 8, 7, t / 8 % 2 * 0x4000, true);
    } else {
      var ok, n, p := ReadLengthChecked(inp, ip + 1, t, 15);
      if !ok {
        return Stopped(InputOverrun), ip, op, ctx;
      }
      ctx := AfterRun;
      status, ip', op' := ReadRun(e, inp, p, n, dict, out, op);
    }
  }

  /** The dictionary as both sides use it: at most its last 0xbfff bytes. */
  function Trim(dict: seq<byte>): (r: seq<byte>)
    ensures |r| <= M4_MAX_OFFSET && (|dict| <= M4_MAX_OFFSET ==> r == dict)
  {
    if |dict| > M4_MAX_OFFSET then dict[|dict| - M4_MAX_OFFSET..] else dict
  }

  datatype ReturnCode = Ok | InputNotConsumed | Error(error: Error)

  function CodeOf(r: Result, len: nat): ReturnCode {
    match r
    case Done(_, ip) => if ip == len then Ok else InputNotConsumed
    case Failed(error, _) => Error(error)
  }

  /** The return code and the bytes in the output buffer are exactly what MachineDecode says, for every block,
      damaged or not, that does not lead the C code out of its buffers. Both lengths are C lengths. */
  method Decompress(f: Flavour, inp: seq<byte>, out: array<byte>, dict0: seq<byte>) returns (r: ReturnCode, op: nat)
    requires |inp| < WORD && out.Length < WORD
    requires var d := MachineDecode(f, Trim(dict0), out.Length, inp); d.Failed? ==> d.error != PastEnd
    modifies out
    ensures op <= out.Length
    ensures MachineDecode(f, Trim(dict0), out.Length, inp).w == Trim(dict0) + out[..op]
    ensures r == CodeOf(MachineDecode(f, Trim(dict0), out.Length, inp), |inp|)
  {
    hide MachineStep, Trim;
    var dict := Trim(dict0);
    var e := Env(f, |dict|, out.Length);
    var ip, ctx := 0, Start;
    op := 0;
    ghost var goal := MachineDecode(f, dict, out.Length, inp);
    assert dict + out[..0] == dict;
    while true
      invariant op <= out.Length && ip <= |inp|
      invariant MachineFrom(e, inp, State(ip, dict + out[..op], ctx)) == goal
      decreases |inp| - ip
    {
      ghost var st := State(ip, dict + out[..op], ctx);
      var status;
      status, ip, op, ctx := ReadMarker(e, inp, st, ip, ctx, dict, out, op);
      match status {
        case Going =>
        case Ended =>
          r := if ip == |inp| then Ok else InputNotConsumed;
          return;
        case Stopped(error) =>
          r := Error(error);
          return;
      }
    }
  }
}
