/** What the LZO1X decoder computes with its counter of 32 bits, against the format, whose lengths are unbounded.
    The counter and the room tests `t + 3`, `t + 4` and `t + 3 - 1` wrap around, so a length code of 2^32 and more
    is taken for a short one. That happens only in blocks that the format rejects, and only in blocks of more than
    16843009 bytes; but there it does happen, and a block the format rejects can come out with the success code. */
module Lzo1xMachine {
  import opened Bytes
  import opened Window
  import opened LengthCode
  import opened Lzo1xFormat
  import opened Lzo1xRoundTrip

  /** How many literals the copy loop moves: it tests its counter at the end, so zero counts as 2^32. */
  function Copied(t: nat): nat {
    if t == 0 then WORD + 3 else t + 3
  }

  /** A literal run whose counter is `t`. Both tests look at the wrapped sum; the loop does not wrap. */
  function MachineLiterals(e: Env, s: seq<byte>, ip: nat, t: nat, w: seq<byte>): (r: Outcome)
    ensures r.Next? ==> Grows(e, ip, w, s, r.st)
    ensures r.Fail? ==> |w| <= |r.w|
  {
    if NoRoom(e, w, Word(t + 3)) then Fail(OutputOverrun, w)
    else if |s| < ip + Word(t + 4) then Fail(InputOverrun, w)
    else if NoRoom(e, w, Copied(t)) || |s| < ip + Copied(t) + 1 then Fail(PastEnd, w)
    else Next(State(ip + Copied(t), w + s[ip..ip + Copied(t)], AfterRun))
  }

  function MachineFar(e: Env, s: seq<byte>, st: State, n: nat, max: nat, base: nat, isM4: bool): (r: Outcome)
    ensures r.Next? ==> st.ip < r.st.ip && Grows(e, st.ip, st.w, s, r.st)
    ensures r.Fail? ==> |st.w| <= |r.w|
  {
    match ReadLength(s, st.ip + 1, n, max)
    case None => Fail(InputOverrun, st.w)
    case Some(l) => TakeFar(e, s, l.ip, Word(l.value + 2), base, isM4, st.w)
  }

  /** A marker whose length may continue in a length code: an explicit run, an M3 or an M4 match. */
  predicate OpenMarker(s: seq<byte>, st: State) {
    && st.ip + (if st.ctx == AfterFew then 1 else 0) < |s|
    && s[st.ip] < 64
    && (st.ctx == Start ==> s[st.ip] <= 17)
    && (s[st.ip] < 16 ==> st.ctx == Start || st.ctx == AfterMatch)
  }

  /** One marker and everything that belongs to it. All other markers carry their whole length. */
  function MachineStep(e: Env, s: seq<byte>, st: State): (r: Outcome)
    ensures r.Next? ==> st.ip < r.st.ip && Grows(e, st.ip, st.w, s, r.st)
    ensures r.Fail? ==> |st.w| <= |r.w|
  {
    if !OpenMarker(s, st) then Step(e, s, st)
    else
      var t: int := s[st.ip];
      if t >= 32 then MachineFar(e, s, st, t % 32, 31, 0, false)
      else if t >= 16 then MachineFar(e, s, st, t % 8, 7, t / 8 % 2 * 0x4000, true)
      else
        match ReadLength(s, st.ip + 1, t, 15)
        case None => Fail(InputOverrun, st.w)
        case Some(l) => MachineLiterals(e, s, l.ip, Word(l.value), st.w)
  }

  function MachineFrom(e: Env, s: seq<byte>, st: State): Result
    decreases |s| - st.ip
  {
    match MachineStep(e, s, st)
    case Fail(error, w) => Failed(error, w)
    case End(ip) => Done(st.w, ip)
    case Next(next) => MachineFrom(e, s, next)
  }

  function MachineDecode(f: Flavour, dict: seq<byte>, cap: nat, s: seq<byte>): Result {
    MachineFrom(Env(f, |dict|, cap), s, State(0, dict, Start))
  }

  // ----- one piece of work: exactly when the counter tells the truth -----

  /** Output position, room and block length are C lengths. */
  ghost predicate InWords(e: Env, s: seq<byte>, w: seq<byte>) {
    e.d <= |w| <= e.d + e.cap && e.cap < WORD && |s| < WORD
  }

  /** A run of `v + 3` literals is taken for what it is if and only if `v + 4` fits the counter, or the wrapped
      sum happens to exceed the room as well. */
  lemma LiteralsExact(e: Env, s: seq<byte>, ip: nat, v: nat, w: seq<byte>)
    requires InWords(e, s, w) && ip <= |s| && 1 <= v
    ensures MachineLiterals(e, s, ip, Word(v), w) == TakeLiterals(e, s, ip, v + 3, w, AfterRun) <==>
            v + 4 < WORD || NoRoom(e, w, Word(v + 3))
  {
    WordAdd(v, 3);
    WordAdd(v, 4);
  }

  /** Where a wrapped length of zero copies nothing, the literals behind the match can still find no room. */
  ghost predicate TailBlocked(e: Env, s: seq<byte>, ip: nat, off: nat, len: nat, w: seq<byte>)
    requires 2 <= ip <= |s|
  {
    Word(len) == 0 && off <= |w| && 0 < s[ip - 2] % 4 && NoRoom(e, w, s[ip - 2] % 4)
  }

  /** A match of length `len` is copied with that length if and only if `len` fits the counter; otherwise only a
      lack of room for the wrapped length as well gives the same answer. */
  lemma MatchExact(e: Env, s: seq<byte>, ip: nat, off: nat, len: nat, w: seq<byte>)
    requires InWords(e, s, w) && 2 <= ip <= |s| && 1 <= off
    ensures TakeMatch(e, s, ip, off, Word(len), w) == TakeMatch(e, s, ip, off, len, w) <==>
            len < WORD || NoRoom(e, w, Word(len)) || TailBlocked(e, s, ip, off, len, w)
  {
    hide Word;
    var n := Word(len);
    assert len < WORD ==> n == len;
    if len >= WORD && off <= |w| {
      var c := Copy(w, off, n);
      assert n == 0 ==> c == w;
    }
  }

  /** The length an open marker announces. */
  function OpenLength(s: seq<byte>, st: State): Option<Length>
    requires OpenMarker(s, st)
  {
    var t: int := s[st.ip];
    if t >= 32 then ReadLength(s, st.ip + 1, t % 32, 31)
    else if t >= 16 then ReadLength(s, st.ip + 1, t % 8, 7)
    else ReadLength(s, st.ip + 1, t, 15)
  }

  /** The offset of an M3 or M4 match whose two offset bytes stand at `ip`; zero for the end code. */
  function FarOffset(s: seq<byte>, ip: nat, t: byte): nat
    requires ip + 2 <= |s|
  {
    var o: int := s[ip] / 4 + 64 * (s[ip + 1] as int);
    if t >= 32 then o + 1 else if o == 0 && t / 8 % 2 == 0 then 0 else t / 8 % 2 * 0x4000 + o + 0x4000
  }

  /** The condition at one marker. It looks at the announced length, the room, and the byte with the tail count. */
  ghost predicate Fits(e: Env, s: seq<byte>, st: State) {
    OpenMarker(s, st) && OpenLength(s, st).Some? ==>
      var l := OpenLength(s, st).value;
      if s[st.ip] < 16 then l.value + 4 < WORD || NoRoom(e, st.w, Word(l.value + 3))
      else
        || l.value + 2 < WORD || NoRoom(e, st.w, Word(l.value + 2))
        || |s| < l.ip + 2 || FarOffset(s, l.ip, s[st.ip]) == 0
        || TailBlocked(e, s, l.ip + 2, FarOffset(s, l.ip, s[st.ip]), l.value + 2, st.w)
  }

  /** One step of the C code is one step of the format if and only if the counter fits. */
  lemma StepExact(e: Env, s: seq<byte>, st: State)
    requires InWords(e, s, st.w)
    ensures MachineStep(e, s, st) == Step(e, s, st) <==> Fits(e, s, st)
  {
    hide TakeMatch, TakeLiterals, MachineLiterals, TailBlocked, ReadLength, Near, Word, NoRoom;
    if OpenMarker(s, st) && OpenLength(s, st).Some? {
      var l := OpenLength(s, st).value;
      var t := s[st.ip];
      if t < 16 {
        LengthMoves(s, st);
        LiteralsExact(e, s, l.ip, l.value, st.w);
      } else if |s| >= l.ip + 2 && FarOffset(s, l.ip, t) != 0 {
        MatchExact(e, s, l.ip + 2, FarOffset(s, l.ip, t), l.value + 2, st.w);
      }
    }
  }

  lemma LengthMoves(s: seq<byte>, st: State)
    requires OpenMarker(s, st) && OpenLength(s, st).Some?
    ensures var l := OpenLength(s, st).value; st.ip < l.ip <= |s| && 1 <= l.value
  {
  }

  /** What the condition comes to in the bytes of the block: 255 for every zero byte, a base that depends on the
      marker, and the byte behind the zeros. */
  lemma OpenLengthValue(s: seq<byte>, st: State)
    requires OpenMarker(s, st) && OpenLength(s, st).Some?
    ensures var l := OpenLength(s, st).value;
            var t: int := s[st.ip];
            var bits := if t >= 32 then t % 32 else if t >= 16 then t % 8 else t;
            var base := if t >= 32 then 31 else if t >= 16 then 7 else 15;
            if bits > 0 then l == Length(bits, st.ip + 1)
            else l.value == 255 * (l.ip - st.ip - 2) + base + s[l.ip - 1]
  {
    if ReadExt(s, st.ip + 1).Some? {
      ReadExtValue(s, st.ip + 1);
    }
  }

  // ----- whole blocks -----

  /** No shorter block holds a length code that wraps. */
  const SHORT: nat := 16_843_009

  lemma ShortFits(e: Env, s: seq<byte>, st: State)
    requires |s| <= SHORT
    ensures Fits(e, s, st)
  {
    if OpenMarker(s, st) && OpenLength(s, st).Some? {
      LengthMoves(s, st);
      OpenLengthValue(s, st);
      assert OpenLength(s, st).value.value <= 255 * (|s| - 2) + 286;
    }
  }

  /** A marker that the format can read has a length below 2^32: there is room for what it stands for. */
  lemma ReadableFits(e: Env, s: seq<byte>, st: State)
    requires InWords(e, s, st.w) && !Step(e, s, st).Fail?
    ensures Fits(e, s, st)
  {
    hide TailBlocked, Near, Word, Copy;
    if OpenMarker(s, st) && OpenLength(s, st).Some? {
      LengthMoves(s, st);
    }
  }

  lemma StepKeepsWords(e: Env, s: seq<byte>, st: State)
    requires InWords(e, s, st.w) && Step(e, s, st).Next?
    ensures InWords(e, s, Step(e, s, st).st.w)
  {
  }

  lemma {:induction false} FromAccepted(e: Env, s: seq<byte>, st: State)
    requires InWords(e, s, st.w) && DecodeFrom(e, s, st).Done?
    ensures MachineFrom(e, s, st) == DecodeFrom(e, s, st)
    decreases |s| - st.ip
  {
    hide Step, MachineStep, Fits, InWords;
    ReadableFits(e, s, st);
    StepExact(e, s, st);
    match Step(e, s, st)
    case Next(next) =>
      StepKeepsWords(e, s, st);
      FromAccepted(e, s, next);
    case _ =>
  }

  /** Every block that the format accepts is decoded correctly, however long it is. */
  lemma AcceptedAgrees(f: Flavour, dict: seq<byte>, cap: nat, s: seq<byte>)
    requires cap < WORD && |s| < WORD && Decode(f, dict, cap, s).Done?
    ensures MachineDecode(f, dict, cap, s) == Decode(f, dict, cap, s)
  {
    FromAccepted(Env(f, |dict|, cap), s, State(0, dict, Start));
  }

  lemma {:induction false} FromShort(e: Env, s: seq<byte>, st: State)
    requires InWords(e, s, st.w) && |s| <= SHORT
    ensures MachineFrom(e, s, st) == DecodeFrom(e, s, st)
    decreases |s| - st.ip
  {
    hide Step, MachineStep, Fits, InWords;
    ShortFits(e, s, st);
    StepExact(e, s, st);
    match Step(e, s, st)
    case Next(next) =>
      StepKeepsWords(e, s, st);
      FromShort(e, s, next);
    case _ =>
  }

  /** Every block of up to 16843009 bytes, damaged or not, gives the format's result and error code. */
  lemma ShortAgrees(f: Flavour, dict: seq<byte>, cap: nat, s: seq<byte>)
    requires cap < WORD && |s| <= SHORT
    ensures MachineDecode(f, dict, cap, s) == Decode(f, dict, cap, s)
  {
    FromShort(Env(f, |dict|, cap), s, State(0, dict, Start));
  }

  /** One byte more is too many: a lone marker with its length code is answered with the wrong error code. */
  lemma ShortIsTight(f: Flavour, dict: seq<byte>)
    ensures var s := RunHeader(WORD + 17, true);
            && |s| == SHORT + 1
            && MachineDecode(f, dict, 17, s) == Failed(InputOverrun, dict)
            && Decode(f, dict, 17, s) == Failed(OutputOverrun, dict)
  {
    hide Ext;
    var s := RunHeader(WORD + 17, true);
    LaterHeader(s, 0, WORD + 17, true);
  }

  /** A run of 2^32 + n literals is read as one of n. */
  lemma WrappedRun(e: Env, s: seq<byte>, st: State, n: nat)
    requires 4 <= n < WORD && st.ctx == Start && At(s, st.ip, RunHeader(WORD + n, true))
    ensures var ip := st.ip + |RunHeader(WORD + n, true)|;
            && MachineStep(e, s, st) == MachineLiterals(e, s, ip, n - 3, st.w)
            && Step(e, s, st) == TakeLiterals(e, s, ip, WORD + n, st.w, AfterRun)
  {
    hide RunHeader, MachineLiterals, TakeLiterals, Near, Far;
    LaterHeader(s, st.ip, WORD + n, true);
    assert Word(WORD + n - 3) == n - 3;
  }

  lemma MachineReadsLiterals(e: Env, s: seq<byte>, ip: nat, lit: seq<byte>, w: seq<byte>)
    requires At(s, ip, lit) && ip + |lit| < |s| && 4 <= |lit| < WORD && !NoRoom(e, w, |lit|)
    ensures MachineLiterals(e, s, ip, |lit| - 3, w) == Next(State(ip + |lit|, w + lit, AfterRun))
  {
  }

  /** The failing family: the marker of a run of 2^32 + n literals, n literals and the end code come out as the n
      literals with the success code. The format has no room for the run. */
  lemma WrappedRunAccepted(f: Flavour, dict: seq<byte>, cap: nat, lit: seq<byte>)
    requires 4 <= |lit| <= cap < WORD
    ensures var s := RunHeader(WORD + |lit|, true) + lit + EOF_CODE;
            && MachineDecode(f, dict, cap, s) == Done(dict + lit, |s|)
            && Decode(f, dict, cap, s) == Failed(OutputOverrun, dict)
  {
    hide RunHeader, Step, MachineStep, MachineLiterals;
    var e := Env(f, |dict|, cap);
    var head := RunHeader(WORD + |lit|, true);
    var s, st := head + lit + EOF_CODE, State(0, dict, Start);
    AtMiddle([], head, lit + EOF_CODE);
    assert [] + head + (lit + EOF_CODE) == s;
    AtMiddle(head, lit, EOF_CODE);
    WrappedRun(e, s, st, |lit|);
    MachineReadsLiterals(e, s, |head|, lit, dict);
    var next := State(|head| + |lit|, dict + lit, AfterRun);
    assert MachineStep(e, s, st) == Next(next);
    EndIsRead(e, head + lit, next);
    assert MachineFrom(e, s, next) == Done(dict + lit, |s|);
  }

  lemma EndIsRead(e: Env, pre: seq<byte>, st: State)
    requires st.ip == |pre| && st.ctx == AfterRun
    ensures MachineStep(e, pre + EOF_CODE, st) == End(|pre| + 3)
  {
    hide Near;
    StepReadsEnd(e, pre, st);
  }

  // ----- exactly which blocks -----

  /** Where the format's reading of the block stops. */
  function Last(e: Env, s: seq<byte>, st: State): (r: State)
    ensures !Step(e, s, r).Next?
    decreases |s| - st.ip
  {
    match Step(e, s, st)
    case Next(next) => Last(e, s, next)
    case _ => st
  }

  /** The C code copies nothing for a match of 2^32 bytes and no tail, and goes on. */
  ghost predicate Idles(e: Env, s: seq<byte>, st: State) {
    var m := MachineStep(e, s, st);
    m.Next? && m.st.w == st.w
  }

  lemma {:induction false} MachineAppends(e: Env, s: seq<byte>, st: State)
    ensures |st.w| <= |MachineFrom(e, s, st).w|
    decreases |s| - st.ip
  {
    hide MachineStep;
    match MachineStep(e, s, st)
    case Next(next) => MachineAppends(e, s, next);
    case _ =>
  }

  /** Where the counter does not fit, the format stops without output. */
  lemma UnfitStops(e: Env, s: seq<byte>, st: State)
    requires InWords(e, s, st.w) && !Fits(e, s, st)
    ensures Step(e, s, st) == Fail(OutputOverrun, st.w) || Step(e, s, st) == Fail(InputOverrun, st.w)
    ensures Idles(e, s, st) ==> Step(e, s, st) == Fail(OutputOverrun, st.w)
  {
    hide TailBlocked, Near, Word, Copy;
    LengthMoves(s, st);
  }

  lemma {:induction false} FromExact(e: Env, s: seq<byte>, st: State)
    requires InWords(e, s, st.w)
    ensures var last := Last(e, s, st);
            MachineFrom(e, s, st) == DecodeFrom(e, s, st) <==>
              Fits(e, s, last) ||
              (Idles(e, s, last) && MachineFrom(e, s, MachineStep(e, s, last).st) == Failed(OutputOverrun, last.w))
    decreases |s| - st.ip
  {
    hide Step, MachineStep, Fits, InWords;
    StepExact(e, s, st);
    if Step(e, s, st).Next? {
      ReadableFits(e, s, st);
      StepKeepsWords(e, s, st);
      FromExact(e, s, Step(e, s, st).st);
    } else if !Fits(e, s, st) {
      UnfitStops(e, s, st);
      if MachineStep(e, s, st).Next? {
        MachineAppends(e, s, MachineStep(e, s, st).st);
      }
    }
  }

  /** For every block: the result is the format's if and only if the counter fits at the marker where the format's
      reading stops, or an idle match there is followed by the same lack of room. */
  lemma DecodeExact(f: Flavour, dict: seq<byte>, cap: nat, s: seq<byte>)
    requires cap < WORD && |s| < WORD
    ensures var e := Env(f, |dict|, cap);
            var last := Last(e, s, State(0, dict, Start));
            MachineDecode(f, dict, cap, s) == Decode(f, dict, cap, s) <==>
              Fits(e, s, last) ||
              (Idles(e, s, last) && MachineFrom(e, s, MachineStep(e, s, last).st) == Failed(OutputOverrun, last.w))
  {
    FromExact(Env(f, |dict|, cap), s, State(0, dict, Start));
  }
}
