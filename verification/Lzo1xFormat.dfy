/** The LZO1X and LZO1Y block formats (lzo1x_9x.c, lzo1x_d.ch, config1x.h, config1y.h), with a preset
    dictionary in front of the output. The same marker byte below 16 means a literal run, a two-byte match or
    a three-byte match, depending on how many literals came last. */
module Lzo1xFormat {
  import opened Bytes
  import opened Window
  import opened Tokens
  import opened LengthCode

  datatype Flavour = X | Y

  const M1_MAX_OFFSET: nat := 0x400
  const M3_MAX_OFFSET: nat := 0x4000
  const M4_MAX_OFFSET: nat := 0xbfff
  const M3_MAX_LEN: nat := 33
  const M4_MAX_LEN: nat := 9
  const M3_MARKER: nat := 32
  const M4_MARKER: nat := 16

  function M2MaxOffset(f: Flavour): nat {
    if f == X then 0x800 else 0x400
  }

  function M2MaxLen(f: Flavour): nat {
    if f == X then 8 else 14
  }

  function MxMaxOffset(f: Flavour): nat {
    M1_MAX_OFFSET + M2MaxOffset(f)
  }

  /** What came last: nothing, a match without literals, one to three literals, or four and more. */
  datatype Context = Start | AfterMatch | AfterFew | AfterRun

  function After(t: Token): Context {
    match t
    case Run(lit) => if |lit| < 4 then AfterFew else AfterRun
    case Match(_, _, tail) => if tail == [] then AfterMatch else AfterFew
  }

  function ContextOf(ts: seq<Token>): Context {
    if ts == [] then Start else After(ts[|ts| - 1])
  }

  /** The context as the encoder knows it: the number of literals before the match (c->r1_lit). */
  function LitContext(lit: nat): Context {
    if lit == 0 then AfterMatch else if lit < 4 then AfterFew else AfterRun
  }

  /** A match the format can express in this context. */
  predicate Codable(off: nat, len: nat, ctx: Context) {
    && ctx != Start
    && 1 <= off <= M4_MAX_OFFSET
    && (3 <= len || (len == 2 && ctx == AfterFew && off <= M1_MAX_OFFSET))
  }

  predicate Legal(t: Token, ctx: Context, w: seq<byte>) {
    match t
    case Run(lit) => (ctx == Start && 1 <= |lit|) || (ctx == AfterMatch && 4 <= |lit|)
    case Match(off, len, tail) => Codable(off, len, ctx) && off <= |w| && |tail| <= 3
  }

  predicate LegalAll(dict: seq<byte>, ts: seq<Token>) {
    ts == [] ||
    (LegalAll(dict, ts[..|ts| - 1]) &&
     Legal(ts[|ts| - 1], ContextOf(ts[..|ts| - 1]), Expand(dict, ts[..|ts| - 1])))
  }

  // ----- writing -----

  function RunHeader(n: nat, first: bool): seq<byte> {
    if first && n <= 238 then [LowByte(17 + n)]
    else if n <= 18 then [LowByte(n - 3)]
    else [0] + Ext(n - 18)
  }

  datatype Form = M1 | M2 | MX | M3 | M4

  function FormOf(f: Flavour, off: nat, len: nat, ctx: Context): Form {
    if len == 2 then M1
    else if len <= M2MaxLen(f) && off <= M2MaxOffset(f) then M2
    else if len == 3 && off <= MxMaxOffset(f) && ctx == AfterRun then MX
    else if off <= M3_MAX_OFFSET then M3
    else M4
  }

  /** What comes before the last two bytes of a match: only the two long forms need it. */
  function Head(form: Form, off: nat, len: nat): seq<byte> {
    match form
    case M3 =>
      if len <= M3_MAX_LEN then [LowByte(M3_MARKER + (len - 2))]
      else [LowByte(M3_MARKER)] + Ext(len - M3_MAX_LEN)
    case M4 =>
      var k := if off >= 0x8000 then 8 else 0;
      if len <= M4_MAX_LEN then [LowByte(M4_MARKER + k + (len - 2))]
      else [LowByte(M4_MARKER + k)] + Ext(len - M4_MAX_LEN)
    case _ => []
  }

  /** The second to last byte, whose two low bits are free for a literal count, ... */
  function Low(f: Flavour, form: Form, off: nat, len: nat): byte {
    match form
    case M1 => LowByte((off - 1) % 4 * 4)
    case M2 =>
      if f == X then LowByte((len - 1) * 32 + (off - 1) % 8 * 4)
      else LowByte((len + 1) * 16 + (off - 1) % 4 * 4)
    case MX => LowByte((off - 1 - M2MaxOffset(f)) % 4 * 4)
    case M3 => LowByte((off - 1) * 4)
    case M4 => LowByte((off - 0x4000) * 4)
  }

  /** ... and the last. */
  function High(f: Flavour, form: Form, off: nat): byte {
    match form
    case M1 => LowByte((off - 1) / 4)
    case M2 => if f == X then LowByte((off - 1) / 8) else LowByte((off - 1) / 4)
    case MX => LowByte((off - 1 - M2MaxOffset(f)) / 4)
    case M3 => LowByte((off - 1) / 64)
    case M4 => LowByte((off - 0x4000) / 64)
  }

  function Code(f: Flavour, t: Token, ctx: Context): seq<byte> {
    match t
    case Run(lit) => RunHeader(|lit|, ctx == Start) + lit
    case Match(off, len, tail) =>
      var form := FormOf(f, off, len, ctx);
      Head(form, off, len) + [LowByte(Low(f, form, off, len) + |tail|), High(f, form, off)] + tail
  }

  function Encode(f: Flavour, ts: seq<Token>): seq<byte> {
    if ts == [] then []
    else Encode(f, ts[..|ts| - 1]) + Code(f, ts[|ts| - 1], ContextOf(ts[..|ts| - 1]))
  }

  const EOF_CODE: seq<byte> := [17, 0, 0]

  // ----- reading -----

  datatype Error = InputOverrun | OutputOverrun | LookbehindOverrun | EofNotFound
                 | PastEnd   // not an error code: here the C code reads or writes outside a buffer

  /** `d` is the length of the dictionary, `cap` the room for output. */
  datatype Env = Env(f: Flavour, d: nat, cap: nat)

  /** `w` is the dictionary and, behind it, the output so far. */
  datatype State = State(ip: nat, w: seq<byte>, ctx: Context)

  datatype Outcome =
    | Next(st: State)
    | End(ip: nat)
    | Fail(error: Error, w: seq<byte>)

  predicate NoRoom(e: Env, w: seq<byte>, n: nat) {
    |w| + n > e.d + e.cap
  }

  /** Decoding moves forward in the block, only appends to the window, and stays within the room. */
  ghost predicate Grows(e: Env, ip: nat, w: seq<byte>, s: seq<byte>, st: State) {
    ip <= st.ip <= |s| && |w| <= |st.w| <= e.d + e.cap && st.w[..|w|] == w
  }

  /** A run of `n` literals: there must be room for them, and in the block one byte more than the literals. */
  function TakeLiterals(e: Env, s: seq<byte>, ip: nat, n: nat, w: seq<byte>, ctx: Context): (r: Outcome)
    ensures r.Next? ==> Grows(e, ip, w, s, r.st)
    ensures r.Fail? ==> |w| <= |r.w|
  {
    if NoRoom(e, w, n) then Fail(OutputOverrun, w)
    else if |s| < ip + n + 1 then Fail(InputOverrun, w)
    else Next(State(ip + n, w + s[ip..ip + n], ctx))
  }

  /** A match whose code ends at `ip`, then the literals counted in the two low bits of the byte at ip - 2. */
  function TakeMatch(e: Env, s: seq<byte>, ip: nat, off: nat, len: nat, w: seq<byte>): (r: Outcome)
    requires 2 <= ip <= |s| && 1 <= off
    ensures r.Next? ==> Grows(e, ip, w, s, r.st)
    ensures r.Fail? ==> |w| <= |r.w|
  {
    if NoRoom(e, w, len) then Fail(OutputOverrun, w)
    else if off > |w| then Fail(LookbehindOverrun, w)
    else
      var k: int := s[ip - 2] % 4;
      if k == 0 then Next(State(ip, Copy(w, off, len), AfterMatch))
      else TakeLiterals(e, s, ip, k, Copy(w, off, len), AfterFew)
  }

  /** The two offset bytes of the long forms. */
  function TakeFar(e: Env, s: seq<byte>, ip: nat, len: nat, base: nat, isM4: bool, w: seq<byte>): (r: Outcome)
    ensures r.Next? ==> Grows(e, ip, w, s, r.st)
    ensures r.Fail? ==> |w| <= |r.w|
  {
    if |s| < ip + 2 then Fail(PastEnd, w)
    else
      var o: int := base + s[ip] / 4 + 64 * (s[ip + 1] as int);
      if isM4 && o == 0 then End(ip + 2)
      else TakeMatch(e, s, ip + 2, if isM4 then o + 0x4000 else o + 1, len, w)
  }

  /** A length in the low bits of the marker, or zero there and the rest in a length code. */
  function ReadLength(s: seq<byte>, ip: nat, n: nat, max: nat): (r: Option<Length>)
    ensures r.Some? ==> ip <= r.value.ip
  {
    if n > 0 then Some(Length(n, ip))
    else match ReadExt(s, ip)
      case None => None
      case Some(l) => Some(Length(max + l.value, l.ip))
  }

  function Near(e: Env, s: seq<byte>, st: State): (r: Outcome)
    requires st.ip < |s|
    ensures r.Next? ==> st.ip < r.st.ip && Grows(e, st.ip, st.w, s, r.st)
    ensures r.Fail? ==> |st.w| <= |r.w|
  {
    var t: int := s[st.ip];
    if |s| < st.ip + 2 then Fail(PastEnd, st.w)
    else
      var b: int := s[st.ip + 1];
      if t >= 64 then
        if e.f == X then TakeMatch(e, s, st.ip + 2, 1 + t / 4 % 8 + 8 * b, t / 32 + 1, st.w)
        else TakeMatch(e, s, st.ip + 2, 1 + t / 4 % 4 + 4 * b, t / 16 - 1, st.w)
      else if st.ctx == AfterRun then TakeMatch(e, s, st.ip + 2, 1 + M2MaxOffset(e.f) + t / 4 + 4 * b, 3, st.w)
      else TakeMatch(e, s, st.ip + 2, 1 + t / 4 + 4 * b, 2, st.w)
  }

  function Far(e: Env, s: seq<byte>, st: State, n: nat, max: nat, base: nat, isM4: bool): (r: Outcome)
    ensures r.Next? ==> st.ip < r.st.ip && Grows(e, st.ip, st.w, s, r.st)
    ensures r.Fail? ==> |st.w| <= |r.w|
  {
    match ReadLength(s, st.ip + 1, n, max)
    case None => Fail(InputOverrun, st.w)
    case Some(l) => TakeFar(e, s, l.ip, l.value + 2, base, isM4, st.w)
  }

  /** One marker and everything that belongs to it. */
  function Step(e: Env, s: seq<byte>, st: State): (r: Outcome)
    ensures r.Next? ==> st.ip < r.st.ip && Grows(e, st.ip, st.w, s, r.st)
    ensures r.Fail? ==> |st.w| <= |r.w|
  {
    if |s| <= st.ip + (if st.ctx == AfterFew then 1 else 0) then
      if st.ctx == Start then Fail(PastEnd, st.w) else Fail(EofNotFound, st.w)
    else
      var t: int := s[st.ip];
      if st.ctx == Start && t > 17 then
        TakeLiterals(e, s, st.ip + 1, t - 17, st.w, if t - 17 < 4 then AfterFew else AfterRun)
      else if t >= 64 || (t < 16 && (st.ctx == AfterFew || st.ctx == AfterRun)) then Near(e, s, st)
      else if t >= 32 then Far(e, s, st, t % 32, 31, 0, false)
      else if t >= 16 then Far(e, s, st, t % 8, 7, t / 8 % 2 * 0x4000, true)
      else
        match ReadLength(s, st.ip + 1, t, 15)
        case None => Fail(InputOverrun, st.w)
        case Some(l) => TakeLiterals(e, s, l.ip, l.value + 3, st.w, AfterRun)
  }

  datatype Result = Done(w: seq<byte>, ip: nat) | Failed(error: Error, w: seq<byte>)

  function DecodeFrom(e: Env, s: seq<byte>, st: State): Result
    decreases |s| - st.ip
  {
    match Step(e, s, st)
    case Fail(error, w) => Failed(error, w)
    case End(ip) => Done(st.w, ip)
    case Next(next) => DecodeFrom(e, s, next)
  }

  function Decode(f: Flavour, dict: seq<byte>, cap: nat, s: seq<byte>): Result {
    DecodeFrom(Env(f, |dict|, cap), s, State(0, dict, Start))
  }
}
