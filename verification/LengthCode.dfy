/** The open-ended length code of LZO1F, LZO1X and LZO2A: one zero byte for every 255, then the rest. */
module LengthCode {
  import opened Bytes

  function Ext(n: nat): (r: seq<byte>)
    requires 1 <= n
    ensures |r| == (n + 254) / 255
  {
    if n > 255 then [0] + Ext(n - 255) else [LowByte(n)]
  }

  /** lzo_uint, in which the C code counts, has 32 bits. */
  const WORD: nat := 0x1_0000_0000

  function Word(n: nat): (r: nat)
    ensures r < WORD && (n < WORD ==> r == n)
  {
    n % WORD
  }

  lemma WordAdd(a: nat, b: nat)
    ensures Word(Word(a) + b) == Word(a + b)
  {
  }

  datatype Length = Length(value: nat, ip: nat)

  /** Count zero bytes from `ip` on, 255 each, up to and including the first other byte. */
  function ReadExt(s: seq<byte>, ip: nat): (r: Option<Length>)
    ensures r.Some? ==> ip < r.value.ip <= |s| && 1 <= r.value.value
    decreases |s| - ip
  {
    if ip >= |s| then None
    else if s[ip] != 0 then Some(Length(s[ip], ip + 1))
    else
      match ReadExt(s, ip + 1)
      case None => None
      case Some(l) => Some(Length(255 + l.value, l.ip))
  }

  /** Reading a length code gives the length back and stops right behind it. */
  lemma {:induction false} ReadExtReads(s: seq<byte>, ip: nat, n: nat)
    requires 1 <= n && At(s, ip, Ext(n))
    ensures ReadExt(s, ip) == Some(Length(n, ip + |Ext(n)|))
    decreases n
  {
    AtIndex(s, ip, Ext(n), 0);
    if n > 255 {
      AtSplit(s, ip, [0], Ext(n - 255));
      ReadExtReads(s, ip + 1, n - 255);
    }
  }

  /** What a length code stands for: 255 for every zero byte, and the byte behind them. */
  lemma {:induction false} ReadExtValue(s: seq<byte>, ip: nat)
    requires ReadExt(s, ip).Some?
    ensures var l := ReadExt(s, ip).value;
            && l.value == 255 * (l.ip - ip - 1) + s[l.ip - 1] && s[l.ip - 1] != 0
            && forall i :: ip <= i < l.ip - 1 ==> s[i] == 0
    decreases |s| - ip
  {
    if s[ip] == 0 {
      ReadExtValue(s, ip + 1);
    }
  }

  /** The emitting loop of the compressors. */
  method PutExt(out: array<byte>, op: nat, n: nat) returns (op': nat)
    requires 1 <= n && op + |Ext(n)| <= out.Length
    modifies out
    ensures op' == op + |Ext(n)| && out[..op'] == old(out[..op]) + Ext(n)
  {
    var left := n;
    op' := op;
    while left > 255
      invariant 1 <= left <= n && op <= op' && op' + |Ext(left)| <= out.Length
      invariant out[..op'] + Ext(left) == old(out[..op]) + Ext(n)
    {
      assert out[..op'] + [0] + Ext(left - 255) == out[..op'] + Ext(left);
      out[op'] := 0;
      op', left := op' + 1, left - 255;
    }
    out[op'] := LowByte(left);
    op' := op' + 1;
  }

  /** The reading loop of the decompressors. It counts modulo 2^32, and so it loses whole multiples of 2^32. */
  method GetExt(inp: seq<byte>, ip: nat) returns (value: nat, ip': nat)
    requires ReadExt(inp, ip).Some?
    ensures var l := ReadExt(inp, ip).value; value == Word(l.value) && ip' == l.ip
  {
    value, ip' := 0, ip;
    ghost var n: nat := 0;
    while inp[ip'] == 0
      invariant ip <= ip' < |inp| && ReadExt(inp, ip').Some? && value == Word(n)
      invariant var l := ReadExt(inp, ip').value; ReadExt(inp, ip) == Some(Length(n + l.value, l.ip))
      decreases |inp| - ip'
    {
      WordAdd(n, 255);
      value, ip', n := Word(value + 255), ip' + 1, n + 255;
    }
    WordAdd(n, inp[ip']);
    value, ip' := Word(value + inp[ip']), ip' + 1;
  }
}
