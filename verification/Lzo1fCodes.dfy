/** The code book of LZO1F in plain numbers. */
module Lzo1fCodes {
  import opened Bytes
  import opened Window
  import opened Tokens
  import opened LengthCode
  import opened Lzo1fFormat

  /** Literal runs of any length: one byte up to 31, then a zero and a length code. */
  lemma WritesRun(n: nat)
    requires 1 <= n
    ensures RunHeader(n) == if n <= 31 then [n] else [0] + Ext(n - 31)
  {
    hide Ext;
  }

  /** A match with `k` literals behind it: two bytes for lengths from 3 to 8 and offsets up to 2048, and behind literals
      for length 3 and offsets from 2049 to 4096; otherwise a marker from 224 on, perhaps a length code, and two. */
  function MatchCode(off: nat, len: nat, k: nat, after: bool): seq<byte>
    requires 1 <= off <= 16383 && 3 <= len && k <= 3
  {
    if len <= 8 && off <= 2048 then [(len - 2) * 32 + (off - 1) % 8 * 4 + k, (off - 1) / 8]
    else if len == 3 && off <= 4096 && after then [(off - 2049) % 8 * 4 + k, (off - 2049) / 8]
    else if len <= 33 then [224 + (len - 2), off % 64 * 4 + k, off / 64]
    else [224] + Ext(len - 33) + [off % 64 * 4 + k, off / 64]
  }

  lemma WritesMatch(off: nat, len: nat, tail: seq<byte>, after: bool)
    requires 1 <= off <= 16383 && 3 <= len && |tail| <= 3
    ensures Code(Match(off, len, tail), after) == MatchCode(off, len, |tail|, after) + tail
  {
    hide Ext, MatchHead, MatchLow, MatchHigh;
    var k := |tail|;
    if len <= 8 && off <= 2048 {
      WritesNear(off, len, k, after);
    } else if len == 3 && off <= 4096 && after {
      WritesBehindRun(off, k);
    } else {
      WritesFar(off, len, k, after);
    }
  }

  lemma WritesNear(off: nat, len: nat, k: nat, after: bool)
    requires 1 <= off <= 2048 && 3 <= len <= 8 && k <= 3
    ensures MatchHead(off, len, after) == [] && MatchHigh(off, len, after) == (off - 1) / 8
    ensures MatchLow(off, len, after) + k == (len - 2) * 32 + (off - 1) % 8 * 4 + k < 256
  {
  }

  lemma WritesBehindRun(off: nat, k: nat)
    requires 2049 <= off <= 4096 && k <= 3
    ensures MatchHead(off, 3, true) == [] && MatchHigh(off, 3, true) == (off - 2049) / 8
    ensures MatchLow(off, 3, true) + k == (off - 2049) % 8 * 4 + k < 256
  {
  }

  lemma WritesFar(off: nat, len: nat, k: nat, after: bool)
    requires 1 <= off <= 16383 && 3 <= len && k <= 3
    requires !(len <= 8 && off <= 2048) && !(len == 3 && off <= 4096 && after)
    ensures MatchHead(off, len, after) == if len <= 33 then [224 + (len - 2)] else [224] + Ext(len - 33)
    ensures MatchLow(off, len, after) + k == off % 64 * 4 + k < 256 && MatchHigh(off, len, after) == off / 64
  {
    hide Ext;
    FarOffset(off);
  }

  lemma FarOffset(off: nat)
    requires off <= 16383
    ensures off % 64 * 4 + 3 < 256 && off / 64 < 256
  {
  }

  /** These bytes are read as that match, or not at all where the match does not fit. */
  lemma ReadsNear(s: seq<byte>, st: State, off: nat, len: nat, k: nat)
    requires 1 <= off <= 2048 && 3 <= len <= 8 && k <= 3
    requires At(s, st.ip, [(len - 2) * 32 + (off - 1) % 8 * 4 + k, (off - 1) / 8])
    ensures Step(s, st) == TakeMatch(s, st.ip + 2, off, len, st)
  {
    hide TakeMatch;
    var m := [(len - 2) * 32 + (off - 1) % 8 * 4 + k, (off - 1) / 8];
    AtIndex(s, st.ip, m, 0);
    AtIndex(s, st.ip, m, 1);
    ThreeBits(off - 1, len - 2, k);
  }

  lemma ThreeBits(x: nat, n: nat, k: nat)
    requires k < 4
    ensures var t := n * 32 + x % 8 * 4 + k; t / 4 % 8 + 8 * (x / 8) == x && t / 32 == n
  {
  }

  /** Behind literals a marker below 32 is three bytes from 2049 to 4096 back. */
  lemma ReadsBehindRun(s: seq<byte>, st: State, off: nat, k: nat)
    requires 2049 <= off <= 4096 && k <= 3 && st.after
    requires At(s, st.ip, [(off - 2049) % 8 * 4 + k, (off - 2049) / 8])
    ensures Step(s, st) == TakeMatch(s, st.ip + 2, off, 3, st)
  {
    hide TakeMatch;
    var m := [(off - 2049) % 8 * 4 + k, (off - 2049) / 8];
    AtIndex(s, st.ip, m, 0);
    AtIndex(s, st.ip, m, 1);
    ThreeBits(off - 2049, 0, k);
  }

  /** A marker from 224 on: offsets up to 16383, and 0 for the end code, here with a length in the marker. */
  lemma ReadsFar(s: seq<byte>, st: State, off: nat, len: nat, k: nat)
    requires off <= 16383 && 3 <= len <= 33 && k <= 3
    requires At(s, st.ip, [224 + (len - 2), off % 64 * 4 + k, off / 64])
    ensures Step(s, st) == if off == 0 then End(st.ip + 3) else TakeMatch(s, st.ip + 3, off, len, st)
  {
    hide TakeMatch;
    var m := [224 + (len - 2), off % 64 * 4 + k, off / 64];
    AtIndex(s, st.ip, m, 0);
    AtIndex(s, st.ip, m, 1);
    AtIndex(s, st.ip, m, 2);
    SixBits(off, k);
  }

  lemma SixBits(x: nat, k: nat)
    requires k < 4
    ensures (x % 64 * 4 + k) / 4 + 64 * (x / 64) == x
  {
  }

  /** And with the length in a length code. */
  lemma ReadsLong(s: seq<byte>, st: State, off: nat, len: nat, k: nat)
    requires off <= 16383 && 34 <= len && k <= 3
    requires At(s, st.ip, [224] + Ext(len - 33) + [off % 64 * 4 + k, off / 64])
    ensures var ip := st.ip + 3 + |Ext(len - 33)|;
            Step(s, st) == if off == 0 then End(ip) else TakeMatch(s, ip, off, len, st)
  {
    hide TakeMatch, Ext, ReadExt;
    var e, last := Ext(len - 33), [off % 64 * 4 + k, off / 64];
    AtSplit(s, st.ip, [224] + e, last);
    AtSplit(s, st.ip, [224], e);
    AtIndex(s, st.ip, [224], 0);
    ReadExtReads(s, st.ip + 1, len - 33);
    AtIndex(s, st.ip + 1 + |e|, last, 0);
    AtIndex(s, st.ip + 1 + |e|, last, 1);
    SixBits(off, k);
  }

  /** The tokens that may be written. */
  lemma LegalIs(t: Token, after: bool, w: seq<byte>)
    ensures Legal(t, after, w) <==>
            match t
            case Run(lit) => lit != [] && !after
            case Match(off, len, tail) => 1 <= off <= 16383 && off <= |w| && 3 <= len && |tail| <= 3
  {
  }
}
