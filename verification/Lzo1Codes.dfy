/** The code book of LZO1 and LZO1A in plain numbers. */
module Lzo1Codes {
  import opened Bytes
  import opened Window
  import opened Tokens
  import opened Lzo1Format

  // ----- runs -----

  /** One byte up to 31 literals, a zero and one byte up to 279, and a zero and one of eight codes for 280 and the
      powers of two from 512 to 32768. Other runs have no marker. */
  function Marker(n: nat): seq<byte> {
    if n == 0 then []
    else if n <= 31 then [n]
    else if n <= 279 then [0, n - 32]
    else if n == 280 then [0, 248]
    else if n == 512 then [0, 249]
    else if n == 1024 then [0, 250]
    else if n == 2048 then [0, 251]
    else if n == 4096 then [0, 252]
    else if n == 8192 then [0, 253]
    else if n == 16384 then [0, 254]
    else if n == 32768 then [0, 255]
    else []
  }

  /** A run is read from its marker, except where LZO1A expects a match; behind less than 280 literals it does. */
  lemma ReadsRun(v: Variant, s: seq<byte>, st: State, n: nat)
    requires Marker(n) != [] && At(s, st.ip, Marker(n)) && (v == Lzo1a ==> !st.after)
    ensures var ip := st.ip + |Marker(n)|;
            Step(v, s, st) == if |s| < ip + n then None
                              else Some(State(ip + n, st.out + s[ip..ip + n], n <= 279))
  {
    var m := Marker(n);
    AtIndex(s, st.ip, m, 0);
    if |m| == 2 {
      AtIndex(s, st.ip, m, 1);
    }
  }

  lemma WritesRun(lit: seq<byte>)
    requires 1 <= |lit| && Marker(|lit|) != []
    ensures Code(Run(lit)) == Marker(|lit|) + lit
  {
  }

  // ----- matches -----

  /** Two bytes for matches of 3 to 8, three bytes for 9 to 264, from 1 to 8192 back. */
  function Pair(off: nat, len: nat): seq<byte>
    requires 1 <= off <= 8192 && 3 <= len <= 264
  {
    if len <= 8 then [(len - 2) * 32 + (off - 1) % 32, (off - 1) / 32]
    else [224 + (off - 1) % 32, (off - 1) / 32, len - 9]
  }

  lemma ReadsMatch(v: Variant, s: seq<byte>, st: State, off: nat, len: nat)
    requires 1 <= off <= 8192 && 3 <= len <= 264 && At(s, st.ip, Pair(off, len))
    ensures var ip := st.ip + |Pair(off, len)|;
            Step(v, s, st) == if |st.out| < off then None else Some(State(ip, Copy(st.out, off, len), false))
  {
    hide Copy;
    var m := Pair(off, len);
    AtIndex(s, st.ip, m, 0);
    AtIndex(s, st.ip, m, 1);
    if len > 8 {
      AtIndex(s, st.ip, m, 2);
    }
    FiveBits(off - 1, if len <= 8 then len - 2 else 7);
    if off <= |st.out| {
      assert Copy(st.out, off, len) + s[st.ip + |m|..st.ip + |m|] == Copy(st.out, off, len);
    }
  }

  lemma FiveBits(x: nat, n: nat)
    ensures var t := n * 32 + x % 32; t % 32 + 32 * (x / 32) == x && t / 32 == n
  {
  }

  /** Behind a short run, LZO1A reads a marker below 32 as a match of three bytes with one literal. */
  lemma ReadsR1(s: seq<byte>, st: State, off: nat, c: byte)
    requires 1 <= off <= 8192 && st.after && At(s, st.ip, [(off - 1) % 32, (off - 1) / 32, c])
    ensures Step(Lzo1a, s, st)
         == if |st.out| < off then None else Some(State(st.ip + 3, Copy(st.out, off, 3) + [c], true))
  {
    hide Copy;
    var m := [(off - 1) % 32, (off - 1) / 32, c];
    AtIndex(s, st.ip, m, 0);
    AtIndex(s, st.ip, m, 1);
    AtIndex(s, st.ip, m, 2);
    FiveBits(off - 1, 0);
    assert s[st.ip + 2..st.ip + 3] == [c];
  }

  lemma WritesMatch(off: nat, len: nat)
    requires 1 <= off <= 8192 && 3 <= len <= 264
    ensures Code(Match(off, len, [])) == Pair(off, len)
  {
  }

  lemma WritesR1(off: nat, c: byte)
    requires 1 <= off <= 8192
    ensures Code(Match(off, 3, [c])) == [(off - 1) % 32, (off - 1) / 32, c]
  {
  }

  /** The tokens that may be written. */
  lemma LegalIs(v: Variant, t: Token, after: bool, w: seq<byte>)
    ensures Legal(v, t, after, w) <==>
            match t
            case Run(lit) => Marker(|lit|) != [] && !(v == Lzo1a && after)
            case Match(off, len, tail) =>
              && 1 <= off <= 8192 && off <= |w|
              && ((tail == [] && 3 <= len <= 264) || (v == Lzo1a && after && len == 3 && |tail| == 1))
  {
  }
}
