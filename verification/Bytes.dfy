/** Bytes, and the truncation every codec applies when it stores a machine word into a byte. */
module Bytes {

  type byte = b: int | 0 <= b < 256

  /** LZO_BYTE: keep the low eight bits. */
  function LowByte(x: int): byte {
    x % 256
  }

  lemma LowByteId(x: int)
    requires 0 <= x < 256
    ensures LowByte(x) == x
  {
  }

  datatype Option<+T> = None | Some(value: T)

  /** `c` stands at position `ip` of `s`. */
  ghost predicate At(s: seq<byte>, ip: nat, c: seq<byte>) {
    ip + |c| <= |s| && s[ip..ip + |c|] == c
  }

  lemma AtIndex(s: seq<byte>, ip: nat, c: seq<byte>, i: nat)
    requires At(s, ip, c) && i < |c|
    ensures ip + i < |s| && s[ip + i] == c[i]
  {
    assert s[ip..ip + |c|][i] == c[i];
  }

  lemma AtSplit(s: seq<byte>, ip: nat, a: seq<byte>, b: seq<byte>)
    requires At(s, ip, a + b)
    ensures At(s, ip, a) && At(s, ip + |a|, b)
  {
    var c := a + b;
    assert s[ip..ip + |a|] == s[ip..ip + |c|][..|a|] == c[..|a|];
    assert s[ip + |a|..ip + |a| + |b|] == s[ip..ip + |c|][|a|..] == c[|a|..];
  }

  lemma AtMiddle(pre: seq<byte>, c: seq<byte>, rest: seq<byte>)
    ensures At(pre + c + rest, |pre|, c)
  {
  }
}
