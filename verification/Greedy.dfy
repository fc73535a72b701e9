/** What the compressors have in common: how far two places of the data agree, and how many bytes of a token
    stream are literals. */
module Greedy {
  import opened Bytes
  import opened Tokens

  /** How far the data at `p` agree with those `off` back, from the n-th byte on and up to `limit`. */
  function Agree(inp: seq<byte>, p: nat, off: nat, n: nat, limit: nat): (r: nat)
    requires off <= p && n <= limit && p + limit <= |inp|
    ensures n <= r <= limit && (r < limit ==> inp[p + r] != inp[p + r - off])
    ensures forall i :: p + n <= i < p + r ==> inp[i] == inp[i - off]
    decreases limit - n
  {
    if n < limit && inp[p + n] == inp[p + n - off] then Agree(inp, p, off, n + 1, limit) else n
  }

  /** Only one length both agrees and ends at a difference or at the limit. */
  lemma AgreeOnce(inp: seq<byte>, p: nat, off: nat, a: nat, b: nat)
    requires off <= p && p + a <= |inp| && p + b <= |inp|
    requires forall i :: p + 3 <= i < p + a ==> inp[i] == inp[i - off]
    requires forall i :: p + 3 <= i < p + b ==> inp[i] == inp[i - off]
    requires 3 <= a && (a < b ==> inp[p + a] != inp[p + a - off])
    requires 3 <= b && (b < a ==> inp[p + b] != inp[p + b - off])
    ensures a == b
  {
  }

  function LiteralCount(ts: seq<Token>): nat {
    if ts == [] then 0
    else
      LiteralCount(ts[..|ts| - 1]) +
      match ts[|ts| - 1]
      case Run(lit) => |lit|
      case Match(_, _, tail) => |tail|
  }

  lemma {:induction false} LiteralCountAppend(a: seq<Token>, b: seq<Token>)
    ensures LiteralCount(a + b) == LiteralCount(a) + LiteralCount(b)
  {
    if b == [] {
      assert a + b == a;
    } else {
      LiteralCountAppend(a, b[..|b| - 1]);
      assert (a + b)[..|a + b| - 1] == a + b[..|b| - 1];
    }
  }

  lemma OneRun(lit: seq<byte>)
    ensures LiteralCount([Run(lit)]) == |lit|
  {
    assert [Run(lit)][..0] == [];
  }

  lemma OneMatch(off: nat, len: nat)
    ensures LiteralCount([Match(off, len, [])]) == 0
  {
    assert [Match(off, len, [])][..0] == [];
  }

  lemma NoTokens()
    ensures LiteralCount([]) == 0
  {
  }
}
