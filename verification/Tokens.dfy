/** The abstract token stream behind every LZO format: literal runs and matches, where a match may
    carry a few literal bytes that the format folds into the match's own code. */
module Tokens {
  import opened Bytes
  import opened Window

  datatype Token =
    | Run(lit: seq<byte>)
    | Match(off: nat, len: nat, tail: seq<byte>)

  /** The window after one token; a match that starts outside the window adds nothing. */
  function Grow(w: seq<byte>, t: Token): (r: seq<byte>)
    ensures |w| <= |r| && r[..|w|] == w
  {
    match t
    case Run(lit) => w + lit
    case Match(off, len, tail) =>
      if 1 <= off <= |w| then Copy(w, off, len) + tail else w
  }

  /** What a token stream stands for, on top of an initial window (a preset dictionary, or nothing). */
  function Expand(base: seq<byte>, ts: seq<Token>): (r: seq<byte>)
    ensures |base| <= |r| && r[..|base|] == base
  {
    if ts == [] then base
    else Grow(Expand(base, ts[..|ts| - 1]), ts[|ts| - 1])
  }

  lemma ExpandSnoc(base: seq<byte>, ts: seq<Token>, t: Token)
    ensures Expand(base, ts + [t]) == Grow(Expand(base, ts), t)
  {
    assert (ts + [t])[..|ts|] == ts;
  }
}
