/** Which tokens lzo2a_999_compress writes, given what the match finder reports. */
module Lzo2aParse {
  import opened Bytes
  import opened Window
  import opened Tokens
  import opened Lzo2aFormat
  import SwdRing
  import Swd

  type Found = Swd.Found

  const F: nat := SwdRing.F

  /** c->look: one more than the look-ahead buffer holds, or what is left of the input. */
  function Look(inp: seq<byte>, p: nat): nat {
    if p >= |inp| then 0 else if |inp| - p > F then F + 1 else |inp| - p
  }

  /** The length the loop works with: matches the format cannot express count as none. */
  function Usable(m: Found): (len: nat)
    ensures len > 0 ==> len == m.len && 2 <= len && (len >= 3 || IsM1(m.off, len))
    ensures m.len >= 3 ==> len > 0
  {
    if IsM1(m.off, m.len) || m.len >= 3 then m.len else 0
  }

  /** How much longer the next match must be for the current one to be given up: four bytes where that would trade a
      near match for one that is not, one byte otherwise. */
  function Gain(len: nat, off: nat, next: Found): nat {
    if 2 <= len <= 5 && off <= 256 && !(2 <= next.len <= 5 && next.off <= 256) then 4 else 1
  }

  /** The token at `p`, given the reports for `p` and, unless the match takes all that is in sight, for `p + 1`. */
  ghost predicate Choice(inp: seq<byte>, seen: map<nat, Found>, p: nat, t: Token) {
    && p < |inp| && p in seen
    && var m, len := seen[p], Usable(seen[p]);
       if len == 0 then t == Run([inp[p]])
       else if Look(inp, p) > len then
         && p + 1 in seen
         && t == if seen[p + 1].len >= len + Gain(len, m.off, seen[p + 1]) then Run([inp[p]]) else Match(m.off, len, [])
       else t == Match(m.off, len, [])
  }

  /** Every token is the one to be chosen at its place. */
  ghost predicate Decided(inp: seq<byte>, seen: map<nat, Found>, ts: seq<Token>) {
    ts != [] ==>
      && Decided(inp, seen, ts[..|ts| - 1])
      && Choice(inp, seen, |Expand([], ts[..|ts| - 1])|, ts[|ts| - 1])
  }

  lemma {:induction false} DecidedOn(inp: seq<byte>, seen: map<nat, Found>, more: map<nat, Found>, ts: seq<Token>)
    requires Decided(inp, seen, ts) && forall p :: p in seen ==> p in more && more[p] == seen[p]
    ensures Decided(inp, more, ts)
  {
    if ts != [] {
      DecidedOn(inp, seen, more, ts[..|ts| - 1]);
    }
  }

  lemma DecidedSnoc(inp: seq<byte>, seen: map<nat, Found>, ts: seq<Token>, t: Token)
    requires Decided(inp, seen, ts) && Choice(inp, seen, |Expand([], ts)|, t)
    ensures Decided(inp, seen, ts + [t])
  {
    assert (ts + [t])[..|ts|] == ts;
  }

  /** Everything reported is what the finder promises. */
  ghost predicate AllReported(inp: seq<byte>, seen: map<nat, Found>, chain: nat, nice: nat, marks: seq<nat>) {
    forall p :: p in seen ==> p <= |inp| && Swd.Reported(inp, p, N, chain, nice, marks, seen[p])
  }

  /** A literal is written only where no two bytes repeat in the window, where two repeat too far back for a code, or
      where the next position has a longer match. */
  lemma {:induction false} LiteralsAreJustified(inp: seq<byte>, seen: map<nat, Found>, ts: seq<Token>, i: nat,
                                                chain: nat, nice: nat, marks: seq<nat>)
    requires Decided(inp, seen, ts) && AllReported(inp, seen, chain, nice, marks) && i < |ts| && ts[i].Run?
    ensures var p := |Expand([], ts[..i])|;
            && p in seen
            && (|| Swd.Longest(inp, p, 8191, 1)
                || (seen[p].len == 2 && seen[p].off > 256)
                || (p + 1 in seen && seen[p + 1].len > seen[p].len && seen[p].len >= 2))
  {
    hide Choice, Swd.Reported, Swd.Longest, Swd.Beats, Expand;
    var init := ts[..|ts| - 1];
    if i < |init| {
      LiteralsAreJustified(inp, seen, init, i, chain, nice, marks);
      assert init[..i] == ts[..i];
    } else {
      assert ts[..i] == init;
      LiteralIsJustified(inp, seen, |Expand([], init)|, ts[i], chain, nice, marks);
    }
  }

  lemma LiteralIsJustified(inp: seq<byte>, seen: map<nat, Found>, p: nat, t: Token, chain: nat, nice: nat,
                           marks: seq<nat>)
    requires Choice(inp, seen, p, t) && AllReported(inp, seen, chain, nice, marks) && t.Run?
    ensures p in seen
    ensures || Swd.Longest(inp, p, 8191, 1)
            || (seen[p].len == 2 && seen[p].off > 256)
            || (p + 1 in seen && seen[p + 1].len > seen[p].len && seen[p].len >= 2)
  {
    hide Look, Swd.Reported, Swd.Longest;
    NothingLonger(inp, p, chain, nice, marks, seen[p]);
  }

  lemma NothingLonger(inp: seq<byte>, p: nat, chain: nat, nice: nat, marks: seq<nat>, m: Found)
    requires Swd.Reported(inp, p, N, chain, nice, marks, m)
    ensures m.len < 2 ==> Swd.Longest(inp, p, 8191, 1)
  {
  }
}
