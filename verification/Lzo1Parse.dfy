/** Which tokens lzo1_compress and lzo1a_compress write, as a function of the input and the hash: the greedy parse over
    a dictionary of two slots a position. */
module Lzo1Parse {
  import opened Bytes
  import opened Tokens
  import opened Lzo1Format
  import opened Greedy

  const NULL: int := -1

  // ----- literals -----

  /** The largest run with a code of its own that fits into `n`. */
  function Largest(n: nat): (r: nat)
    requires 280 <= n
    ensures IsLongRun(r) && r <= n && forall k: nat :: IsLongRun(k) && k <= n ==> k <= r
  {
    if n >= 32768 then 32768
    else if n >= 16384 then 16384
    else if n >= 8192 then 8192
    else if n >= 4096 then 4096
    else if n >= 2048 then 2048
    else if n >= 1024 then 1024
    else if n >= 512 then 512
    else 280
  }

  /** store_run: the largest runs first, and what is left below 280. */
  function Stored(inp: seq<byte>, ii: nat, n: nat): seq<Token>
    requires ii + n <= |inp|
    decreases n
  {
    if n == 0 then []
    else if n < 280 then [Run(inp[ii..ii + n])]
    else [Run(inp[ii..ii + Largest(n)])] + Stored(inp, ii + Largest(n), n - Largest(n))
  }

  // ----- matches -----

  /** Two positions agree on the three bytes a match needs. */
  predicate SameThree(inp: seq<byte>, a: nat, b: nat)
    requires a + 3 <= |inp| && b + 3 <= |inp|
  {
    inp[a] == inp[b] && inp[a + 1] == inp[b + 1] && inp[a + 2] == inp[b + 2]
  }

  /** A dictionary entry that is an earlier position within reach. */
  predicate InReach(m: int, ip: nat) {
    0 <= m < ip && ip - m <= MAX_OFFSET
  }

  /** The lookup in two slots: the offset of the match, or 0, and the slot that gets the position. */
  function Lookup(inp: seq<byte>, ip: nat, dict: seq<int>, h: nat): (r: (nat, nat))
    requires ip + 3 <= |inp| && |dict| == D_SIZE && h < D_SIZE
    ensures r.1 < D_SIZE && (r.0 != 0 ==> r.0 <= ip && r.0 <= MAX_OFFSET && SameThree(inp, ip, ip - r.0))
  {
    if !InReach(dict[h], ip) then (0, h)
    else if SameThree(inp, dict[h], ip) then (ip - dict[h], h)
    else
      var g := D_SIZE - 1 - h;
      (if InReach(dict[g], ip) && SameThree(inp, dict[g], ip) then ip - dict[g] else 0, g)
  }

  /** The lookup in plain numbers. */
  lemma LookupIs(inp: seq<byte>, ip: nat, dict: seq<int>, h: nat)
    requires ip + 3 <= |inp| && |dict| == 8192 && h < 8192
    ensures var (off, slot) := Lookup(inp, ip, dict, h);
            var reach := ip - dict[h] <= 8192 && 0 <= dict[h] < ip;
            if !reach then off == 0 && slot == h
            else if inp[dict[h]..dict[h] + 3] == inp[ip..ip + 3] then off == ip - dict[h] && slot == h
            else
              && slot == 8191 - h
              && var m := dict[8191 - h];
                 if 0 <= m < ip && ip - m <= 8192 && inp[m..m + 3] == inp[ip..ip + 3] then off == ip - m else off == 0
  {
    SliceIsSame(inp, ip);
  }

  lemma SliceIsSame(inp: seq<byte>, ip: nat)
    requires ip + 3 <= |inp|
    ensures forall m: nat :: m + 3 <= |inp| ==> (SameThree(inp, m, ip) <==> inp[m..m + 3] == inp[ip..ip + 3])
  {
    forall m: nat | m + 3 <= |inp| && inp[m..m + 3] == inp[ip..ip + 3] ensures SameThree(inp, m, ip) {
      assert inp[m] == inp[m..m + 3][0] && inp[m + 1] == inp[m..m + 3][1] && inp[m + 2] == inp[m..m + 3][2];
      assert inp[ip] == inp[ip..ip + 3][0] && inp[ip + 1] == inp[ip..ip + 3][1] && inp[ip + 2] == inp[ip..ip + 3][2];
    }
  }

  /** The length of a match: as far as the data agree, up to 264, and not into the last three bytes. */
  function MatchLen(inp: seq<byte>, p: nat, off: nat): (r: nat)
    requires 1 <= off <= p && p + 12 <= |inp| && SameThree(inp, p, p - off)
    ensures 3 <= r <= MAX_MATCH_LONG && p + r + 3 <= |inp|
  {
    var limit := if |inp| - 3 - p < MAX_MATCH_LONG then |inp| - 3 - p else MAX_MATCH_LONG;
    Agree(inp, p, off, 3, limit)
  }

  lemma MatchLenIs(inp: seq<byte>, p: nat, off: nat, len: nat)
    requires 1 <= off <= p && p + 12 <= |inp| && SameThree(inp, p, p - off)
    requires 3 <= len <= 264 && p + len + 3 <= |inp|
    requires forall i :: p <= i < p + len ==> inp[i] == inp[i - off]
    requires len < 264 && p + len + 3 < |inp| ==> inp[p + len] != inp[p + len - off]
    ensures MatchLen(inp, p, off) == len
  {
    hide SameThree, Agree;
    AgreeOnce(inp, p, off, MatchLen(inp, p, off), len);
  }

  // ----- the parse -----

  type Hash = (seq<byte>, nat) -> nat

  /** At the top of the loop: the position, where the pending literals begin, where the last match behind literals
      began (LZO1A), the dictionary, and the tokens so far. */
  datatype Cursor = Cursor(ip: nat, ii: nat, r1: int, dict: seq<int>, ts: seq<Token>)

  /** LZO1A: the last match takes one literal in. */
  function Fold(ts: seq<Token>, c: byte): seq<Token> {
    if ts != [] && ts[|ts| - 1].Match? then ts[..|ts| - 1] + [Match(ts[|ts| - 1].off, MIN_MATCH, [c])] else ts
  }

  /** The pending literals go out in front of a match. */
  function Literals(v: Variant, inp: seq<byte>, c: Cursor): (seq<Token>, int)
    requires c.ii <= c.ip <= |inp|
  {
    if c.ii == c.ip then (c.ts, c.r1)
    else if v == Lzo1a && c.ip - c.r1 == MIN_MATCH + 1 then (Fold(c.ts, inp[c.ii]), c.ip)
    else (c.ts + Stored(inp, c.ii, c.ip - c.ii), if v == Lzo1a && c.ip - c.ii < R0FAST then c.ip else c.r1)
  }

  /** One turn of the loop. */
  function Turn(v: Variant, inp: seq<byte>, hash: Hash, c: Cursor): (next: Cursor)
    requires c.ii <= c.ip && c.ip + 12 < |inp| && |c.dict| == D_SIZE
    ensures next.ii <= next.ip <= |inp| && c.ip < next.ip && |next.dict| == D_SIZE
  {
    var (off, slot) := Lookup(inp, c.ip, c.dict, hash(inp, c.ip) % D_SIZE);
    var dict := c.dict[slot := c.ip];
    if off == 0 then c.(ip := c.ip + 1, dict := dict)
    else
      var end := c.ip + MatchLen(inp, c.ip, off);
      var (ts, r1) := Literals(v, inp, c);
      Cursor(end, end, r1, dict, ts + [Match(off, end - c.ip, [])])
  }

  function Parse(v: Variant, inp: seq<byte>, hash: Hash, c: Cursor): seq<Token>
    requires c.ii <= c.ip <= |inp| && |c.dict| == D_SIZE
    decreases |inp| - c.ip
  {
    if c.ip + 12 >= |inp| then c.ts + Stored(inp, c.ii, |inp| - c.ii) else Parse(v, inp, hash, Turn(v, inp, hash, c))
  }

  lemma ParseOne(v: Variant, inp: seq<byte>, hash: Hash, c: Cursor)
    requires c.ii <= c.ip && c.ip + 12 < |inp| && |c.dict| == D_SIZE
    ensures var (off, slot) := Lookup(inp, c.ip, c.dict, hash(inp, c.ip) % D_SIZE);
            var dict := c.dict[slot := c.ip];
            Parse(v, inp, hash, c) ==
            if off == 0 then Parse(v, inp, hash, Cursor(c.ip + 1, c.ii, c.r1, dict, c.ts))
            else
              var end := c.ip + MatchLen(inp, c.ip, off);
              var (ts, r1) := Literals(v, inp, c);
              Parse(v, inp, hash, Cursor(end, end, r1, dict, ts + [Match(off, end - c.ip, [])]))
  {
    hide Lookup, MatchLen, Literals, Stored, Parse;
    ParseTurn(v, inp, hash, c);
  }

  lemma ParseTurn(v: Variant, inp: seq<byte>, hash: Hash, c: Cursor)
    requires c.ii <= c.ip && c.ip + 12 < |inp| && |c.dict| == D_SIZE
    ensures Parse(v, inp, hash, c) == Parse(v, inp, hash, Turn(v, inp, hash, c))
  {
    hide Turn, Stored;
  }

  lemma ParseLast(v: Variant, inp: seq<byte>, hash: Hash, c: Cursor)
    requires c.ii <= c.ip <= |inp| <= c.ip + 12 && |c.dict| == D_SIZE
    ensures Parse(v, inp, hash, c) == c.ts + Stored(inp, c.ii, |inp| - c.ii)
  {
  }

  /** The dictionary is cleared, then the first position is entered. */
  function Start(inp: seq<byte>, hash0: Hash): Cursor
    requires 13 < |inp|
  {
    Cursor(1, 0, |inp| - 12, seq(D_SIZE, _ => NULL)[hash0(inp, 0) % D_SIZE := 0], [])
  }

  /** The whole block: short inputs are stored. */
  function Parsed(v: Variant, inp: seq<byte>, hash0: Hash, hash: Hash): seq<Token> {
    if |inp| <= 13 then Stored(inp, 0, |inp|) else Parse(v, inp, hash, Start(inp, hash0))
  }

  // ----- what the parse is worth -----

  lemma {:induction false} StoredCount(inp: seq<byte>, ii: nat, n: nat)
    requires ii + n <= |inp|
    ensures LiteralCount(Stored(inp, ii, n)) == n
    decreases n
  {
    if n >= 280 {
      var k := Largest(n);
      StoredCount(inp, ii + k, n - k);
      OneRun(inp[ii..ii + k]);
      LiteralCountAppend([Run(inp[ii..ii + k])], Stored(inp, ii + k, n - k));
    } else if n > 0 {
      OneRun(inp[ii..ii + n]);
    }
  }

  /** One byte over and over, and a hash that looks at bytes only: all but the first byte and at most the last twelve
      are in matches, whatever slot the hash picks. */
  lemma {:induction false} RepeatsAreMatched(v: Variant, inp: seq<byte>, hash: Hash, c: Cursor, h: nat)
    requires forall i, j :: 0 <= i < j < |inp| ==> inp[i] == inp[j]
    requires h < D_SIZE && forall i :: 0 <= i < |inp| ==> hash(inp, i) % D_SIZE == h
    requires c.ii <= c.ip <= |inp| && |c.dict| == D_SIZE && InReach(c.dict[h], c.ip)
    requires c.ii == c.ip || (c.ip + 12 < |inp| && !(v == Lzo1a && c.ip - c.r1 == MIN_MATCH + 1))
    ensures LiteralCount(Parse(v, inp, hash, c)) <= LiteralCount(c.ts) + (c.ip - c.ii) + 12
    decreases |inp| - c.ip
  {
    hide LiteralCount, Stored, Turn;
    if c.ip + 12 >= |inp| {
      StoredCount(inp, c.ii, |inp| - c.ii);
      LiteralCountAppend(c.ts, Stored(inp, c.ii, |inp| - c.ii));
    } else {
      RepeatTurn(v, inp, hash, c, h);
      RepeatsAreMatched(v, inp, hash, Turn(v, inp, hash, c), h);
    }
  }

  lemma RepeatTurn(v: Variant, inp: seq<byte>, hash: Hash, c: Cursor, h: nat)
    requires forall i, j :: 0 <= i < j < |inp| ==> inp[i] == inp[j]
    requires h < D_SIZE && hash(inp, c.ip) % D_SIZE == h
    requires c.ii <= c.ip && c.ip + 12 < |inp| && |c.dict| == D_SIZE && InReach(c.dict[h], c.ip)
    requires c.ii == c.ip || !(v == Lzo1a && c.ip - c.r1 == MIN_MATCH + 1)
    ensures var next := Turn(v, inp, hash, c);
            && next.ii == next.ip && InReach(next.dict[h], next.ip)
            && LiteralCount(next.ts) == LiteralCount(c.ts) + (c.ip - c.ii)
  {
    hide LiteralCount, Lookup, Literals, MatchLen;
    RepeatIsFound(inp, c.ip, c.dict, h);
    LiteralsCount(v, inp, c);
    var off := c.ip - c.dict[h];
    var len := MatchLen(inp, c.ip, off);
    OneMatch(off, len);
    LiteralCountAppend(Literals(v, inp, c).0, [Match(off, len, [])]);
  }

  lemma RepeatIsFound(inp: seq<byte>, ip: nat, dict: seq<int>, h: nat)
    requires forall i, j :: 0 <= i < j < |inp| ==> inp[i] == inp[j]
    requires ip + 3 <= |inp| && |dict| == D_SIZE && h < D_SIZE && InReach(dict[h], ip)
    ensures Lookup(inp, ip, dict, h) == (ip - dict[h], h) && SameThree(inp, ip, dict[h])
  {
  }

  lemma LiteralsCount(v: Variant, inp: seq<byte>, c: Cursor)
    requires c.ii <= c.ip <= |inp| && (c.ii == c.ip || !(v == Lzo1a && c.ip - c.r1 == MIN_MATCH + 1))
    ensures LiteralCount(Literals(v, inp, c).0) == LiteralCount(c.ts) + (c.ip - c.ii)
  {
    hide LiteralCount, Stored, Fold;
    StoredCount(inp, c.ii, c.ip - c.ii);
    LiteralCountAppend(c.ts, Stored(inp, c.ii, c.ip - c.ii));
  }

  lemma ConstantData(v: Variant, inp: seq<byte>, hash0: Hash, hash: Hash, h: nat)
    requires forall i, j :: 0 <= i < j < |inp| ==> inp[i] == inp[j]
    requires h < D_SIZE && forall i :: 0 <= i < |inp| ==> hash(inp, i) % D_SIZE == h
    requires 13 < |inp| && hash0(inp, 0) % D_SIZE == h
    ensures LiteralCount(Parsed(v, inp, hash0, hash)) <= 13
  {
    hide LiteralCount, Parse, Turn;
    NoTokens();
    RepeatsAreMatched(v, inp, hash, Start(inp, hash0), h);
  }
}
