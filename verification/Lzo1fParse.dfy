/** Which tokens lzo1f_1_compress writes, as a function of the input, the hash and what the work memory held. */
module Lzo1fParse {
  import opened Bytes
  import opened Tokens
  import opened Lzo1fFormat
  import opened Greedy

  const D_SIZE: nat := 16384

  // ----- the lookup -----

  /** An entry that is an earlier position within reach. */
  predicate InReach(m: int, ip: nat) {
    0 <= m < ip && ip - m <= M3_MAX_OFFSET
  }

  /** A far candidate must agree on the fourth byte too. */
  predicate Worth(inp: seq<byte>, m: nat, ip: nat)
    requires m < ip && ip + 4 <= |inp|
  {
    ip - m <= M2_MAX_OFFSET || inp[m + 3] == inp[ip + 3]
  }

  predicate SameThree(inp: seq<byte>, m: nat, ip: nat)
    requires m < ip && ip + 4 <= |inp|
  {
    inp[m] == inp[ip] && inp[m + 1] == inp[ip + 1] && inp[m + 2] == inp[ip + 2]
  }

  /** The second slot of a position. */
  function Second(h: nat): (g: nat)
    requires h < D_SIZE
    ensures g < D_SIZE
  {
    var low := h % 0x800;
    low - low % 32 + (31 - low % 32) + 0x2000
  }

  function Lookup(inp: seq<byte>, ip: nat, dict: seq<int>, h: nat): (r: (nat, nat))
    requires ip + 4 <= |inp| && |dict| == D_SIZE && h < D_SIZE
    ensures r.1 < D_SIZE && (r.0 != 0 ==> r.0 <= ip && r.0 <= M3_MAX_OFFSET && SameThree(inp, ip - r.0, ip))
    ensures r.0 > M2_MAX_OFFSET ==> inp[ip + 3] == inp[ip + 3 - r.0]
  {
    var m := dict[h];
    if !InReach(m, ip) then (0, h)
    else if Worth(inp, m, ip) then (if SameThree(inp, m, ip) then ip - m else 0, h)
    else
      var g := Second(h);
      var m2 := dict[g];
      (if InReach(m2, ip) && Worth(inp, m2, ip) && SameThree(inp, m2, ip) then ip - m2 else 0, g)
  }

  /** The lookup in plain numbers. The second slot is tried only if the first holds a far candidate that differs in the
      fourth byte. */
  lemma LookupIs(inp: seq<byte>, ip: nat, dict: seq<int>, h: nat)
    requires ip + 4 <= |inp| && |dict| == 16384 && h < 16384
    ensures var (off, slot) := Lookup(inp, ip, dict, h);
            var m := dict[h];
            if !(0 <= m < ip && ip - m <= 16383) then off == 0 && slot == h
            else if ip - m <= 2048 || inp[m + 3] == inp[ip + 3] then
              slot == h && off == if inp[m] == inp[ip] && inp[m + 1] == inp[ip + 1] && inp[m + 2] == inp[ip + 2]
                                  then ip - m else 0
            else
              && slot == 8192 + h % 2048 / 32 * 32 + 31 - h % 32
              && var m2 := dict[slot];
                 if && 0 <= m2 < ip && ip - m2 <= 16383 && (ip - m2 <= 2048 || inp[m2 + 3] == inp[ip + 3])
                    && inp[m2] == inp[ip] && inp[m2 + 1] == inp[ip + 1] && inp[m2 + 2] == inp[ip + 2]
                 then off == ip - m2 else off == 0
  {
    SecondIs(h);
  }

  lemma SecondIs(h: nat)
    requires h < 16384
    ensures Second(h) == 8192 + h % 2048 / 32 * 32 + 31 - h % 32
  {
  }

  /** The length of a match: as far as the data agree. */
  function MatchLen(inp: seq<byte>, p: nat, off: nat): (r: nat)
    requires 1 <= off <= p && p + 9 <= |inp| && SameThree(inp, p - off, p)
    ensures 3 <= r && p + r <= |inp|
    ensures inp[p + 3] == inp[p + 3 - off] ==> 4 <= r
  {
    Agree(inp, p, off, 3, |inp| - p)
  }

  lemma MatchLenIs(inp: seq<byte>, p: nat, off: nat, len: nat)
    requires 1 <= off <= p && p + 9 <= |inp| && SameThree(inp, p - off, p) && 3 <= len && p + len <= |inp|
    requires forall i :: p <= i < p + len ==> inp[i] == inp[i - off]
    requires p + len < |inp| ==> inp[p + len] != inp[p + len - off]
    ensures MatchLen(inp, p, off) == len
  {
    hide SameThree, Agree;
    AgreeOnce(inp, p, off, MatchLen(inp, p, off), len);
  }

  // ----- the parse -----

  type Hash = (seq<byte>, nat) -> nat

  datatype Cursor = Cursor(ip: nat, ii: nat, dict: seq<int>, ts: seq<Token>)

  /** Up to three literals behind a match go into it, others into a run. */
  function Literals(inp: seq<byte>, ii: nat, ip: nat, ts: seq<Token>): seq<Token>
    requires ii <= ip <= |inp|
  {
    if ii == ip then ts
    else if ip - ii < 4 && ts != [] && ts[|ts| - 1].Match? then
      ts[..|ts| - 1] + [ts[|ts| - 1].(tail := inp[ii..ip])]
    else ts + [Run(inp[ii..ip])]
  }

  function Turn(inp: seq<byte>, hash: Hash, c: Cursor): (next: Cursor)
    requires c.ii <= c.ip && c.ip + 9 < |inp| && |c.dict| == D_SIZE
    ensures next.ii <= next.ip <= |inp| && c.ip < next.ip && |next.dict| == D_SIZE
  {
    var (off, slot) := Lookup(inp, c.ip, c.dict, hash(inp, c.ip) % D_SIZE);
    var dict := c.dict[slot := c.ip];
    if off == 0 then c.(ip := c.ip + 1, dict := dict)
    else
      var end := c.ip + MatchLen(inp, c.ip, off);
      Cursor(end, end, dict, Literals(inp, c.ii, c.ip, c.ts) + [Match(off, end - c.ip, [])])
  }

  function Parse(inp: seq<byte>, hash: Hash, c: Cursor): seq<Token>
    requires c.ii <= c.ip <= |inp| && |c.dict| == D_SIZE
    decreases |inp| - c.ip
  {
    if c.ip + 9 >= |inp| then Literals(inp, c.ii, |inp|, c.ts) else Parse(inp, hash, Turn(inp, hash, c))
  }

  lemma ParseOne(inp: seq<byte>, hash: Hash, c: Cursor)
    requires c.ii <= c.ip && c.ip + 9 < |inp| && |c.dict| == D_SIZE
    ensures var (off, slot) := Lookup(inp, c.ip, c.dict, hash(inp, c.ip) % D_SIZE);
            var dict := c.dict[slot := c.ip];
            Parse(inp, hash, c) ==
            if off == 0 then Parse(inp, hash, Cursor(c.ip + 1, c.ii, dict, c.ts))
            else
              var end := c.ip + MatchLen(inp, c.ip, off);
              Parse(inp, hash, Cursor(end, end, dict, Literals(inp, c.ii, c.ip, c.ts) + [Match(off, end - c.ip, [])]))
  {
    hide Lookup, MatchLen, Literals, Parse;
    ParseTurn(inp, hash, c);
  }

  lemma ParseTurn(inp: seq<byte>, hash: Hash, c: Cursor)
    requires c.ii <= c.ip && c.ip + 9 < |inp| && |c.dict| == D_SIZE
    ensures Parse(inp, hash, c) == Parse(inp, hash, Turn(inp, hash, c))
  {
    hide Turn, Literals;
  }

  lemma ParseLast(inp: seq<byte>, hash: Hash, c: Cursor)
    requires c.ii <= c.ip <= |inp| <= c.ip + 9 && |c.dict| == D_SIZE
    ensures Parse(inp, hash, c) == Literals(inp, c.ii, |inp|, c.ts)
  {
  }

  /** The whole block: short inputs are stored. */
  function Parsed(inp: seq<byte>, junk: seq<int>, hash: Hash): seq<Token>
    requires |junk| == D_SIZE
  {
    if |inp| <= 10 then Literals(inp, 0, |inp|, []) else Parse(inp, hash, Cursor(1, 0, junk, []))
  }

  // ----- what the parse is worth -----

  lemma LiteralsCount(inp: seq<byte>, ii: nat, ip: nat, ts: seq<Token>)
    requires ii <= ip <= |inp|
    ensures LiteralCount(Literals(inp, ii, ip, ts)) <= LiteralCount(ts) + (ip - ii)
  {
    hide LiteralCount;
    if ii < ip {
      if ip - ii < 4 && ts != [] && ts[|ts| - 1].Match? {
        var init, last := ts[..|ts| - 1], ts[|ts| - 1];
        assert ts == init + [last];
        LiteralCountAppend(init, [last]);
        LiteralCountAppend(init, [last.(tail := inp[ii..ip])]);
        OneTail(last.off, last.len, inp[ii..ip]);
      } else {
        OneRun(inp[ii..ip]);
        LiteralCountAppend(ts, [Run(inp[ii..ip])]);
      }
    }
  }

  lemma OneTail(off: nat, len: nat, tail: seq<byte>)
    ensures LiteralCount([Match(off, len, tail)]) == |tail|
  {
    assert [Match(off, len, tail)][..0] == [];
  }

  /** One byte over and over, and a hash that looks at bytes only: the entry of any earlier position leads to a match
      to the end of the data. */
  lemma RepeatIsMatched(inp: seq<byte>, hash: Hash, c: Cursor, h: nat)
    requires forall i, j :: 0 <= i < j < |inp| ==> inp[i] == inp[j]
    requires h < D_SIZE && hash(inp, c.ip) % D_SIZE == h
    requires c.ii <= c.ip && c.ip + 9 < |inp| && |c.dict| == D_SIZE && InReach(c.dict[h], c.ip)
    ensures LiteralCount(Parse(inp, hash, c)) <= LiteralCount(c.ts) + (c.ip - c.ii)
  {
    hide LiteralCount, Literals, Lookup, MatchLen, Turn, Parse;
    ParseOne(inp, hash, c);
    RepeatIsFound(inp, c.ip, c.dict, h);
    var off := c.ip - c.dict[h];
    var ts := Literals(inp, c.ii, c.ip, c.ts);
    LiteralsCount(inp, c.ii, c.ip, c.ts);
    OneMatch(off, |inp| - c.ip);
    LiteralCountAppend(ts, [Match(off, |inp| - c.ip, [])]);
    var end := Cursor(|inp|, |inp|, c.dict[h := c.ip], ts + [Match(off, |inp| - c.ip, [])]);
    ParseLast(inp, hash, end);
    LiteralsCount(inp, |inp|, |inp|, end.ts);
  }

  lemma RepeatIsFound(inp: seq<byte>, ip: nat, dict: seq<int>, h: nat)
    requires forall i, j :: 0 <= i < j < |inp| ==> inp[i] == inp[j]
    requires ip + 9 < |inp| && |dict| == D_SIZE && h < D_SIZE && InReach(dict[h], ip)
    ensures Lookup(inp, ip, dict, h) == (ip - dict[h], h) && SameThree(inp, dict[h], ip)
    ensures MatchLen(inp, ip, ip - dict[h]) == |inp| - ip
  {
    hide Agree;
  }

  /** Of such data only the first byte or two are literals, whatever the work memory held. */
  lemma ConstantData(inp: seq<byte>, junk: seq<int>, hash: Hash, h: nat)
    requires forall i, j :: 0 <= i < j < |inp| ==> inp[i] == inp[j]
    requires h < D_SIZE && forall i :: 0 <= i < |inp| ==> hash(inp, i) % D_SIZE == h
    requires 11 < |inp| && |junk| == D_SIZE
    ensures LiteralCount(Parsed(inp, junk, hash)) <= 2
  {
    hide LiteralCount, Parse, Turn, Literals, Lookup, MatchLen;
    NoTokens();
    var c := Cursor(1, 0, junk, []);
    if InReach(junk[h], 1) {
      RepeatIsMatched(inp, hash, c, h);
    } else {
      ParseOne(inp, hash, c);
      OutOfReach(inp, 1, junk, h);
      RepeatIsMatched(inp, hash, Cursor(2, 0, junk[h := 1], []), h);
    }
  }

  lemma OutOfReach(inp: seq<byte>, ip: nat, dict: seq<int>, h: nat)
    requires ip + 4 <= |inp| && |dict| == D_SIZE && h < D_SIZE && !InReach(dict[h], ip)
    ensures Lookup(inp, ip, dict, h) == (0, h)
  {
  }
}
