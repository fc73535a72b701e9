/** The match finder of the 999 compressors (lzo_swd.ch, lzo_mchw.ch): a ring buffer with the last `n` bytes and the
    next F, hash chains over three bytes, a table over two, and a search that compares as little as it can. Whatever
    the memory held before, a match it reports is one. */
module Swd {
  import opened Bytes
  import opened Window
  import opened SwdHash
  import opened SwdRing

  /** The chain limit of a compressor that sets none. */
  const MAX_CHAIN: nat := 2048

  /** What find_match leaves in the context: the best match, and for each shorter length the offset of some match of
      that length, or 0. */
  datatype Found = Found(len: nat, off: nat, bestOff: seq<nat>)

  function BestOff(m: Found, i: nat): nat {
    if i < |m.bestOff| then m.bestOff[i] else 0
  }

  ghost predicate Within(w: seq<byte>, p: nat, off: nat, len: nat, n: nat) {
    off <= n && Repeats(w, p, off, len)
  }

  /** Every match reported for position `p` is a match, no further back than the window. */
  ghost predicate Sound(w: seq<byte>, p: nat, n: nat, m: Found) {
    m.len >= 2 ==>
      && Within(w, p, m.off, m.len, n)
      && forall i :: 2 <= i && BestOff(m, i) != 0 ==> Within(w, p, BestOff(m, i), i, n)
  }

  /** The candidate at slot `pos` agrees with position `p` for `len` bytes. */
  ghost predicate Hit(w: seq<byte>, lo: nat, p: nat, s: nat, pos: nat, len: nat, q: nat) {
    0 < s && lo <= q < p && pos == Slot(q, s) && Repeats(w, p, p - q, len)
  }

  lemma HitIsMatch(w: seq<byte>, lo: nat, p: nat, s: nat, pos: nat, len: nat, q: nat, n: nat)
    requires Hit(w, lo, p, s, pos, len, q) && p <= lo + n && n < s
    ensures var off := Pos2Off(Slot(p, s), pos, s); 0 < off && Within(w, p, off, len, n)
  {
    Pos2OffIs(p, q, s);
  }

  /** The positions `r` and `p` agree for `len` bytes. */
  ghost predicate Same(w: seq<byte>, p: nat, r: nat, len: nat) {
    r < p && Repeats(w, p, p - r, len)
  }

  lemma SameBytes(w: seq<byte>, p: nat, r: nat, len: nat, i: nat)
    requires Same(w, p, r, len) && i < len
    ensures p + len <= |w| && w[r + i] == w[p + i]
  {
    assert w[p + i] == w[p + i - (p - r)];
  }

  /** No position from `lo` to `hi` agrees with `p` for more than `m` bytes. */
  ghost predicate Beats(w: seq<byte>, p: nat, lo: nat, hi: nat, m: nat) {
    forall r: nat, len: nat :: lo <= r < hi && len <= F && Same(w, p, r, len) ==> len <= m
  }

  /** No match in the window, of lengths up to F, is longer than `m`. */
  ghost predicate Longest(w: seq<byte>, p: nat, n: nat, m: nat) {
    forall off: nat, len: nat :: len <= F && Within(w, p, off, len, n) ==> len <= m
  }

  lemma BeatsIsLongest(w: seq<byte>, p: nat, n: nat, m: nat)
    ensures Longest(w, p, n, m) <==> Beats(w, p, Oldest(p, n), p, m)
  {
    hide Repeats;
    if Beats(w, p, Oldest(p, n), p, m) {
      forall off: nat, len: nat | len <= F && Within(w, p, off, len, n) ensures len <= m {
        WithinReaches(w, p, off, len, n);
        assert Same(w, p, p - off, len);
      }
    }
    if Longest(w, p, n, m) {
      forall r: nat, len: nat | Oldest(p, n) <= r < p && len <= F && Same(w, p, r, len) ensures len <= m {
        assert Within(w, p, p - r, len, n);
      }
    }
  }

  lemma WithinReaches(w: seq<byte>, p: nat, off: nat, len: nat, n: nat)
    requires Within(w, p, off, len, n)
    ensures 1 <= off <= p && Oldest(p, n) <= p - off && p + len <= |w|
  {
  }

  lemma BeatsJoin(w: seq<byte>, p: nat, lo: nat, mid: nat, hi: nat, m: nat, m': nat)
    requires lo <= mid <= hi && Beats(w, p, lo, mid, m) && Beats(w, p, mid, hi, m') && m <= m'
    ensures Beats(w, p, lo, hi, m')
  {
    hide Same;
  }

  /** `r` agrees with `p` for `len` bytes and, within F and the data, for no more. */
  ghost predicate Exact(w: seq<byte>, p: nat, r: nat, len: nat) {
    len <= F && Same(w, p, r, len) && (len == F || !Same(w, p, r, len + 1))
  }

  // ----- how hard the search tries -----

  /** The hash of the three bytes at `q`. */
  function HashAt(w: seq<byte>, q: nat): nat
    requires q + 2 < |w|
  {
    Head3(w[q], w[q + 1], w[q + 2])
  }

  /** How many of the positions from `lo` to `hi` have the hash of `p`. */
  function Alike(w: seq<byte>, p: nat, lo: nat, hi: nat): nat
    requires lo <= hi <= p && p + 2 < |w|
  {
    if lo == hi then 0 else Alike(w, p, lo, hi - 1) + if HashAt(w, hi - 1) == HashAt(w, p) then 1 else 0
  }

  /** The search for `p` ends at `c` with a match of length `m`: it is nice enough, or longer than what the search for
      `c` found (`marks`). */
  ghost predicate EndsAt(w: seq<byte>, p: nat, c: nat, m: nat, nice: nat, marks: seq<nat>)
    requires p + 2 < |w|
  {
    c < p && c < |marks| && HashAt(w, c) == HashAt(w, p) && Same(w, p, c, m) && (nice <= m || marks[c] < m)
  }

  /** No position among the latest `chain` with the hash of `p`, or among all of them if `chain` is 0, agrees with `p`
      for more than `m` bytes, unless the search has ended at a later one. */
  ghost predicate Thorough(w: seq<byte>, p: nat, n: nat, chain: nat, nice: nat, marks: seq<nat>, m: nat) {
    p + 2 < |w| ==>
      forall r: nat, len: nat :: Oldest(p, n) <= r < p && 3 <= len <= F && Same(w, p, r, len) ==>
        || len <= m || (0 < chain <= Alike(w, p, r + 1, p))
        || exists c :: r < c < p && EndsAt(w, p, c, m, nice, marks)
  }

  /** In particular, the latest position with the hash of `p` is always tried. */
  lemma LatestIsTried(w: seq<byte>, p: nat, n: nat, chain: nat, nice: nat, marks: seq<nat>, m: nat, r: nat, len: nat)
    requires Thorough(w, p, n, chain, nice, marks, m)
    requires Oldest(p, n) <= r < p && 3 <= len <= F && Same(w, p, r, len)
    requires forall q :: r < q < p ==> HashAt(w, q) != HashAt(w, p)
    ensures len <= m
  {
    SameInside(w, p, r, len);
    NoneAlike(w, p, r + 1, p);
  }

  lemma {:induction false} NoneAlike(w: seq<byte>, p: nat, lo: nat, hi: nat)
    requires lo <= hi <= p && p + 2 < |w| && forall q :: lo <= q < hi ==> HashAt(w, q) != HashAt(w, p)
    ensures Alike(w, p, lo, hi) == 0
  {
    if lo < hi {
      NoneAlike(w, p, lo, hi - 1);
    }
  }

  /** Nor has it gone on behind a position where it had to end, or further than the chain limit allows. */
  ghost predicate Prompt(w: seq<byte>, p: nat, chain: nat, nice: nat, marks: seq<nat>, m: Found) {
    3 <= m.len && 1 <= m.off <= p && p + 2 < |w| && p <= |marks| ==>
      && (0 < chain ==> Alike(w, p, p - m.off + 1, p) < chain)
      && forall r: nat, len: nat ::
           p - m.off < r < p && 3 <= len && Exact(w, p, r, len) && Beats(w, p, r + 1, p, len - 1)
           ==> len < nice && len <= marks[r]
  }

  /** Nothing nearer agrees for as many bytes. */
  ghost predicate Nearest(w: seq<byte>, p: nat, m: Found) {
    m.len >= 2 ==> m.off <= p && Beats(w, p, p - m.off + 1, p, m.len - 1)
  }

  /** The match is in `bestOff` under its length, and so is every nearer position that agrees for longer than
      everything before it. */
  ghost predicate Recorded(w: seq<byte>, p: nat, m: Found) {
    m.len >= 2 && m.off <= p ==>
      && (m.len < |m.bestOff| ==> m.bestOff[m.len] == m.off)
      && forall r: nat, len: nat ::
           p - m.off <= r < p && 2 <= len <= m.len && len < |m.bestOff|
           && Exact(w, p, r, len) && Beats(w, p, r + 1, p, len - 1)
           ==> m.bestOff[len] == p - r
  }

  /** All that is promised of an answer for position `p`. */
  ghost predicate Reported(w: seq<byte>, p: nat, n: nat, chain: nat, nice: nat, marks: seq<nat>, m: Found) {
    && Sound(w, p, n, m) && m.len <= 2048 && Nearest(w, p, m) && (m.len < 2 ==> Longest(w, p, n, 1))
    && p <= |marks| && Thorough(w, p, n, chain, nice, marks, m.len) && Prompt(w, p, chain, nice, marks, m)
  }

  /** It stays true while the search goes on. */
  lemma ReportedOn(w: seq<byte>, p: nat, n: nat, chain: nat, nice: nat, marks: seq<nat>, more: seq<nat>, m: Found)
    requires Reported(w, p, n, chain, nice, marks, m)
    ensures Reported(w, p, n, chain, nice, marks + more, m)
  {
    hide Sound, Nearest, Longest, HashAt, Alike, Same, Exact, Beats;
    if p + 2 < |w| {
      forall c: nat | c < p && EndsAt(w, p, c, m.len, nice, marks) ensures EndsAt(w, p, c, m.len, nice, marks + more) {
      }
    }
  }

  /** Where the latest position with the same hash agrees for three bytes and more, no shorter match is reported. */
  lemma ReportedLength(w: seq<byte>, p: nat, n: nat, chain: nat, nice: nat, marks: seq<nat>, m: Found, r: nat, len: nat)
    requires Reported(w, p, n, chain, nice, marks, m)
    requires Oldest(p, n) <= r < p && 3 <= len <= F && Same(w, p, r, len)
    requires forall q :: r < q < p ==> HashAt(w, q) != HashAt(w, p)
    ensures len <= m.len
  {
    hide Sound, Nearest, Longest, Thorough, Prompt, Same;
    LatestIsTried(w, p, n, chain, nice, marks, m.len, r, len);
  }

  lemma NothingThereAtEnd(w: seq<byte>, n: nat, m: Found, chain: nat, nice: nat, marks: seq<nat>)
    requires m.len == 0
    ensures Sound(w, |w|, n, m) && Longest(w, |w|, n, 1) && Nearest(w, |w|, m) && Recorded(w, |w|, m)
    ensures Prompt(w, |w|, chain, nice, marks, m)
    ensures Thorough(w, |w|, n, chain, nice, marks, m.len)
  {
  }

  function Tail(dict: seq<byte>, n: nat): (r: seq<byte>)
    ensures |r| <= n
  {
    if |dict| > n then dict[|dict| - n..] else dict
  }

  function Min(a: nat, b: nat): nat {
    if a < b then a else b
  }

  /** The first position whose byte must still be in the ring when the next one is `p`. */
  function Oldest(p: nat, n: nat): nat {
    if p >= n then p - n else 0
  }

  class Finder {
    const n: nat
    const inp: seq<byte>
    const bestCount: nat
    const useBestOff: bool
    const niceLength: nat

    const b: array<byte>
    const head3: array<nat>
    const succ3: array<nat>
    const best3: array<nat>
    const llen3: array<nat>
    const head2: array<nat>

    var maxChain: nat
    var look: nat
    var ip: nat
    var bp: nat
    var rp: nat
    var nodeCount: nat
    var inputPos: nat
    var mLen: nat
    var mOff: nat
    var mPos: nat
    var bChar: int
    var bestPos: seq<nat>
    var bestOff: seq<nat>

    /** The data: the dictionary, of length `d`, and the input. */
    ghost const w: seq<byte>
    ghost const d: nat
    /** The position that stands at `bp`, and the oldest one in the chains. */
    ghost var at: nat
    ghost var low: nat
    ghost var keys3: seq<nat>
    ghost var keys2: seq<nat>
    /** What best3 was set to at each position. */
    ghost var marks: seq<nat>
    /** No chain limit so far could end a search. */
    ghost var unlimited: bool

    ghost function Size(): nat {
      n + F
    }

    ghost predicate Shape() {
      && 2 * F < n && n + 2 * F < NIL2
      && b.Length == n + 2 * F && head3.Length == llen3.Length == HSIZE && head2.Length == 65536
      && succ3.Length == best3.Length == n + F
      && head3 != succ3 && head3 != best3 && head3 != llen3 && head3 != head2
      && succ3 != best3 && succ3 != llen3 && succ3 != head2
      && best3 != llen3 && best3 != head2 && llen3 != head2
      && d <= n && |w| == d + |inp| && w[d..] == inp
    }

    ghost function Memory(): set<object> {
      {this, b, head3, succ3, best3, llen3, head2}
    }

    ghost predicate Placed()
      reads `at, `look, `inputPos, `ip, `bp, `rp
    {
      && Shape() && d <= at <= |w|
      && look == Min(F, |w| - at) && inputPos + d == at + look
      && bp == Slot(at, Size()) && rp == Slot(at + F, Size())
      && ip < Size() && (inputPos < |inp| ==> ip == Slot(at + look, Size()))
    }

    ghost predicate Filled()
      reads `at, `look, b
    {
      Holds(b[..], w, Oldest(at, n), at + look, Size())
    }

    /** The chains for the positions from `low` to `hi`, ... */
    ghost predicate Chains(hi: nat)
      reads `low, `keys3, b, head3, succ3, llen3
    {
      && Keyed3(b[..], low, hi, keys3, Size())
      && Chained(low, hi, keys3, head3[..], succ3[..], llen3[..], Size())
    }

    /** ... and the table of pairs. */
    ghost predicate Pairs(hi: nat)
      reads `low, `keys2, b, head2
    {
      Keyed2(b[..], low, hi, keys2, Size()) && Paired(low, hi, keys2, head2[..], Size())
    }

    /** The number of positions that may still be entered before the oldest has to go. All of the last `n` positions
        are entered, unless there is too little input to find anything. */
    ghost predicate Counted(hi: nat)
      reads `nodeCount, `low
    {
      low <= hi && nodeCount + (hi - low) == n && (nodeCount > 0 && |inp| >= 2 ==> low == 0)
    }

    /** Neither the chain limit nor the nice length has ever ended a search. */
    ghost predicate Exhaustive()
      reads `unlimited
    {
      unlimited && F <= niceLength
    }

    ghost predicate Limited()
      reads `maxChain, `unlimited
    {
      unlimited ==> maxChain == 0 || n <= maxChain
    }

    /** best3 holds what was found at each position, which bounds what can have been found. */
    ghost predicate Judged(hi: nat)
      reads `low, `marks, `maxChain, `unlimited, best3
    {
      && Shape() && Limited() && |marks| == hi
      && (forall q :: low <= q < hi ==> best3[Slot(q, Size())] == marks[q])
      && (Exhaustive() ==> forall q :: low <= q < hi ==> Longest(w, q, n, marks[q]))
    }

    ghost predicate Valid()
      reads this, b, head3, succ3, llen3, best3, head2
    {
      Placed() && Filled() && Chains(at) && Pairs(at) && Counted(at) && Judged(at) && |bestPos| == bestCount
    }

    /** swd_init, with a preset dictionary of which the last `n` bytes count. Nothing is assumed of the memory, save
        for the two tables that are set. */
    constructor (n: nat, dict0: seq<byte>, inp: seq<byte>, bestCount: nat, useBestOff: bool,
                 maxChain: nat, niceLength: nat)
      requires 2 * F < n && n + 2 * F < NIL2
      ensures Valid() && fresh(Memory()) && this.n == n && this.maxChain == maxChain && this.niceLength == niceLength
      ensures this.useBestOff == useBestOff && this.bestCount == bestCount
      ensures Exhaustive() <==> (maxChain == 0 || n <= maxChain) && F <= niceLength
      ensures w == Tail(dict0, n) + inp && at == |Tail(dict0, n)|
    {
      hide Slot, Valid, Tail, Min;
      var dict := Tail(dict0, n);
      this.n, this.inp, this.bestCount, this.useBestOff := n, inp, bestCount, useBestOff;
      this.maxChain, this.niceLength := maxChain, niceLength;
      b := new byte[n + 2 * F];
      head3 := new nat[HSIZE];
      succ3 := new nat[n + F];
      best3 := new nat[n + F];
      llen3 := new nat[HSIZE];
      head2 := new nat[65536];
      nodeCount := n;
      mLen, mOff, mPos, bChar, bestPos, bestOff := 0, 0, 0, 0, seq(bestCount, _ => 0), [];
      w, d, at, low := dict + inp, |dict|, |dict|, |dict|;
      unlimited := maxChain == 0 || n <= maxChain;
      new;
      assert (dict + inp)[|dict|..] == inp;
      Init(dict);
    }

    method Init(dict: seq<byte>)
      requires Shape() && Limited() && at == low == d == |dict| && w == dict + inp
      requires nodeCount == n && |bestPos| == bestCount
      modifies Memory()
      ensures Valid() && at == |dict| && maxChain == old(maxChain) && unlimited == old(unlimited)
    {
      hide Slot, Chains, Pairs, Judged, Holds, Limited, Cleared;
      keys3, keys2, marks := seq(|dict|, _ => 0), seq(|dict|, _ => 0), seq(|dict|, _ => 0);
      ClearTables();
      Load(dict);
      NothingEntered();
      Start(|dict|);
    }

    /** Nothing entered. */
    ghost predicate Cleared()
      requires Shape()
      reads llen3, head2
    {
      (forall k :: 0 <= k < HSIZE ==> llen3[k] == 0) && (forall k :: 0 <= k < 65536 ==> head2[k] == NIL2)
    }

    /** The two memsets. */
    method ClearTables()
      requires Shape()
      modifies llen3, head2
      ensures Cleared()
    {
      forall k | 0 <= k < HSIZE {
        llen3[k] := 0;
      }
      forall k | 0 <= k < 65536 {
        head2[k] := NIL2;
      }
    }

    /** swd_initdict and the first bytes of the input. */
    method Load(dict: seq<byte>)
      requires Shape() && at == d == |dict| && w == dict + inp
      modifies `look, `inputPos, `ip, `bp, b
      ensures Filled() && look == inputPos == Min(F, |inp|) && bp == at == Slot(at, Size())
      ensures ip < Size() && ip == Slot(at + look, Size())
    {
      CopyLiterals(b, 0, dict, 0, |dict|);
      look := Min(F, |inp|);
      CopyLiterals(b, |dict|, inp, 0, look);
      FirstFilled(dict);
      inputPos, bp := look, |dict|;
      ip := if |dict| + look == n + F then 0 else |dict| + look;
    }

    lemma FirstFilled(dict: seq<byte>)
      requires Shape() && at == d == |dict| && look == Min(F, |inp|) && w == dict + inp
      requires b[..d + look] == dict + inp[..look]
      ensures Filled()
    {
    }

    lemma NothingEntered()
      requires Shape() && Limited() && low == |keys3| == |keys2| == |marks| && Cleared()
      ensures Chains(low) && Pairs(low) && Judged(low)
    {
    }

    /** Enter the dictionary, and find out which position is to be removed first. */
    method Start(len: nat)
      requires Shape() && at == low == len == d && bp == at && look == Min(F, |inp|)
      requires Chains(at) && Pairs(at) && Judged(at) && Limited() && nodeCount == n && Cleared()
      modifies `rp, `nodeCount, `low, `keys3, `keys2, `marks, head3, succ3, best3, llen3, head2
      ensures Chains(at) && Pairs(at) && Judged(at) && Counted(at) && rp == Slot(at + F, Size())
    {
      hide Chains, Pairs, Judged;
      var firstRp := bp;
      if look >= 2 && len > 0 {
        InsertDict(len);
        firstRp := 0;
      }
      rp := if firstRp >= nodeCount then firstRp - nodeCount else firstRp + (n + F - nodeCount);
    }

    /** swd_insertdict: enter all of the dictionary. The look-ahead has at least two bytes, which the last keys need. */
    method InsertDict(len: nat)
      requires Shape() && Limited() && at == len <= n && Cleared()
      modifies `nodeCount, `low, `keys3, `keys2, `marks, head3, succ3, best3, llen3, head2
      ensures Chains(at) && Pairs(at) && Judged(at) && low == 0 && nodeCount + at == n
    {
      hide Chains, Pairs, Judged;
      low, keys3, keys2, marks := 0, [], [], [];
      NothingEntered();
      nodeCount := n - len;
      var node: nat := 0;
      while node < len
        invariant node <= len && low == 0 && nodeCount == n - len
        invariant Chains(node) && Pairs(node) && Judged(node)
      {
        var _, _ := Enter3(node, node);
        SetBest(node, node, F + 1);
        Enter2(node, node);
        node := node + 1;
      }
    }

    // ----- the ring -----

    function HashThree(slot: nat): (key: nat)
      requires slot + 2 < b.Length
      reads b
      ensures key == Key3(b[..], slot)
    {
      Head3(b[slot], b[slot + 1], b[slot + 2])
    }

    function HashTwo(slot: nat): (key: nat)
      requires slot + 1 < b.Length
      reads b
      ensures key == Key2(b[..], slot)
    {
      Head2(b[slot], b[slot + 1])
    }

    function Next(i: nat): nat {
      if i + 1 == n + F then 0 else i + 1
    }

    lemma NextSlot(q: nat, i: nat)
      requires Shape() && i == Slot(q, Size())
      ensures Next(i) == Slot(q + 1, Size())
    {
      SlotAhead(q, 1, Size());
    }

    /** The byte behind the look-ahead goes into the ring. */
    method Store(c: byte)
      requires Placed() && Filled() && Chains(at + 1) && Pairs(at + 1) && Counted(at + 1)
      requires inputPos < |inp| && c == inp[inputPos]
      modifies b
      ensures Holds(b[..], w, Oldest(at + 1, n), at + look + 1, Size()) && Chains(at + 1) && Pairs(at + 1)
    {
      hide Slot, Holds, Keyed3, Keyed2, Chained, Paired;
      ghost var b0, a := b[..], at + look;
      assert w[d..][inputPos] == w[a];
      StoredHolds(b0, w, Oldest(at, n), a, Oldest(at + 1, n), Size());
      StoredKeyed(b0, low, at + 1, keys3, keys2, Size(), a, w[a]);
      b[ip] := c;
      if ip < F {
        b[n + F + ip] := c;
      }
      assert b[..] == Stored(b0, ip, w[a], Size());
    }

    /** swd_getbyte: the next byte of the input into the ring, and all pointers one on. */
    method GetByte()
      requires Placed() && Filled() && Chains(at + 1) && Pairs(at + 1) && Counted(at + 1) && Judged(at + 1)
      requires |bestPos| == bestCount
      modifies `look, `inputPos, `ip, `bp, `rp, `at, b
      ensures at == old(at) + 1 && (at <= |w| ==> Valid())
    {
      hide Slot, Holds, Chains, Pairs, Judged, Counted;
      NextSlot(at, bp);
      NextSlot(at + F, rp);
      if inputPos < |inp| {
        NextSlot(at + look, ip);
        Store(inp[inputPos]);
        inputPos := inputPos + 1;
      } else {
        HoldsOn(b[..], w, Oldest(at, n), Oldest(at + 1, n), at + look, Size());
        if look > 0 {
          look := look - 1;
        }
      }
      ip, bp, rp := Next(ip), Next(bp), Next(rp);
      at := at + 1;
    }

    // ----- entering and removing -----

    /** When the window is full, the position to be removed stands at `rp`. */
    lemma RemovesOldest()
      requires Placed() && Counted(at)
      ensures nodeCount == 0 ==> low < at && rp == Slot(low, Size())
    {
      SlotAhead(low, Size(), Size());
    }

    /** swd_remove_node: once the window is full, its oldest position leaves the chains. */
    method RemoveNode(node: nat, ghost hi: nat, ghost hi2: nat)
      requires Shape() && Chains(hi) && Pairs(hi2) && hi <= low + Size() && hi2 <= hi
      requires nodeCount == 0 ==> low < hi2 && node == Slot(low, Size())
      modifies `nodeCount, `low, llen3, head2
      ensures Chains(hi) && Pairs(hi2) && (old(Judged(hi)) ==> Judged(hi))
      ensures low == if old(nodeCount) == 0 then old(low) + 1 else old(low)
      ensures nodeCount == if old(nodeCount) == 0 then 0 else old(nodeCount) - 1
    {
      hide Slot, Holds, Keyed3, Keyed2, Chained, Paired, Key3, Key2;
      if nodeCount == 0 {
        KeysFirst(b[..], low, hi, hi2, keys3, keys2, Size());
        RemoveChained(low, hi, keys3, head3[..], succ3[..], llen3[..], Size());
        RemovePaired(low, hi2, keys2, head2[..], Size());
        ghost var heads, counts := head2[..], llen3[..];
        var key := HashThree(node);
        llen3[key] := llen3[key] - 1;
        assert llen3[..] == counts[key := counts[key] - 1];
        key := HashTwo(node);
        if head2[key] == node {
          head2[key] := NIL2;
        }
        assert head2[..] == if heads[key] == node then heads[key := NIL2] else heads;
        low := low + 1;
      } else {
        nodeCount := nodeCount - 1;
      }
    }

    /** Make room for one more position. */
    method RemoveOldest(ghost hi: nat)
      requires Placed() && Counted(at) && Chains(hi) && Pairs(at) && at <= hi <= at + 1
      modifies `nodeCount, `low, llen3, head2
      ensures Chains(hi) && Pairs(at) && Counted(at + 1) && (old(Judged(hi)) ==> Judged(hi)) && low <= at < low + Size()
    {
      hide Slot, Chains, Pairs, Judged;
      RemovesOldest();
      RemoveNode(rp, hi, at);
    }

    /** Position `q` at `slot` becomes the head of its chain. */
    method Enter3(slot: nat, ghost q: nat) returns (node: nat, cnt: nat)
      requires Shape() && Chains(q) && slot == Slot(q, Size()) && q < low + Size()
      modifies `keys3, head3, succ3, llen3
      ensures Chains(q + 1) && |keys3| == q + 1 && keys3[..q] == old(keys3)
      ensures slot + 2 < b.Length && keys3[q] == Key3(b[..], slot)
      ensures node == old(head3[Key3(b[..], slot)]) && cnt == old(llen3[Key3(b[..], slot)])
    {
      hide Slot, Holds, Keyed3, Chained, Key3;
      EnterKeyed3(b[..], low, q, keys3, Size());
      ghost var heads: seq<nat>, succs: seq<nat>, counts: seq<nat> := head3[..], succ3[..], llen3[..];
      var key := HashThree(slot);
      EnterChained(low, q, keys3, heads, succs, counts, Size(), key);
      node, cnt := head3[key], llen3[key];
      succ3[slot] := node;
      head3[key] := slot;
      llen3[key] := cnt + 1;
      assert head3[..] == heads[key := slot];
      assert succ3[..] == succs[slot := node];
      assert llen3[..] == counts[key := counts[key] + 1];
      keys3 := keys3 + [key];
    }

    /** And the entry for its first two bytes. */
    method Enter2(slot: nat, ghost q: nat)
      requires Shape() && Pairs(q) && slot == Slot(q, Size()) && slot + 1 < b.Length
      modifies `keys2, head2
      ensures Pairs(q + 1)
    {
      hide Slot, Holds, Keyed2, Paired, Key2;
      EnterKeyed2(b[..], low, q, keys2, Size());
      ghost var heads: seq<nat> := head2[..];
      var key := HashTwo(slot);
      EnterPaired(low, q, keys2, heads, Size(), key);
      head2[key] := slot;
      assert head2[..] == heads[key := slot];
      keys2 := keys2 + [key];
    }

    /** best3 for a position on which `len` is the last word. */
    method SetBest(slot: nat, ghost q: nat, len: nat)
      requires Judged(q) && slot == Slot(q, Size()) && q < low + Size() && low <= q
      requires Exhaustive() ==> Longest(w, q, n, len)
      modifies `marks, best3
      ensures Judged(q + 1) && marks == old(marks) + [len]
    {
      hide Slot, Longest;
      best3[slot] := len;
      marks := marks + [len];
      forall r | low <= r < q ensures Slot(r, Size()) != slot {
        SlotsDiffer(r, q, Size());
      }
    }

    /** swd_accept: enter the next `k` positions without a search. */
    method Accept(k: nat)
      requires Valid() && at + k <= |w|
      modifies Memory()
      ensures Valid() && at == old(at) + k && marks == old(marks) + Passed(k)
      ensures maxChain == old(maxChain) && unlimited == old(unlimited)
    {
      hide Placed, Filled, Chains, Pairs, Counted, Judged;
      var left: nat := k;
      while left > 0
        invariant Valid() && left <= k && at == old(at) + (k - left) && marks == old(marks) + Passed(k - left)
        invariant maxChain == old(maxChain) && unlimited == old(unlimited)
      {
        AcceptOne();
        left := left - 1;
      }
    }

    method AcceptOne()
      requires Valid() && at < |w|
      modifies `look, `inputPos, `ip, `bp, `rp, `at, `nodeCount, `low, `keys3, `keys2, `marks,
        b, head3, succ3, llen3, best3, head2
      ensures Valid() && at == old(at) + 1 && marks == old(marks) + [F + 1]
    {
      hide Slot, Filled, Chains, Pairs, Counted, Judged, Longest, Exhaustive;
      RemoveOldest(at);
      var _, _ := Enter3(bp, at);
      NeverLonger(at);
      SetBest(bp, at, F + 1);
      Enter2(bp, at);
      GetByte();
    }

    /** The marks of `k` positions without a search. */
    ghost function Passed(k: nat): (s: seq<nat>)
      ensures |s| == k
    {
      seq(k, _ => F + 1)
    }

    lemma NeverLonger(q: nat)
      ensures Longest(w, q, n, F + 1)
    {
    }

    // ----- the search -----

    /** Some entered position at slot `pos` agrees with the current one for `len` bytes. */
    ghost predicate Agrees(pos: nat, len: nat)
      reads `low, `at
    {
      exists q :: Hit(w, low, at, Size(), pos, len, q)
    }

    ghost predicate BestAgree()
      reads `low, `at, `bestPos
    {
      |bestPos| == bestCount && forall i :: 2 <= i < |bestPos| && bestPos[i] != 0 ==> Agrees(bestPos[i] - 1, i)
    }

    /** The same, and nothing nearer agrees for as many. */
    ghost predicate NearHit(pos: nat, len: nat)
      reads `low, `at
    {
      0 < len && exists q: nat :: Hit(w, low, at, Size(), pos, len, q) && Beats(w, at, q + 1, at, len - 1)
    }

    /** What the search has found so far. */
    ghost predicate FoundSoFar()
      reads `low, `at, `mLen, `mPos, `bestPos
    {
      && |bestPos| == bestCount && (mLen >= 2 ==> NearHit(mPos, mLen))
      && (useBestOff ==>
            && BestAgree() && (forall i :: 2 <= i < bestCount && mLen < i ==> bestPos[i] == 0)
            && (2 <= mLen < bestCount ==> bestPos[mLen] == mPos + 1))
    }

    /** The positions down to `q` that agree for longer than everything nearer are noted. */
    ghost predicate Noted(q: nat)
      reads `low, `at, `bestPos
    {
      useBestOff && |bestPos| == bestCount ==>
        forall r: nat, len: nat ::
          low <= r < at && (q <= r || len == 2) && 2 <= len < bestCount && Exact(w, at, r, len)
          && Beats(w, at, r + 1, at, len - 1)
          ==> 0 < Size() && bestPos[len] == Slot(r, Size()) + 1
    }

    /** Behind none of the positions from `q` on had the search to end. */
    ghost predicate Unended(q: nat)
      reads `at, `look, `marks
    {
      forall r: nat, len: nat ::
        q <= r < at && 3 <= len && Exact(w, at, r, len) && Beats(w, at, r + 1, at, len - 1)
        ==> len != look && len < niceLength && r < |marks| && len <= marks[r]
    }

    /** Why the search may end at the candidate `c`. */
    ghost predicate EndsHere(c: nat)
      reads `at, `look, `keys3, `mLen, `marks
    {
      mLen == look ||
      (c < at < |keys3| && c < |marks| && keys3[c] == keys3[at] && Same(w, at, c, mLen)
       && (niceLength <= mLen || marks[c] < mLen))
    }

    /** What the search works on: the position at `bp` has just been entered into its chain. */
    ghost predicate Searching()
      reads `at, `look, `inputPos, `ip, `bp, `rp, `low, `keys3, `keys2, b, head3, succ3, llen3, head2
    {
      Placed() && Filled() && Chains(at + 1) && Pairs(at) && low <= at <= low + n
    }

    lemma ByteAt(q: nat, k: nat)
      requires Searching() && low <= q <= at && q + k < at + look && k <= F
      ensures Slot(q, Size()) + k < b.Length && b[Slot(q, Size()) + k] == w[q + k]
    {
      hide Slot, Holds, Chains, Pairs;
      ReadOn(b[..], w, Oldest(at, n), at + look, Size(), q, k);
    }

    lemma KeyAt(q: nat)
      requires Searching() && low <= q <= at
      ensures |keys3| == at + 1 && Slot(q, Size()) + 2 < b.Length && keys3[q] == Key3(b[..], Slot(q, Size()))
    {
      hide Slot, Filled, Chained, Pairs, Key3;
    }

    lemma PairAt(q: nat)
      requires Searching() && low <= q <= at
      ensures |keys2| == at && Slot(q, Size()) + 2 < b.Length
      ensures q < at ==> keys2[q] == Key2(b[..], Slot(q, Size()))
    {
      hide Slot, Filled, Chains, Paired, Key2;
    }

    /** Two bytes equal and the same hash: three bytes equal. */
    lemma ThreeAgree(q: nat)
      requires Searching() && low <= q < at && 3 <= look && |keys3| == at + 1 && keys3[q] == keys3[at]
      requires b[Slot(q, Size())] == b[bp] && b[Slot(q, Size()) + 1] == b[bp + 1]
      ensures Repeats(w, at, at - q, 3)
    {
      hide Slot, Filled, Chains, Pairs, Head3;
      KeyAt(q);
      KeyAt(at);
      ghost var slot := Slot(q, Size());
      ThirdByteTold(b[bp], b[bp + 1], b[slot + 2], b[bp + 2]);
      ByteAt(q, 0);
      ByteAt(q, 1);
      ByteAt(q, 2);
      ByteAt(at, 0);
      ByteAt(at, 1);
      ByteAt(at, 2);
    }

    /** Three bytes equal: the same hash. */
    lemma SameKey(q: nat, len: nat)
      requires Searching() && low <= q < at && 3 <= len <= look && Same(w, at, q, len)
      ensures |keys3| == at + 1 && keys3[q] == keys3[at]
    {
      hide Slot, Filled, Chains, Pairs, Head3;
      KeyAt(q);
      KeyAt(at);
      ByteAt(q, 0);
      ByteAt(q, 1);
      ByteAt(q, 2);
      ByteAt(at, 0);
      ByteAt(at, 1);
      ByteAt(at, 2);
      SameBytes(w, at, q, len, 0);
      SameBytes(w, at, q, len, 1);
      SameBytes(w, at, q, len, 2);
    }

    /** Two bytes equal if and only if the same entry in the table. */
    lemma SamePair(q: nat)
      requires Searching() && low <= q < at && 2 <= look
      ensures |keys2| == at && bp + 1 < b.Length
      ensures keys2[q] == Key2(b[..], bp) <==> Same(w, at, q, 2)
    {
      hide Slot, Filled, Chains, Pairs;
      PairAt(q);
      PairAt(at);
      ByteAt(q, 0);
      ByteAt(q, 1);
      ByteAt(at, 0);
      ByteAt(at, 1);
      if Same(w, at, q, 2) {
        SameBytes(w, at, q, 2, 0);
        SameBytes(w, at, q, 2, 1);
      }
    }

    /** How far the candidate at `node` agrees, three bytes being known. */
    method Compare(node: nat, ghost q: nat) returns (i: nat)
      requires Searching() && low <= q < at && node == Slot(q, Size()) && 3 <= look && Repeats(w, at, at - q, 3)
      ensures 3 <= i <= look && Repeats(w, at, at - q, i) && (i < look ==> w[at + i] != w[q + i])
    {
      hide Slot, Filled, Chains, Pairs;
      i := 3;
      while i < look
        invariant 3 <= i <= look && Repeats(w, at, at - q, i)
      {
        ByteAt(q, i);
        ByteAt(at, i);
        if b[bp + i] != b[node + i] {
          return;
        }
        i := i + 1;
      }
    }

    /** From slot `node` on, `cnt` candidates stand before position `q`: all that are left, or as many as the chain
        limit leaves. */
    ghost predicate Candidates(node: nat, cnt: nat, q: nat)
      reads `maxChain, `at, `low, `keys3
    {
      && low <= q <= at && |keys3| == at + 1 && 0 < Size()
      && cnt <= Count(keys3, low, q, keys3[at])
      && (cnt == Count(keys3, low, q, keys3[at]) || (0 < maxChain && cnt + Count(keys3, q, at, keys3[at]) == maxChain))
      && (0 < maxChain ==> cnt + Count(keys3, q, at, keys3[at]) <= maxChain)
      && (cnt > 0 ==> node == LatestSlot(keys3, low, q, keys3[at], Size()))
    }

    lemma NextCandidate(node: nat, cnt: nat, q: nat) returns (c: nat)
      requires Searching() && Candidates(node, cnt, q) && 0 < cnt
      ensures low <= c < q && node == Slot(c, Size()) && node < succ3.Length && keys3[c] == keys3[at]
      ensures Candidates(succ3[node], cnt - 1, c)
      ensures forall r :: c < r < q ==> keys3[r] != keys3[at]
    {
      hide Slot, Filled, Keyed3, Chained, Pairs, Count, Latest;
      var k := keys3[at];
      ChainOn(low, at + 1, keys3, head3[..], succ3[..], llen3[..], Size(), q, k);
      c := Latest(keys3, low, q, k);
      CountSplit(keys3, low, q, at, k);
      CountSplit(keys3, low, c, at, k);
      forall r | c < r < q ensures keys3[r] != k {
        BehindLatest(keys3, low, q, k, r);
      }
    }

    /** Positions with another hash agree for two bytes at most. */
    lemma OtherKeys(lo: nat, hi: nat)
      requires Searching() && low <= lo <= hi <= at && |keys3| == at + 1
      requires forall r :: lo <= r < hi ==> keys3[r] != keys3[at]
      ensures Beats(w, at, lo, hi, 2)
    {
      hide Slot, Filled, Chains, Pairs, Repeats;
      forall r: nat, len: nat | lo <= r < hi && len <= F && Same(w, at, r, len) ensures len <= 2 {
        SameInside(w, at, r, len);
        if len > 2 {
          SameKey(r, len);
        }
      }
    }

    lemma LookIsMost(lo: nat, hi: nat)
      requires Placed()
      ensures Beats(w, at, lo, hi, look)
    {
      hide Repeats;
      forall r: nat, len: nat | lo <= r < hi && len <= F && Same(w, at, r, len) ensures len <= look {
        SameInside(w, at, r, len);
      }
    }

    /** Why the search may stop at a candidate that agrees for longer than anything before it did with anything
        earlier: what agrees with the current position for still longer would agree with the candidate too. */
    lemma EarlierAreShorter(c: nat, i: nat)
      requires Placed() && Judged(at) && Exhaustive() && low <= c < at && Oldest(at, n) <= low
      requires Same(w, at, c, i) && i <= look && best3[Slot(c, Size())] < i
      ensures Beats(w, at, low, c, i)
    {
      hide Slot, Repeats;
      BeatsIsLongest(w, c, n, best3[Slot(c, Size())]);
      forall r: nat, len: nat | low <= r < c && len <= F && Same(w, at, r, len) ensures len <= i {
        if len > i {
          SameBoth(w, at, c, r, i, len);
        }
      }
    }

    lemma NewHit(node: nat, i: nat, q: nat)
      requires Searching() && low <= q < at && node == Slot(q, Size()) && Repeats(w, at, at - q, i)
      ensures Agrees(node, i)
      ensures 0 < i && Beats(w, at, q + 1, at, i - 1) ==> NearHit(node, i)
    {
      assert Hit(w, low, at, Size(), node, i, q);
    }

    /** A candidate that fails at one of the four bytes does not agree for more than `m` bytes. */
    lemma Refuted(c: nat, m: nat)
      requires Searching() && low <= c < at && 2 <= m < look
      requires var s := Slot(c, Size());
               s + m < b.Length && (b[s + m - 1] != b[bp + m - 1] || b[s + m] != b[bp + m]
                                    || b[s] != b[bp] || b[s + 1] != b[bp + 1])
      ensures Beats(w, at, c, c + 1, m)
    {
      hide Slot, Filled, Chains, Pairs, Repeats;
      forall len: nat | len <= F && Same(w, at, c, len) ensures len <= m {
        if len > m {
          SameInside(w, at, c, len);
          EqualByte(c, len, 0);
          EqualByte(c, len, 1);
          EqualByte(c, len, m - 1);
          EqualByte(c, len, m);
        }
      }
    }

    lemma EqualByte(c: nat, len: nat, i: nat)
      requires Searching() && low <= c < at && Same(w, at, c, len) && i < len && i < look
      ensures Slot(c, Size()) + i < b.Length && b[Slot(c, Size()) + i] == b[bp + i]
    {
      hide Slot, Filled, Chains, Pairs, Repeats;
      SameBytes(w, at, c, len, i);
      ByteAt(c, i);
      ByteAt(at, i);
    }

    /** One that was compared does not agree for longer than found. */
    lemma Compared(c: nat, i: nat)
      requires Searching() && low <= c < at && i <= look && (i < look ==> w[at + i] != w[c + i])
      requires Same(w, at, c, i)
      ensures Beats(w, at, c, c + 1, i) && Exact(w, at, c, i)
    {
      hide Repeats, Filled, Chains, Pairs;
      if Same(w, at, c, i + 1) {
        SameInside(w, at, c, i + 1);
        if i < look {
          SameBytes(w, at, c, i + 1, i);
        }
      }
      forall len: nat | len <= F && Same(w, at, c, len) ensures len <= i {
        SameInside(w, at, c, len);
        if len > i {
          SameBytes(w, at, c, len, i);
        }
      }
    }

    lemma EnoughFound(c: nat, i: nat)
      requires Searching() && low <= c < at && i <= look && Repeats(w, at, at - c, i)
      requires i == look || i >= niceLength || i > best3[Slot(c, Size())]
      ensures Exhaustive() && Judged(at) ==> Beats(w, at, low, c, i)
    {
      hide Slot, Filled, Chains, Pairs, Repeats, Beats, Judged;
      LookIsMost(low, c);
      if Exhaustive() && Judged(at) && i < look {
        EarlierAreShorter(c, i);
      }
    }

    /** The bytes at the end of the best match so far are compared first; the third byte is left to the hash. */
    method Promising(node: nat, ghost c: nat) returns (yes: bool)
      requires Searching() && low <= c < at && node == Slot(c, Size())
      requires |keys3| == at + 1 && keys3[c] == keys3[at] && 3 <= look && 2 <= mLen < look
      ensures if yes then Repeats(w, at, at - c, 3) else Beats(w, at, c, c + 1, mLen)
    {
      hide Slot, Filled, Chains, Pairs, Repeats, Beats;
      ByteAt(c, mLen);
      ByteAt(c, 1);
      if b[node + mLen - 1] == b[bp + mLen - 1] && b[node + mLen] == b[bp + mLen]
        && b[node] == b[bp] && b[node + 1] == b[bp + 1]
      {
        ThreeAgree(c);
        return true;
      }
      Refuted(c, mLen);
      return false;
    }

    /** What is known of the positions from `q` on: none agrees for more than the best, and what is noted is noted. */
    ghost predicate Tried(q: nat)
      reads `low, `at, `mLen, `bestPos
    {
      && low <= q <= at && 2 <= mLen && Beats(w, at, q, at, mLen) && Noted(q)
      && (mLen == 2 || !Beats(w, at, q, at, mLen - 1))
    }

    /** What is beaten by what was tried before needs no noting. */
    lemma TriedMore(q: nat, q': nat)
      requires Tried(q) && low <= q' <= q && Beats(w, at, q', q, mLen)
      ensures Tried(q')
    {
      hide Same, Agrees, Exact;
      BeatsJoin(w, at, q', q, at, mLen, mLen);
      forall r: nat, len: nat |
        q' <= r < q && 2 <= len < bestCount && Exact(w, at, r, len) && Beats(w, at, r + 1, at, len - 1)
        ensures len == 2
      {
        BeatsAt(w, at, q', q, mLen, r, len);
        NoNewBest(q, r, len);
      }
      if mLen > 2 {
        NotBeats(w, at, q', q, at, mLen - 1, mLen - 1);
      }
    }

    lemma NoNewBest(q: nat, r: nat, len: nat)
      requires Tried(q) && low <= r < q && 2 <= len <= mLen
      ensures mLen == 2 || !Beats(w, at, r + 1, at, len - 1)
    {
      hide Same, Noted;
      if mLen > 2 {
        NotBeats(w, at, r + 1, q, at, len - 1, mLen - 1);
      }
    }

    /** The new best of `i` bytes leaves nothing nearer for as many. */
    lemma TriedBetter(c: nat, i: nat, m: nat)
      requires low <= c < at && 2 <= m < i && Same(w, at, c, i) && i <= F
      requires Beats(w, at, c + 1, at, m) && Beats(w, at, c, c + 1, i)
      ensures Beats(w, at, c, at, i) && Beats(w, at, c + 1, at, i - 1) && !Beats(w, at, c, at, i - 1)
    {
      hide Same;
      BeatsMore(w, at, c + 1, at, m, i);
      BeatsMore(w, at, c + 1, at, m, i - 1);
      BeatsJoin(w, at, c, c + 1, at, i, i);
    }

    /** The candidate at hand is the only one that is new in the notes. */
    lemma NotedNow(c: nat, i: nat, before: seq<nat>)
      requires useBestOff && |bestPos| == |before| == bestCount && 0 < Size()
      requires low <= c < at && 3 <= i && Exact(w, at, c, i) && Beats(w, at, c + 1, at, i - 1)
      requires i < bestCount ==> bestPos == before[i := Slot(c, Size()) + 1]
      requires i >= bestCount ==> bestPos == before
      requires forall r: nat, len: nat ::
                 low <= r < at && (c + 1 <= r || len == 2) && 2 <= len < bestCount && Exact(w, at, r, len)
                 && Beats(w, at, r + 1, at, len - 1)
                 ==> before[len] == Slot(r, Size()) + 1
      ensures Noted(c)
    {
      hide Slot;
      forall r: nat, len: nat |
        low <= r < at && (c <= r || len == 2) && 2 <= len < bestCount && Exact(w, at, r, len)
        && Beats(w, at, r + 1, at, len - 1)
        ensures bestPos[len] == Slot(r, Size()) + 1
      {
        if r == c {
          ExactOnce(w, at, c, i, len);
        } else if c < r {
          BeatsAt(w, at, c + 1, at, i - 1, r, len);
        }
      }
    }

    /** What a candidate that agrees for `i` bytes changes. The first of each length is kept for best_off. */
    method Take(node: nat, ghost c: nat, i: nat) returns (better: bool)
      requires Searching() && low <= c < at && node == Slot(c, Size()) && 3 <= i <= look && Exact(w, at, c, i)
      requires Beats(w, at, c, c + 1, i) && 2 <= mLen && FoundSoFar() && Tried(c + 1)
      modifies `mLen, `mPos, `bestPos
      ensures better == (i > old(mLen)) && mLen == (if better then i else old(mLen))
      ensures FoundSoFar() && Tried(c)
    {
      hide Slot, Filled, Chains, Pairs, Repeats, Exact, Beats, Hit;
      ghost var notes, m := bestPos, mLen;
      assert Same(w, at, c, i) by { ExactIsSame(); }
      NewHit(node, i, c);
      if i < bestCount && bestPos[i] == 0 {
        bestPos := bestPos[i := node + 1];
      }
      better := i > mLen;
      if better {
        TriedBetter(c, i, m);
        mLen, mPos := i, node;
        if useBestOff {
          NotedNow(c, i, notes);
        }
      } else {
        BeatsMore(w, at, c, c + 1, i, m);
        KeptNotes(c + 1, notes);
        TriedMore(c + 1, c);
      }
    }

    /** Filling a free note changes none that is needed. */
    lemma KeptNotes(q: nat, before: seq<nat>)
      requires |bestPos| == |before| == bestCount && 0 < Size() && low <= q <= at
      requires forall i :: 0 <= i < bestCount && before[i] != 0 ==> bestPos[i] == before[i]
      requires useBestOff ==> forall r: nat, len: nat ::
                 low <= r < at && (q <= r || len == 2) && 2 <= len < bestCount && Exact(w, at, r, len)
                 && Beats(w, at, r + 1, at, len - 1)
                 ==> before[len] == Slot(r, Size()) + 1
      ensures Noted(q)
    {
      hide Slot, Exact, Beats;
    }

    lemma ExactIsSame()
      ensures forall p: nat, r: nat, len: nat :: Exact(w, p, r, len) ==> Same(w, p, r, len)
    {
    }

    /** A candidate that does not do better than the best so far is no place to end. */
    lemma UnendedWorse(c: nat, m: nat)
      requires Unended(c + 1) && Tried(c + 1) && m == mLen && low <= c && Beats(w, at, c, c + 1, m)
      ensures Unended(c)
    {
      hide Exact, Beats, Noted;
      forall len: nat | 3 <= len && Exact(w, at, c, len) ensures !Beats(w, at, c + 1, at, len - 1) {
        BeatsAt(w, at, c, c + 1, m, c, len);
        NoNewBest(c + 1, c, len);
      }
    }

    lemma UnendedBetter(c: nat, i: nat)
      requires Unended(c + 1) && c < at && Exact(w, at, c, i) && |marks| == at
      requires i != look && i < niceLength && i <= marks[c]
      ensures Unended(c)
    {
      hide Exact, Beats;
      forall len: nat | Exact(w, at, c, len) ensures len == i {
        ExactOnce(w, at, c, i, len);
      }
    }

    /** One candidate. */
    method Try(node: nat, ghost c: nat) returns (enough: bool)
      requires Searching() && low <= c < at && node == Slot(c, Size())
      requires |keys3| == at + 1 && keys3[c] == keys3[at]
      requires 3 <= look && 2 <= mLen < look && FoundSoFar() && Tried(c + 1) && Judged(at) && Unended(c + 1)
      modifies `mLen, `mPos, `bestPos
      ensures 2 <= mLen <= look && (!enough ==> mLen < look && Unended(c)) && FoundSoFar() && Tried(c)
      ensures enough ==> EndsHere(c) && (Exhaustive() ==> Beats(w, at, low, c, mLen))
    {
      hide Slot, Filled, Chains, Pairs, Repeats, Agrees, Beats, FoundSoFar, Tried, Exhaustive, Unended, Exact;
      ghost var m := mLen;
      TriedParts(c + 1);
      var promising := Promising(node, c);
      if !promising {
        TriedMore(c + 1, c);
        UnendedWorse(c, m);
        return false;
      }
      var i := Compare(node, c);
      Compared(c, i);
      if i <= m {
        BeatsMore(w, at, c, c + 1, i, m);
        UnendedWorse(c, m);
      }
      var better := Take(node, c, i);
      if better && (mLen == look || mLen >= niceLength || mLen > best3[node]) {
        EnoughFound(c, i);
        return true;
      }
      if better {
        UnendedBetter(c, i);
      }
      return false;
    }

    /** swd_search: try at most `cnt0` candidates. What it has passed over is no better than what it found. */
    method Search(node0: nat, cnt0: nat) returns (ghost q: nat)
      requires Searching() && Candidates(node0, cnt0, at) && 3 <= look && 2 == mLen && FoundSoFar() && Judged(at)
      requires Tried(at)
      modifies `mLen, `mPos, `bestPos
      ensures 2 <= mLen <= look && FoundSoFar() && Tried(q) && (Exhaustive() ==> Beats(w, at, low, at, mLen))
      ensures Unended(q + 1) && WithinLimit(q) && (EndsHere(q) || NoneBefore(q))
    {
      hide Slot, Filled, Chains, Pairs, Beats, Judged, FoundSoFar, Exhaustive, Candidates, Tried, EndsHere, Unended,
        WithinLimit, NoneBefore;
      var node: nat, cnt: nat := node0, cnt0;
      q := at;
      KeyAt(at);
      NothingEnded();
      while cnt > 0
        invariant Candidates(node, cnt, q) && low <= q <= at && |keys3| == at + 1
        invariant 2 <= mLen < look && FoundSoFar() && Tried(q) && Unended(q)
        decreases cnt
      {
        ghost var c := NextCandidate(node, cnt, q);
        OtherKeys(c + 1, q);
        MoreTried(q, c + 1);
        MoreUnended(q, c + 1);
        LimitOn(succ3[node], cnt - 1, c);
        var enough := Try(node, c);
        if enough {
          q := c;
          TriedParts(q);
          if Exhaustive() {
            BeatsJoin(w, at, low, q, at, mLen, mLen);
          }
          return;
        }
        node, cnt, q := succ3[node], cnt - 1, c;
      }
      NoneLeft(node, q);
      LimitOn(node, cnt, q);
      UnendedOn(q);
      TriedParts(q);
      if Exhaustive() {
        BeatsMore(w, at, low, q, 2, mLen);
        BeatsJoin(w, at, low, q, at, mLen, mLen);
      }
    }

    lemma MoreTried(q: nat, q': nat)
      requires Tried(q) && low <= q' <= q && Beats(w, at, q', q, 2)
      ensures Tried(q')
    {
      hide Same, Noted;
      BeatsMore(w, at, q', q, 2, mLen);
      TriedMore(q, q');
    }

    /** No more candidates were tried than the limit allows. */
    ghost predicate WithinLimit(q: nat)
      reads `maxChain, `at, `keys3
    {
      q <= at < |keys3| && (0 < maxChain ==> Count(keys3, q, at, keys3[at]) <= maxChain)
    }

    lemma LimitOn(node: nat, cnt: nat, q: nat)
      requires Candidates(node, cnt, q)
      ensures WithinLimit(q)
    {
      hide Count, LatestSlot;
    }

    lemma NothingEnded()
      ensures Unended(at)
    {
    }

    lemma UnendedOn(q: nat)
      requires Unended(q)
      ensures Unended(q + 1)
    {
      hide Exact, Beats;
    }

    lemma MoreUnended(q: nat, q': nat)
      requires Unended(q) && q' <= q && Beats(w, at, q', q, 2)
      ensures Unended(q')
    {
      hide Exact, Beats;
      forall r: nat, len: nat | q' <= r < q && Exact(w, at, r, len) ensures len <= 2 {
        BeatsAt(w, at, q', q, 2, r, len);
      }
    }

    lemma TriedParts(q: nat)
      requires Tried(q)
      ensures low <= q <= at && Beats(w, at, q, at, mLen)
    {
      hide Beats, Noted;
    }

    /** The chain limit is used up, or no position before `q` agrees for three bytes. */
    ghost predicate NoneBefore(q: nat)
      reads `maxChain, `low, `at, `keys3
    {
      && low <= q <= at && |keys3| == at + 1
      && (Beats(w, at, low, q, 2) || 0 < maxChain <= Count(keys3, q, at, keys3[at]))
    }

    lemma NoneLeft(node: nat, q: nat)
      requires Searching() && Judged(at) && Candidates(node, 0, q)
      ensures NoneBefore(q) && (Exhaustive() ==> Beats(w, at, low, q, 2))
    {
      hide Slot, Filled, Chains, Pairs, Beats, Count, Latest;
      var k := keys3[at];
      CountAtMost(keys3, q, at, k);
      if Count(keys3, low, q, k) == 0 {
        CountLatest(keys3, low, q, k);
        forall r | low <= r < q ensures keys3[r] != k {
          BehindLatest(keys3, low, q, k, r);
        }
        OtherKeys(low, q);
      } else if Exhaustive() {
        CountAtMost(keys3, low, q, k);
        CountSplit(keys3, low, q, at, k);
        CountAtMost(keys3, low, at, k);
      }
    }

    lemma NoPair()
      requires Searching() && 2 <= look && bp + 1 < b.Length && head2[Key2(b[..], bp)] == NIL2
      ensures Beats(w, at, low, at, 1)
    {
      hide Slot, Filled, Chains, Keyed2, Repeats, Latest;
      var key := Key2(b[..], bp);
      assert head2[..][key] == NIL2;
      forall r: nat, len: nat | low <= r < at && len <= F && Same(w, at, r, len) ensures len <= 1 {
        if len >= 2 {
          SameFor(w, at, r, len, 2);
          SamePair(r);
          SomeLatest(keys2, low, at, key, r);
        }
      }
    }

    lemma PairKnown() returns (q: nat)
      requires Searching() && 2 <= look && bp + 1 < b.Length && head2[Key2(b[..], bp)] != NIL2
      ensures low <= q < at && head2[Key2(b[..], bp)] == Slot(q, Size()) && Repeats(w, at, at - q, 2)
      ensures Beats(w, at, q + 1, at, 1)
    {
      hide Slot, Filled, Chains, Keyed2, Repeats, Latest;
      var key := Key2(b[..], bp);
      assert head2[..][key] != NIL2;
      q := Latest(keys2, low, at, key);
      SamePair(q);
      forall r: nat, len: nat | q + 1 <= r < at && len <= F && Same(w, at, r, len) ensures len <= 1 {
        if len >= 2 {
          SameFor(w, at, r, len, 2);
          SamePair(r);
          SomeLatest(keys2, low, at, key, r);
        }
      }
    }

    /** What a known pair changes. */
    method TakePair(node: nat, ghost q: nat)
      requires Searching() && low <= q < at && node == Slot(q, Size()) && mLen == 1 && FoundSoFar()
      requires Repeats(w, at, at - q, 2) && Beats(w, at, q + 1, at, 1)
      modifies `mLen, `mPos, `bestPos
      ensures mLen == 2 && FoundSoFar() && Tried(at)
    {
      hide Slot, Filled, Chains, Pairs, Repeats;
      NewHit(node, 2, q);
      if 2 < bestCount && bestPos[2] == 0 {
        bestPos := bestPos[2 := node + 1];
      }
      if mLen < 2 {
        mLen, mPos := 2, node;
      }
      OnlyPair(q);
    }

    lemma OnlyPair(q: nat)
      requires low <= q < at && Repeats(w, at, at - q, 2) && Beats(w, at, q + 1, at, 1)
      ensures forall r: nat :: low <= r < at && Same(w, at, r, 2) && Beats(w, at, r + 1, at, 1) ==> r == q
    {
      hide Repeats;
      assert Same(w, at, q, 2);
    }

    /** swd_search2: the table knows the latest position where the next two bytes stand, if there is one. */
    method Search2() returns (found: bool)
      requires Searching() && mLen == 1 < look && FoundSoFar()
      modifies `mLen, `mPos, `bestPos
      ensures FoundSoFar() && (if found then mLen == 2 && Tried(at) else mLen == 1 && Beats(w, at, low, at, 1))
    {
      hide Slot, Filled, Chains, Pairs, Repeats, Beats, FoundSoFar, Tried;
      PairAt(at);
      var node := head2[HashTwo(bp)];
      if node == NIL2 {
        NoPair();
        return false;
      }
      ghost var q := PairKnown();
      TakePair(node, q);
      return true;
    }

    /** What the search at this position comes to: `q` is how far back it went. */
    ghost predicate Searched(q: nat)
      reads `maxChain, `at, `look, `low, `keys3, `mLen, `marks, `bestPos
    {
      if mLen == 1 then Beats(w, at, low, at, 1)
      else
        Tried(q) && Unended(q + 1) && WithinLimit(q) && (EndsHere(q) || NoneBefore(q))
    }

    /** Two equal bytes first, and three or more only if there are two. */
    method SearchBoth(node: nat, cnt: nat) returns (ghost q: nat)
      requires Searching() && Candidates(node, cnt, at) && mLen == 1 < look && FoundSoFar() && Judged(at)
      modifies `mLen, `mPos, `bestPos
      ensures 1 <= mLen && FoundSoFar() && Searched(q) && (mLen == 1 || mLen <= look)
      ensures mLen == 1 || Exhaustive() ==> Beats(w, at, low, at, mLen)
    {
      hide Slot, Filled, Chains, Pairs, FoundSoFar, Candidates, Exhaustive, Judged, Beats, Tried, Unended, EndsHere,
        Count;
      q := at;
      var found := Search2();
      if found && look >= 3 {
        q := Search(node, cnt);
      } else if found {
        LookIsMost(low, at);
        KeyAt(at);
        NothingEnded();
        UnendedOn(at);
        LimitOn(node, cnt, at);
      }
    }

    // ----- the answer -----

    lemma AgreesIsMatch(pos: nat, len: nat)
      requires Searching() && Agrees(pos, len)
      ensures var off := Pos2Off(bp, pos, Size()); 0 < off && Within(w, at, off, len, n)
    {
      hide Slot, Filled, Chains, Pairs, Within, Pos2Off;
      var q :| Hit(w, low, at, Size(), pos, len, q);
      HitIsMatch(w, low, at, Size(), pos, len, q, n);
    }

    lemma NearIsMatch(pos: nat, len: nat) returns (q: nat)
      requires Searching() && NearHit(pos, len)
      ensures Pos2Off(bp, pos, Size()) == at - q && Within(w, at, at - q, len, n) && low <= q < at
      ensures Beats(w, at, q + 1, at, len - 1)
    {
      hide Slot, Filled, Chains, Pairs, Beats, Pos2Off;
      q :| Hit(w, low, at, Size(), pos, len, q) && Beats(w, at, q + 1, at, len - 1);
      Pos2OffIs(at, q, Size());
    }

    /** swd_pos2off for the first match of each length. */
    method FillBestOff()
      requires Searching() && BestAgree()
      modifies `bestOff
      ensures |bestOff| == bestCount
      ensures forall i :: 2 <= i < bestCount && bestPos[i] == 0 ==> bestOff[i] == 0
      ensures forall i :: 2 <= i < bestCount && bestPos[i] != 0 ==>
                bestOff[i] == Pos2Off(bp, bestPos[i] - 1, Size()) && Within(w, at, bestOff[i], i, n)
    {
      hide Slot, Filled, Chains, Pairs, Within, Agrees, Pos2Off;
      bestOff := seq(bestCount, _ => 0);
      var i := 2;
      while i < bestCount
        invariant |bestOff| == bestCount
        invariant forall j :: 2 <= j < bestCount && (i <= j || bestPos[j] == 0) ==> bestOff[j] == 0
        invariant forall j :: 2 <= j < bestCount && j < i && bestPos[j] != 0 ==>
                    bestOff[j] == Pos2Off(bp, bestPos[j] - 1, Size()) && Within(w, at, bestOff[j], j, n)
      {
        if bestPos[i] > 0 {
          AgreesIsMatch(bestPos[i] - 1, i);
          bestOff := bestOff[i := Pos2Off(bp, bestPos[i] - 1, n + F)];
        }
        i := i + 1;
      }
    }

    /** What swd_findbest has left behind. */
    function AsFound(): Found
      reads `mLen, `mOff, `bestOff
    {
      Found(mLen, mOff, if useBestOff then bestOff else [])
    }

    lemma FoundParts()
      requires FoundSoFar()
      ensures (mLen >= 2 ==> NearHit(mPos, mLen)) && (useBestOff ==> BestAgree()) && |bestPos| == bestCount
      ensures useBestOff && 2 <= mLen < bestCount ==> bestPos[mLen] == mPos + 1
    {
    }

    /** The window reaches back as far as the chains do. */
    lemma AllEntered(m: nat)
      requires Placed() && Counted(at) && 1 <= m && Beats(w, at, low, at, m)
      ensures Longest(w, at, n, m)
    {
      hide Repeats;
      forall r: nat, len: nat | Oldest(at, n) <= r < at && len <= F && Same(w, at, r, len) ensures len <= m {
        SameInside(w, at, r, len);
      }
      BeatsIsLongest(w, at, n, m);
    }

    /** best_off in terms of positions. */
    lemma RecordedNow(q: nat, at0: nat)
      requires Searching() && FoundSoFar() && 2 <= mLen && Tried(q) && useBestOff && |bestOff| == bestCount
      requires low <= at0 < at && mOff == at - at0 == Pos2Off(bp, mPos, Size()) && Beats(w, at, at0 + 1, at, mLen - 1)
      requires forall i :: 2 <= i < bestCount && bestPos[i] != 0 ==> bestOff[i] == Pos2Off(bp, bestPos[i] - 1, Size())
      ensures Recorded(w, at, AsFound())
    {
      hide Slot, Filled, Chains, Pairs, Exact, Pos2Off, NearHit, BestAgree;
      forall r: nat, len: nat |
        at0 <= r < at && 2 <= len <= mLen && len < bestCount && Exact(w, at, r, len) && Beats(w, at, r + 1, at, len - 1)
        ensures bestOff[len] == at - r
      {
        if mLen > 2 {
          ReachedBy(q, at0);
        }
        assert bestPos[len] == Slot(r, Size()) + 1;
        Pos2OffIs(at, r, Size());
      }
    }

    /** The search went back at least as far as the match it found. */
    lemma ReachedBy(q: nat, at0: nat)
      requires Tried(q) && 2 < mLen && low <= at0 < at && Beats(w, at, at0 + 1, at, mLen - 1)
      ensures q <= at0
    {
      hide Same, Noted;
    }

    /** The search proper, between entering the position and removing the oldest. */
    method FindAt(node: nat, cnt: nat) returns (ghost q: nat)
      requires Searching() && Candidates(node, cnt, at) && mLen == 1 && FoundSoFar() && Judged(at)
      modifies `mLen, `mPos, `mOff, `bestPos, `bestOff, `bChar
      ensures 1 <= mLen && (bChar < 0 <==> at == |w|) && (at < |w| ==> bChar == w[at])
      ensures Sound(w, at, n, AsFound()) && |bestPos| == bestCount && Searched(q)
      ensures Nearest(w, at, AsFound()) && (useBestOff ==> Recorded(w, at, AsFound())) && InReach()
      ensures mLen == 1 || Exhaustive() ==> Beats(w, at, low, at, mLen)
    {
      hide Slot, Filled, Chains, Pairs, NearHit, BestAgree, FoundSoFar, Within, Candidates, Exhaustive, Judged, Beats,
        Tried;
      q := at;
      KeyAt(at);
      FoundParts();
      bChar := b[bp];
      if look > 0 {
        ByteAt(at, 0);
      }
      if mLen >= look {
        if look == 0 {
          bChar := -1;
        }
        mOff := 0;
        LookIsMost(low, at);
        BeatsMore(w, at, low, at, look, mLen);
        return;
      }
      q := SearchBoth(node, cnt);
      FoundParts();
      Conclude(q);
    }

    /** The match lies among the entered positions and is no longer than the look-ahead. */
    ghost predicate InReach()
      reads `at, `low, `look, `mLen, `mOff, `bestOff
    {
      mLen >= 2 ==> mLen <= look && low + mOff <= at && (useBestOff ==> |bestOff| == bestCount)
    }

    /** What was found becomes offsets. */
    method Conclude(ghost q: nat)
      requires Searching() && FoundSoFar() && 1 <= mLen && Searched(q) && (mLen == 1 || mLen <= look)
      modifies `mOff, `bestOff
      ensures Sound(w, at, n, AsFound()) && Nearest(w, at, AsFound()) && (useBestOff ==> Recorded(w, at, AsFound()))
      ensures InReach()
    {
      hide Slot, Filled, Chains, Pairs, NearHit, BestAgree, FoundSoFar, Within, Beats, Tried, Pos2Off, Recorded;
      FoundParts();
      ghost var at0 := at;
      if mLen > 1 {
        at0 := NearIsMatch(mPos, mLen);
        mOff := Pos2Off(bp, mPos, n + F);
      }
      if useBestOff {
        FillBestOff();
        if mLen > 1 {
          RecordedNow(q, at0);
        } else {
          NothingRecorded(w, at, AsFound());
        }
      }
    }

    lemma ChainBegins(k: nat)
      requires Shape() && Chains(at) && k < HSIZE
      ensures |keys3| == at && low <= at && llen3[k] == Count(keys3, low, at, k)
      ensures 0 < llen3[k] ==> head3[k] == LatestSlot(keys3, low, at, k, Size())
    {
      hide Slot, Keyed3, Count, Latest;
      ChainStart(low, at, keys3, head3[..], succ3[..], llen3[..], Size(), k);
    }

    /** The first half of swd_findbest: enter the position and search among those before it. */
    method SearchHere()
      requires Valid() && mLen == 1
      requires useBestOff ==> forall i :: 0 <= i < bestCount ==> bestPos[i] == 0
      modifies `mLen, `mPos, `mOff, `bestPos, `bestOff, `bChar, `keys3, head3, succ3, llen3
      ensures Placed() && Filled() && Chains(at + 1) && bp + 2 < b.Length
      ensures 1 <= mLen && (bChar < 0 <==> at == |w|) && (at < |w| ==> bChar == w[at])
      ensures Sound(w, at, n, AsFound()) && |bestPos| == bestCount && Told(at)
      ensures mLen == 1 || Exhaustive() ==> Beats(w, at, low, at, mLen)
    {
      hide Slot, Filled, Chains, Pairs, Sound, Count, Key3, Beats, Latest, Judged, Searched, Nearest, Recorded,
        NearHit, Thorough, Prompt;
      ghost var keys := keys3;
      ghost var key := Key3(b[..], bp);
      ChainBegins(key);
      var node, cnt := Enter3(bp, at);
      if cnt > maxChain && maxChain > 0 {
        cnt := maxChain;
      }
      CountPrefix(keys, keys3, low, at, key);
      KeyAt(at);
      NoCount(at);
      ghost var q := FindAt(node, cnt);
      SearchedIsThorough(q);
      SearchedIsPrompt(q);
    }

    lemma NoCount(q: nat)
      requires q < |keys3|
      ensures Count(keys3, q, q, keys3[q]) == 0
    {
    }

    /** What is promised of the answer for position `p`, besides that it is a match. */
    ghost predicate Told(p: nat)
      reads `maxChain, `marks, `mLen, `mOff, `bestOff
    {
      && Thorough(w, p, n, maxChain, niceLength, marks, mLen)
      && Prompt(w, p, maxChain, niceLength, marks, AsFound())
      && Nearest(w, p, AsFound()) && (useBestOff ==> Recorded(w, p, AsFound()))
      && (useBestOff && mLen >= 2 ==> |bestOff| == bestCount) && mLen <= F
    }

    lemma SearchedIsThorough(q: nat)
      requires Searching() && Counted(at) && Searched(q) && 1 <= mLen
      ensures Thorough(w, at, n, maxChain, niceLength, marks, mLen)
    {
      hide Slot, Filled, Chains, Pairs, Repeats, Noted, Count;
      forall r: nat, len: nat | at + 2 < |w| && Oldest(at, n) <= r < at && 3 <= len <= F && Same(w, at, r, len)
        ensures || len <= mLen || (0 < maxChain <= Alike(w, at, r + 1, at))
                || exists c :: r < c < at && EndsAt(w, at, c, mLen, niceLength, marks)
      {
        KeysAreHashes();
        LookIsMost(low, at);
        if mLen > 1 && r < q && mLen != look && len > mLen {
          if NoneBefore(q) && !Beats(w, at, low, q, 2) {
            CountIsAlike(w, keys3, at, q, at);
            AlikeMore(w, at, r + 1, q, at);
          } else if EndsHere(q) {
            assert EndsAt(w, at, q, mLen, niceLength, marks);
          }
        }
      }
    }

    lemma SearchedIsPrompt(q: nat)
      requires Searching() && Searched(q) && Nearest(w, at, AsFound()) && Sound(w, at, n, AsFound()) && InReach()
      ensures Prompt(w, at, maxChain, niceLength, marks, AsFound())
    {
      hide Slot, Filled, Chains, Pairs, Repeats, Tried, Exact, Count;
      if 3 <= mLen && 1 <= mOff <= at && at + 2 < |w| {
        var at0 := at - mOff;
        MatchInWindow(mOff, mLen);
        ReachedBy(q, at0);
        KeysAreHashes();
        SameKey(at0, mLen);
        CountSplit(keys3, q, at0, at, keys3[at]);
        CountSplit(keys3, at0, at0 + 1, at, keys3[at]);
        CountOne(keys3, at0, keys3[at]);
        CountIsAlike(w, keys3, at, at0 + 1, at);
      }
    }

    lemma MatchInWindow(off: nat, len: nat)
      requires Searching() && Within(w, at, off, len, n)
      ensures 1 <= off <= at && Same(w, at, at - off, len)
    {
      hide Slot, Filled, Chains, Pairs;
    }

    lemma KeysAreHashes()
      requires Searching() && at + 2 < |w|
      ensures |keys3| == at + 1 && forall i :: low <= i <= at ==> keys3[i] == HashAt(w, i)
    {
      hide Slot, Filled, Chains, Pairs, Head3;
      KeyAt(at);
      forall i | low <= i <= at ensures keys3[i] == HashAt(w, i) {
        KeyAt(i);
        ByteAt(i, 0);
        ByteAt(i, 1);
        ByteAt(i, 2);
      }
    }

    /** best3 remembers how long the match was, unless there was not enough input to tell. */
    method Remember(tooShort: bool)
      requires Placed() && Judged(at) && Counted(at) && 1 <= mLen
      requires mLen == 1 || Exhaustive() ==> Beats(w, at, low, at, mLen)
      modifies `marks, best3
      ensures Judged(at + 1) && marks == old(marks) + [if tooShort then F + 1 else mLen]
      ensures mLen == 1 || Exhaustive() ==> Longest(w, at, n, mLen)
    {
      hide Slot, Beats, Longest, Judged, Exhaustive;
      if mLen == 1 || Exhaustive() {
        AllEntered(mLen);
      }
      NeverLonger(at);
      SetBest(bp, at, if tooShort then F + 1 else mLen);
    }

    lemma ThoroughOn(p: nat, more: seq<nat>)
      requires Thorough(w, p, n, maxChain, niceLength, marks, mLen) && |marks| == p
      requires Prompt(w, p, maxChain, niceLength, marks, AsFound())
      ensures Thorough(w, p, n, maxChain, niceLength, marks + more, mLen)
      ensures Prompt(w, p, maxChain, niceLength, marks + more, AsFound())
    {
      hide HashAt, Alike, Same, Exact, Beats;
      if p + 2 < |w| {
        forall c: nat | c < p && EndsAt(w, p, c, mLen, niceLength, marks)
          ensures EndsAt(w, p, c, mLen, niceLength, marks + more)
        {
        }
      }
    }

    /** swd_findbest up to the entry in best3. */
    method SearchAndRemember()
      requires Valid() && mLen == 1
      requires useBestOff ==> forall i :: 0 <= i < bestCount ==> bestPos[i] == 0
      modifies `mLen, `mPos, `mOff, `bestPos, `bestOff, `bChar, `keys3, `marks, head3, succ3, llen3, best3
      ensures Placed() && Filled() && Chains(at + 1) && Judged(at + 1) && bp + 2 < b.Length
      ensures 1 <= mLen && (bChar < 0 <==> at == |w|) && (at < |w| ==> bChar == w[at]) && |bestPos| == bestCount
      ensures Sound(w, at, n, AsFound()) && (mLen == 1 || Exhaustive() ==> Longest(w, at, n, mLen)) && Told(at)
      ensures marks == old(marks) + [if |w| - at < 2 then F + 1 else mLen]
    {
      hide Slot, Filled, Chains, Pairs, Sound, Beats, Longest, Exhaustive, Nearest, Recorded, Thorough, Prompt;
      var tooShort := mLen >= look;
      SearchHere();
      ThoroughOn(at, [if tooShort then F + 1 else mLen]);
      Remember(tooShort);
    }

    /** swd_findbest: only after the search is the oldest position removed, so that it can still be found. */
    method FindBest()
      requires Valid() && mLen == 1
      requires useBestOff ==> forall i :: 0 <= i < bestCount ==> bestPos[i] == 0
      modifies Memory()
      ensures at == old(at) && Placed() && Filled() && Chains(at + 1) && Pairs(at + 1) && Judged(at + 1)
      ensures Counted(at + 1) && |bestPos| == bestCount
      ensures 1 <= mLen && (bChar < 0 <==> at == |w|) && (at < |w| ==> bChar == w[at])
      ensures Sound(w, at, n, AsFound()) && (mLen == 1 || Exhaustive() ==> Longest(w, at, n, mLen)) && Told(at)
      ensures marks == old(marks) + [if |w| - at < 2 then F + 1 else mLen]
      ensures maxChain == old(maxChain) && unlimited == old(unlimited)
    {
      hide Slot, Filled, Chains, Pairs, Sound, Longest, Exhaustive, Told, Judged;
      SearchAndRemember();
      RemoveOldest(at + 1);
      Enter2(bp, at);
    }

    /** The compressor sets swd->max_chain before each search. */
    method LimitChain(chain: nat)
      requires Valid()
      modifies `maxChain, `unlimited
      ensures Valid() && maxChain == chain
      ensures Exhaustive() <==> old(Exhaustive()) && (chain == 0 || n <= chain)
    {
      hide Placed, Filled, Chains, Pairs, Counted, Longest;
      maxChain, unlimited := chain, unlimited && (chain == 0 || n <= chain);
    }

    lemma WhereItStands()
      ensures Placed() ==> at <= |w| && look == Min(F, |w| - at)
    {
    }

    /** find_match: pass over the rest of the last match, if there was one, and search at the next position. What it
        reports is a match, and the nearest of its length; it reports one whenever the window has one; it has tried
        the latest positions with the same hash; and if nothing cuts the search short it is a longest one. `ahead` is
        what the compressor sees of the input from there. */
    method FindMatch(thisLen: nat, skip: nat) returns (m: Found, ahead: nat)
      requires Valid() && (skip > 0 ==> skip <= thisLen && at + (thisLen - skip) <= |w|)
      modifies Memory()
      ensures var p := old(at) + if skip > 0 then thisLen - skip else 0;
              && Sound(w, p, n, m) && Nearest(w, p, m) && (useBestOff ==> Recorded(w, p, m))
              && Thorough(w, p, n, maxChain, niceLength, marks, m.len)
              && Prompt(w, p, maxChain, niceLength, marks, m)
              && m.len <= 2048 && (m.len >= 2 ==> |m.bestOff| == if useBestOff then bestCount else 0)
              && (m.len < 2 || Exhaustive() ==> Longest(w, p, n, if m.len == 0 then 1 else m.len))
              && ahead == (if |w| - p > 2048 then 2049 else |w| - p)
              && (p < |w| ==> Valid() && at == p + 1 && bChar == w[p])
              && (p == |w| ==> m.len == 0)
              && marks == old(marks) + Passed(p - old(at)) + [if |w| - p < 2 then F + 1 else m.len]
      ensures maxChain == old(maxChain) && (Exhaustive() <==> old(Exhaustive()))
    {
      hide Slot, Placed, Filled, Chains, Pairs, Counted, Sound, Longest, Judged, Exhaustive, Nearest, Recorded,
        Thorough, Prompt;
      if skip > 0 {
        Accept(thisLen - skip);
      }
      mLen := 1;
      if useBestOff {
        bestPos := seq(bestCount, _ => 0);
      }
      FindBest();
      m := AsFound();
      WhereItStands();
      GetByte();
      WhereItStands();
      ahead := look + 1;
      if bChar < 0 {
        m := m.(len := 0);
        ahead := 0;
        NothingThereAtEnd(w, n, m, maxChain, niceLength, marks);
      }
    }
  }

  lemma {:induction false} CountIsAlike(w: seq<byte>, keys: seq<nat>, p: nat, lo: nat, hi: nat)
    requires lo <= hi <= p < |keys| && p + 2 < |w|
    requires keys[p] == HashAt(w, p) && forall i :: lo <= i < hi ==> keys[i] == HashAt(w, i)
    ensures Count(keys, lo, hi, keys[p]) == Alike(w, p, lo, hi)
  {
    hide HashAt;
    if lo < hi {
      CountIsAlike(w, keys, p, lo, hi - 1);
    }
  }

  lemma {:induction false} AlikeMore(w: seq<byte>, p: nat, lo: nat, mid: nat, hi: nat)
    requires lo <= mid <= hi <= p && p + 2 < |w|
    ensures Alike(w, p, mid, hi) <= Alike(w, p, lo, hi)
  {
    hide HashAt;
    if mid < hi {
      AlikeMore(w, p, lo, mid, hi - 1);
    }
  }

  lemma NothingRecorded(w: seq<byte>, p: nat, m: Found)
    requires m.len < 2
    ensures Recorded(w, p, m) && Nearest(w, p, m)
  {
  }

  lemma BeatsAt(w: seq<byte>, p: nat, lo: nat, hi: nat, m: nat, r: nat, len: nat)
    requires Beats(w, p, lo, hi, m) && lo <= r < hi && Exact(w, p, r, len)
    ensures len <= m
  {
    hide Repeats;
  }

  lemma NotBeats(w: seq<byte>, p: nat, lo: nat, mid: nat, hi: nat, m: nat, m': nat)
    requires lo <= mid && m <= m' && !Beats(w, p, mid, hi, m')
    ensures !Beats(w, p, lo, hi, m)
  {
    hide Same;
  }

  lemma BeatsPart(w: seq<byte>, p: nat, lo: nat, mid: nat, hi: nat, m: nat)
    requires lo <= mid && Beats(w, p, lo, hi, m)
    ensures Beats(w, p, mid, hi, m)
  {
    hide Same;
  }

  lemma ExactOnce(w: seq<byte>, p: nat, r: nat, i: nat, j: nat)
    requires Exact(w, p, r, i) && Exact(w, p, r, j)
    ensures i == j
  {
    if i < j {
      SameFor(w, p, r, j, i + 1);
    } else if j < i {
      SameFor(w, p, r, i, j + 1);
    }
  }

  lemma SameFor(w: seq<byte>, p: nat, r: nat, len: nat, n: nat)
    requires Same(w, p, r, len) && n <= len
    ensures Same(w, p, r, n)
  {
  }

  lemma NothingThere(w: seq<byte>, p: nat, lo: nat, m: nat)
    ensures Beats(w, p, lo, lo, m)
  {
  }

  lemma BeatsMore(w: seq<byte>, p: nat, lo: nat, hi: nat, m: nat, m': nat)
    requires Beats(w, p, lo, hi, m) && m <= m'
    ensures Beats(w, p, lo, hi, m')
  {
    hide Same;
  }

  lemma SameInside(w: seq<byte>, p: nat, r: nat, len: nat)
    requires Same(w, p, r, len)
    ensures p + len <= |w|
  {
  }

  lemma SameBoth(w: seq<byte>, p: nat, c: nat, r: nat, i: nat, len: nat)
    requires r < c && Same(w, p, c, i) && Same(w, p, r, len) && i <= len
    ensures Same(w, c, r, i)
  {
    forall j | c <= j < c + i ensures w[j] == w[j - (c - r)] {
      SameBytes(w, p, c, i, j - c);
      SameBytes(w, p, r, len, j - c);
    }
  }

  lemma HoldsOn(b: seq<byte>, w: seq<byte>, lo: nat, lo': nat, hi: nat, s: nat)
    requires Holds(b, w, lo, hi, s) && lo <= lo'
    ensures lo' <= hi ==> Holds(b, w, lo', hi, s)
  {
  }
}
