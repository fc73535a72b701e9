/** The ring buffer and the hash chains of the sliding-window dictionary (lzo_swd.ch), on plain values. Positions in
    the whole data, dictionary and input, are counted from 0; position `q` lives in slot q modulo the ring size. */
module SwdRing {
  import opened Bytes
  import opened SwdHash

  const F: nat := 2048
  const NIL2: nat := 65535

  // ----- slots -----

  function Slot(q: nat, s: nat): (r: nat)
    requires 0 < s
    ensures r < s && r <= q
    decreases q
  {
    if q < s then q else Slot(q - s, s)
  }

  lemma {:induction false} SlotAhead(q: nat, k: nat, s: nat)
    requires 0 < s && k <= s
    ensures Slot(q + k, s) == if Slot(q, s) + k < s then Slot(q, s) + k else Slot(q, s) + k - s
    ensures Slot(q, s) + k >= s ==> q + k >= s
    decreases q
  {
    if q >= s {
      SlotAhead(q - s, k, s);
    }
  }

  /** Within one round of the ring, different positions have different slots. */
  lemma SlotsDiffer(p: nat, q: nat, s: nat)
    requires p < q < p + s
    ensures Slot(p, s) != Slot(q, s)
  {
    SlotAhead(p, q - p, s);
  }

  /** swd_pos2off */
  function Pos2Off(bp: nat, pos: nat, s: nat): int {
    if bp > pos then bp - pos else s - (pos - bp)
  }

  lemma Pos2OffIs(p: nat, q: nat, s: nat)
    requires q < p < q + s
    ensures Pos2Off(Slot(p, s), Slot(q, s), s) == p - q
  {
    SlotAhead(q, p - q, s);
  }

  // ----- the bytes -----

  /** The ring holds the data from `lo` to `hi`. Behind its end stands a copy of its beginning, as far as that has
      been written since the first round. */
  ghost predicate Holds(b: seq<byte>, w: seq<byte>, lo: nat, hi: nat, s: nat) {
    && F < s && |b| == s + F && lo <= hi <= |w| && hi <= lo + s
    && (forall q :: lo <= q < hi ==> b[Slot(q, s)] == w[q])
    && (forall q :: lo <= q < hi && s <= q && Slot(q, s) < F ==> b[s + Slot(q, s)] == w[q])
  }

  /** Reading on from a slot needs no wrap-around. */
  lemma ReadOn(b: seq<byte>, w: seq<byte>, lo: nat, hi: nat, s: nat, q: nat, k: nat)
    requires Holds(b, w, lo, hi, s) && lo <= q && q + k < hi && k <= F
    ensures Slot(q, s) + k < |b| && b[Slot(q, s) + k] == w[q + k]
  {
    SlotAhead(q, k, s);
  }

  /** swd_getbyte's store: the byte goes into its slot and, in the first F slots, behind the end too. */
  function Stored(b: seq<byte>, slot: nat, c: byte, s: nat): (r: seq<byte>)
    requires slot < s && |b| == s + F
    ensures |r| == |b|
  {
    var b1 := b[slot := c];
    if slot < F then b1[s + slot := c] else b1
  }

  lemma StoredHolds(b: seq<byte>, w: seq<byte>, lo: nat, hi: nat, lo': nat, s: nat)
    requires Holds(b, w, lo, hi, s) && hi < |w| && lo <= lo' <= hi && hi + 1 <= lo' + s
    ensures Holds(Stored(b, Slot(hi, s), w[hi], s), w, lo', hi + 1, s)
  {
    forall q | lo' <= q < hi ensures Slot(q, s) != Slot(hi, s) {
      SlotsDiffer(q, hi, s);
    }
  }

  /** The hash keys of the three and of the two bytes at a slot. */
  function Key3(b: seq<byte>, slot: nat): (r: nat)
    requires slot + 2 < |b|
    ensures r < HSIZE
  {
    Head3(b[slot], b[slot + 1], b[slot + 2])
  }

  function Key2(b: seq<byte>, slot: nat): (r: nat)
    requires slot + 1 < |b|
    ensures r < 65536
  {
    Head2(b[slot], b[slot + 1])
  }

  /** The keys under which the positions from `lo` to `hi` were entered are still those of their bytes. */
  ghost predicate Keyed3(b: seq<byte>, lo: nat, hi: nat, keys: seq<nat>, s: nat) {
    0 < s && |b| == s + F && |keys| == hi && forall q :: lo <= q < hi ==> keys[q] == Key3(b, Slot(q, s))
  }

  ghost predicate Keyed2(b: seq<byte>, lo: nat, hi: nat, keys: seq<nat>, s: nat) {
    0 < s && |b| == s + F && |keys| == hi && forall q :: lo <= q < hi ==> keys[q] == Key2(b, Slot(q, s))
  }

  lemma KeysFirst(b: seq<byte>, lo: nat, hi: nat, hi2: nat, keys3: seq<nat>, keys2: seq<nat>, s: nat)
    requires Keyed3(b, lo, hi, keys3, s) && Keyed2(b, lo, hi2, keys2, s) && lo < hi2 <= hi
    ensures Slot(lo, s) + 2 < |b| && |keys3| == hi && |keys2| == hi2
    ensures keys3[lo] == Key3(b, Slot(lo, s)) && keys2[lo] == Key2(b, Slot(lo, s))
    ensures Keyed3(b, lo + 1, hi, keys3, s) && Keyed2(b, lo + 1, hi2, keys2, s)
  {
  }

  lemma EnterKeyed3(b: seq<byte>, lo: nat, hi: nat, keys: seq<nat>, s: nat)
    requires Keyed3(b, lo, hi, keys, s)
    ensures Slot(hi, s) + 2 < |b| && |keys| == hi && Keyed3(b, lo, hi + 1, keys + [Key3(b, Slot(hi, s))], s)
  {
    hide Key3, Slot;
  }

  lemma EnterKeyed2(b: seq<byte>, lo: nat, hi: nat, keys: seq<nat>, s: nat)
    requires Keyed2(b, lo, hi, keys, s)
    ensures Slot(hi, s) + 2 < |b| && |keys| == hi && Keyed2(b, lo, hi + 1, keys + [Key2(b, Slot(hi, s))], s)
  {
    hide Key2, Slot;
  }

  /** Writing into the slot of a position further on changes no key. */
  lemma KeysStay(b: seq<byte>, q: nat, s: nat, a: nat, c: byte)
    requires 0 < s && |b| == s + F && q + 2 < a < q + s
    ensures Key3(Stored(b, Slot(a, s), c, s), Slot(q, s)) == Key3(b, Slot(q, s))
    ensures Key2(Stored(b, Slot(a, s), c, s), Slot(q, s)) == Key2(b, Slot(q, s))
  {
    hide Head3, Head2, Slot;
    SlotAhead(q, 1, s);
    SlotAhead(q, 2, s);
    SlotsDiffer(q, a, s);
    SlotsDiffer(q + 1, a, s);
    SlotsDiffer(q + 2, a, s);
  }

  lemma StoredKeyed(b: seq<byte>, lo: nat, hi: nat, keys3: seq<nat>, keys2: seq<nat>, s: nat, a: nat, c: byte)
    requires Keyed3(b, lo, hi, keys3, s) && Keyed2(b, lo, hi, keys2, s) && hi + 1 < a < lo + s
    ensures Keyed3(Stored(b, Slot(a, s), c, s), lo, hi, keys3, s)
    ensures Keyed2(Stored(b, Slot(a, s), c, s), lo, hi, keys2, s)
  {
    hide Slot, Key3, Key2, Stored;
    forall q | lo <= q < hi
      ensures keys3[q] == Key3(Stored(b, Slot(a, s), c, s), Slot(q, s))
      ensures keys2[q] == Key2(Stored(b, Slot(a, s), c, s), Slot(q, s))
    {
      KeysStay(b, q, s, a, c);
    }
  }

  // ----- the chains -----

  /** How many of the positions from `lo` to `hi` have the key `k`. */
  function Count(keys: seq<nat>, lo: nat, hi: nat, k: nat): nat
    requires lo <= hi <= |keys|
  {
    if lo == hi then 0 else Count(keys, lo, hi - 1, k) + if keys[hi - 1] == k then 1 else 0
  }

  /** The last of them, or -1. */
  function Latest(keys: seq<nat>, lo: nat, hi: nat, k: nat): (q: int)
    requires lo <= hi <= |keys|
    ensures q == -1 || (lo <= q < hi && keys[q] == k)
  {
    if lo == hi then -1 else if keys[hi - 1] == k then hi - 1 else Latest(keys, lo, hi - 1, k)
  }

  lemma {:induction false} CountLatest(keys: seq<nat>, lo: nat, hi: nat, k: nat)
    requires lo <= hi <= |keys|
    ensures var q := Latest(keys, lo, hi, k);
            if q < 0 then Count(keys, lo, hi, k) == 0 else Count(keys, lo, hi, k) == Count(keys, lo, q, k) + 1
  {
    if lo < hi && keys[hi - 1] != k {
      CountLatest(keys, lo, hi - 1, k);
    }
  }

  lemma {:induction false} CountAtMost(keys: seq<nat>, lo: nat, hi: nat, k: nat)
    requires lo <= hi <= |keys|
    ensures Count(keys, lo, hi, k) <= hi - lo
  {
    if lo < hi {
      CountAtMost(keys, lo, hi - 1, k);
    }
  }

  lemma {:induction false} WithoutFirst(keys: seq<nat>, lo: nat, hi: nat, k: nat)
    requires lo < hi <= |keys|
    ensures Count(keys, lo, hi, k) == Count(keys, lo + 1, hi, k) + if keys[lo] == k then 1 else 0
    ensures Latest(keys, lo + 1, hi, k) == if Latest(keys, lo, hi, k) == lo then -1 else Latest(keys, lo, hi, k)
  {
    if lo + 1 < hi {
      WithoutFirst(keys, lo, hi - 1, k);
    }
  }

  lemma {:induction false} CountPrefix(keys: seq<nat>, more: seq<nat>, lo: nat, hi: nat, k: nat)
    requires lo <= hi <= |keys| <= |more| && more[..|keys|] == keys
    ensures Count(more, lo, hi, k) == Count(keys, lo, hi, k)
    ensures Latest(more, lo, hi, k) == Latest(keys, lo, hi, k)
  {
    if lo < hi {
      assert more[hi - 1] == more[..|keys|][hi - 1];
      CountPrefix(keys, more, lo, hi - 1, k);
    }
  }

  /** head3, succ3 and llen3 for the positions from `lo` to `hi`: for every key the latest position, from each position
      to the one before it with the same key, and how many there are. */
  ghost predicate Chained(lo: nat, hi: nat, keys: seq<nat>, head: seq<nat>, succ: seq<nat>, llen: seq<nat>, s: nat) {
    && 0 < s && lo <= hi == |keys| && |head| == |llen| == HSIZE && |succ| == s
    && (forall q :: lo <= q < hi ==> keys[q] < HSIZE)
    && (forall k :: 0 <= k < HSIZE ==> llen[k] == Count(keys, lo, hi, k))
    && (forall k :: 0 <= k < HSIZE && Latest(keys, lo, hi, k) >= 0 ==> head[k] == Slot(Latest(keys, lo, hi, k), s))
    && (forall q :: lo <= q < hi && Latest(keys, lo, q, keys[q]) >= 0 ==>
          succ[Slot(q, s)] == Slot(Latest(keys, lo, q, keys[q]), s))
  }

  lemma EnterChained(lo: nat, hi: nat, keys: seq<nat>, head: seq<nat>, succ: seq<nat>, llen: seq<nat>, s: nat, k: nat)
    requires Chained(lo, hi, keys, head, succ, llen, s) && k < HSIZE && hi < lo + s
    ensures Chained(lo, hi + 1, keys + [k], head[k := Slot(hi, s)], succ[Slot(hi, s) := head[k]],
                    llen[k := llen[k] + 1], s)
  {
    hide Slot, Count, Latest;
    var more := keys + [k];
    var head', succ', llen' := head[k := Slot(hi, s)], succ[Slot(hi, s) := head[k]], llen[k := llen[k] + 1];
    forall j | 0 <= j < HSIZE
      ensures llen'[j] == Count(more, lo, hi + 1, j)
      ensures Latest(more, lo, hi + 1, j) >= 0 ==> head'[j] == Slot(Latest(more, lo, hi + 1, j), s)
    {
      OneMore(keys, lo, hi, k, j);
    }
    forall q | lo <= q < hi + 1 && Latest(more, lo, q, more[q]) >= 0
      ensures succ'[Slot(q, s)] == Slot(Latest(more, lo, q, more[q]), s)
    {
      CountPrefix(keys, more, lo, q, more[q]);
      if q < hi {
        SlotsDiffer(q, hi, s);
      }
    }
  }

  lemma OneMore(keys: seq<nat>, lo: nat, hi: nat, k: nat, j: nat)
    requires lo <= hi == |keys|
    ensures var more := keys + [k];
            && Count(more, lo, hi + 1, j) == Count(keys, lo, hi, j) + (if k == j then 1 else 0)
            && Latest(more, lo, hi + 1, j) == if k == j then hi else Latest(keys, lo, hi, j)
  {
    CountPrefix(keys, keys + [k], lo, hi, j);
  }

  lemma RemoveChained(lo: nat, hi: nat, keys: seq<nat>, head: seq<nat>, succ: seq<nat>, llen: seq<nat>, s: nat)
    requires Chained(lo, hi, keys, head, succ, llen, s) && lo < hi
    ensures keys[lo] < HSIZE && llen[keys[lo]] > 0
    ensures Chained(lo + 1, hi, keys, head, succ, llen[keys[lo] := llen[keys[lo]] - 1], s)
  {
    hide Slot;
    forall q, j | lo < q <= hi
      ensures Count(keys, lo, q, j) == Count(keys, lo + 1, q, j) + (if keys[lo] == j then 1 else 0)
      ensures Latest(keys, lo + 1, q, j) == if Latest(keys, lo, q, j) == lo then -1 else Latest(keys, lo, q, j)
    {
      WithoutFirst(keys, lo, q, j);
    }
  }

  /** The slot of the latest position with key `k`, or -1. */
  function LatestSlot(keys: seq<nat>, lo: nat, hi: nat, k: nat, s: nat): int
    requires lo <= hi <= |keys| && 0 < s
  {
    var q := Latest(keys, lo, hi, k);
    if q >= 0 then Slot(q, s) else -1
  }

  /** Following a chain for as many steps as the count says never leaves it. */
  lemma ChainOn(lo: nat, hi: nat, keys: seq<nat>, head: seq<nat>, succ: seq<nat>, llen: seq<nat>, s: nat,
                q: nat, k: nat)
    requires Chained(lo, hi, keys, head, succ, llen, s) && lo <= q <= hi && 0 < Count(keys, lo, q, k)
    ensures var c := Latest(keys, lo, q, k);
            && lo <= c < q && keys[c] == k && Count(keys, lo, q, k) == Count(keys, lo, c, k) + 1
            && (0 < Count(keys, lo, c, k) ==> succ[Slot(c, s)] == LatestSlot(keys, lo, c, k, s))
  {
    hide Slot, Count, Latest;
    CountLatest(keys, lo, q, k);
    CountLatest(keys, lo, Latest(keys, lo, q, k), k);
  }

  lemma ChainStart(lo: nat, hi: nat, keys: seq<nat>, head: seq<nat>, succ: seq<nat>, llen: seq<nat>, s: nat, k: nat)
    requires Chained(lo, hi, keys, head, succ, llen, s) && k < HSIZE
    ensures llen[k] == Count(keys, lo, hi, k) && (0 < llen[k] ==> head[k] == LatestSlot(keys, lo, hi, k, s))
  {
    hide Slot, Count, Latest;
    CountLatest(keys, lo, hi, k);
  }

  lemma CountOne(keys: seq<nat>, q: nat, k: nat)
    requires q < |keys|
    ensures Count(keys, q, q + 1, k) == if keys[q] == k then 1 else 0
  {
  }

  lemma {:induction false} CountSplit(keys: seq<nat>, lo: nat, mid: nat, hi: nat, k: nat)
    requires lo <= mid <= hi <= |keys|
    ensures Count(keys, lo, hi, k) == Count(keys, lo, mid, k) + Count(keys, mid, hi, k)
  {
    if mid < hi {
      CountSplit(keys, lo, mid, hi - 1, k);
    }
  }

  /** Between the latest position with a key and `hi` there is none. */
  lemma {:induction false} BehindLatest(keys: seq<nat>, lo: nat, hi: nat, k: nat, q: nat)
    requires lo <= hi <= |keys| && lo <= q < hi && Latest(keys, lo, hi, k) < q
    ensures keys[q] != k
  {
    if q < hi - 1 {
      BehindLatest(keys, lo, hi - 1, k, q);
    }
  }

  // ----- the table of pairs -----

  /** head2: for every pair of bytes the latest of the positions from `lo` to `hi` where they stand, or none. */
  ghost predicate Paired(lo: nat, hi: nat, keys: seq<nat>, head: seq<nat>, s: nat) {
    && 0 < s <= NIL2 && lo <= hi == |keys| && |head| == 65536
    && (forall q :: lo <= q < hi ==> keys[q] < 65536)
    && forall k :: 0 <= k < 65536 ==>
         head[k] == if Latest(keys, lo, hi, k) >= 0 then Slot(Latest(keys, lo, hi, k), s) else NIL2
  }

  lemma EnterPaired(lo: nat, hi: nat, keys: seq<nat>, head: seq<nat>, s: nat, k: nat)
    requires Paired(lo, hi, keys, head, s) && k < 65536
    ensures Paired(lo, hi + 1, keys + [k], head[k := Slot(hi, s)], s)
  {
    hide Slot, Latest;
    var more, head' := keys + [k], head[k := Slot(hi, s)];
    forall j | 0 <= j < 65536
      ensures head'[j] == if Latest(more, lo, hi + 1, j) >= 0 then Slot(Latest(more, lo, hi + 1, j), s) else NIL2
    {
      OneMore(keys, lo, hi, k, j);
    }
  }

  lemma RemovePaired(lo: nat, hi: nat, keys: seq<nat>, head: seq<nat>, s: nat)
    requires Paired(lo, hi, keys, head, s) && lo < hi <= lo + s
    ensures keys[lo] < 65536
    ensures var k := keys[lo];
            Paired(lo + 1, hi, keys, if head[k] == Slot(lo, s) then head[k := NIL2] else head, s)
  {
    hide Slot, Latest;
    var k := keys[lo];
    forall j | 0 <= j < 65536
      ensures Latest(keys, lo + 1, hi, j) == if Latest(keys, lo, hi, j) == lo then -1 else Latest(keys, lo, hi, j)
    {
      WithoutFirst(keys, lo, hi, j);
    }
    var q := Latest(keys, lo, hi, k);
    SomeLatest(keys, lo, hi, k, lo);
    if q > lo {
      SlotsDiffer(lo, q, s);
    }
  }

  lemma {:induction false} SomeLatest(keys: seq<nat>, lo: nat, hi: nat, k: nat, q: nat)
    requires lo <= q < hi <= |keys| && keys[q] == k
    ensures q <= Latest(keys, lo, hi, k)
  {
    if q < hi - 1 && keys[hi - 1] != k {
      SomeLatest(keys, lo, hi - 1, k, q);
    }
  }
}
