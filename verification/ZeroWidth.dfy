/** putbits(0, 0) in the stream of LZO2A. The writer's macro reserves a byte whenever no bits are pending, also
    when it is asked to write none; the reader fetches a byte only when it needs bits. This is exactly when the
    two lose each other. */
module ZeroWidth {
  import opened Bytes
  import opened BitStream

  /** putbits(j, x) with j from 0 to 7, and putbyte. */
  predicate Writable(i: Item) {
    i.Bits? ==> i.n <= 7 && i.x < Pow2(i.n)
  }

  type Puts = s: seq<Item> | forall i :: i in s ==> Writable(i)

  /** Nothing to write, and no reserved byte to leave it in. */
  predicate Stray(w: Writer, i: Item) {
    i.Bits? && i.n == 0 && w.k == 0
  }

  function PutEach(items: Puts): (w: Writer)
    ensures WriterOk(w)
  {
    if items == [] then EMPTY
    else
      var w := PutEach(items[..|items| - 1]);
      PutOk(w, items[|items| - 1]);
      Put(w, items[|items| - 1])
  }

  lemma PutOk(w: Writer, i: Item)
    requires WriterOk(w) && Writable(i)
    ensures WriterOk(Put(w, i))
  {
    if i.Bits? && i.n == 0 {
      PutNothing(w, i);
    } else {
      PutKeepsOk(w, i);
    }
  }

  lemma PutNothing(w: Writer, i: Item)
    requires WriterOk(w) && Writable(i) && i.Bits? && i.n == 0
    ensures i.x == 0 && (w.k > 0 ==> Put(w, i) == w)
    ensures w.k == 0 ==> Put(w, i) == Writer(w.out + [0], |w.out|, w.b, 0)
  {
    assert Pow2(0) == 1;
    assert Shl(0, w.k) == 0;
  }

  /** No put of width zero ever meets a byte boundary. */
  ghost predicate Anchored(items: Puts) {
    items != [] ==> Anchored(items[..|items| - 1]) && !Stray(PutEach(items[..|items| - 1]), items[|items| - 1])
  }

  /** The stream after the final flush. */
  function Stream(items: Puts): seq<byte> {
    var w := PutEach(items);
    Join(w, Emit([], w.k, w.b))
  }

  /** The reader gets every value back and ends with the last byte. */
  ghost predicate ReadsBack(s: seq<byte>, items: Puts) {
    var p := Replay(s, Reader(0, 0, 0), items);
    p.Some? && p.value.0 == Values(items) && p.value.1.ip == |s|
  }

  // ----- without stray puts, the ones of width zero do nothing -----

  function Dense(items: Puts): (d: Items) {
    if items == [] then []
    else
      var i := items[0];
      if i.Bits? && i.n == 0 then Dense(items[1..]) else [i] + Dense(items[1..])
  }

  lemma {:induction false} DenseSnoc(items: Puts, i: Item)
    requires Writable(i)
    ensures Dense(items + [i]) == Dense(items) + if i.Bits? && i.n == 0 then [] else [i]
  {
    var all: Puts := items + [i];
    if items == [] {
      assert all[1..] == [];
    } else {
      assert all[1..] == items[1..] + [i];
      DenseSnoc(items[1..], i);
    }
  }

  lemma {:induction false} DensePuts(items: Puts)
    requires Anchored(items)
    ensures PutEach(items) == PutAll(Dense(items))
  {
    hide Put, Dense;
    if items != [] {
      var init: Puts, i := items[..|items| - 1], items[|items| - 1];
      DensePuts(init);
      DenseSnoc(init, i);
      assert items == init + [i];
      if i.Bits? && i.n == 0 {
        PutNothing(PutEach(init), i);
        assert Dense(items) == Dense(init);
      } else {
        assert (Dense(init) + [i])[..|Dense(init)|] == Dense(init);
      }
    } else {
      DenseNone();
    }
  }

  lemma DenseNone()
    ensures Dense([]) == []
  {
  }

  /** The reader does nothing for a width of zero either. */
  lemma ReadNothing(s: seq<byte>, r: Reader)
    ensures ReadBits(s, r, 0) == Some(Got(0, r))
  {
    assert Pow2(0) == 1;
  }

  lemma {:induction false} DenseReplays(s: seq<byte>, r: Reader, items: Puts)
    requires Replay(s, r, Dense(items)).Some? && Replay(s, r, Dense(items)).value.0 == Values(Dense(items))
    ensures Replay(s, r, items).Some?
    ensures Replay(s, r, items).value == (Values(items), Replay(s, r, Dense(items)).value.1)
    decreases |items|
  {
    hide ReadBits, ReadByte;
    if items != [] {
      var i, rest: Puts := items[0], items[1..];
      if i.Bits? && i.n == 0 {
        ReadNothing(s, r);
        assert i.x == 0 by { PutNothing(EMPTY, i); }
        DenseReplays(s, r, rest);
      } else {
        var d := Dense(items);
        assert d[0] == i && d[1..] == Dense(rest);
        var g := match i case Bits(n, _) => ReadBits(s, r, n) case Byte(_) => ReadByte(s, r);
        var inner := Replay(s, g.value.r, d[1..]);
        assert Replay(s, r, d).value.0 == [g.value.value] + inner.value.0;
        assert inner.value.0 == Replay(s, r, d).value.0[1..] == Values(d)[1..] == Values(d[1..]);
        DenseReplays(s, g.value.r, rest);
      }
    }
  }

  // ----- counting bits -----

  function TotalWidth(items: seq<Item>): nat {
    if items == [] then 0 else TotalWidth(items[..|items| - 1]) + Width(items[|items| - 1])
  }

  function Strays(items: Puts): nat {
    if items == [] then 0
    else Strays(items[..|items| - 1]) + if Stray(PutEach(items[..|items| - 1]), items[|items| - 1]) then 1 else 0
  }

  lemma {:induction false} NoStrays(items: Puts)
    ensures Strays(items) == 0 <==> Anchored(items)
  {
    if items != [] {
      NoStrays(items[..|items| - 1]);
    }
  }

  /** Every stray put costs a byte. */
  lemma {:induction false} WriterCounts(items: Puts)
    ensures Used(PutEach(items)) == TotalWidth(items) + 8 * Strays(items)
  {
    hide Put, Used;
    if items == [] {
      UsedNone();
    } else {
      var init: Puts, i := items[..|items| - 1], items[|items| - 1];
      WriterCounts(init);
      if i.Bits? && i.n == 0 {
        NothingUses(PutEach(init), i);
      } else {
        PutUses(PutEach(init), i);
      }
    }
  }

  lemma UsedNone()
    ensures Used(EMPTY) == 0
  {
  }

  lemma NothingUses(w: Writer, i: Item)
    requires WriterOk(w) && Writable(i) && i.Bits? && i.n == 0
    ensures Used(Put(w, i)) == Used(w) + if w.k == 0 then 8 else 0
  {
    hide Put;
    PutNothing(w, i);
  }

  lemma {:induction false} WidthFirst(i: Item, rest: seq<Item>)
    ensures TotalWidth([i] + rest) == Width(i) + TotalWidth(rest)
  {
    if rest == [] {
      assert [i] + rest == [i] && [i][..0] == [];
    } else {
      assert ([i] + rest)[..|rest|] == [i] + rest[..|rest| - 1];
      WidthFirst(i, rest[..|rest| - 1]);
    }
  }

  /** The reader takes exactly the widths it asks for, whatever the bytes. */
  lemma {:induction false} ReaderCounts(s: seq<byte>, r: Reader, items: Puts)
    requires r.k < 8 && Replay(s, r, items).Some?
    ensures var end := Replay(s, r, items).value.1;
            end.k < 8 && 8 * end.ip - end.k == 8 * r.ip - r.k + TotalWidth(items)
    decreases |items|
  {
    hide ReadBits, ReadByte;
    if items != [] {
      var i, rest: Puts := items[0], items[1..];
      var g := match i case Bits(n, _) => ReadBits(s, r, n) case Byte(_) => ReadByte(s, r);
      ReadCounts(s, r, i);
      ReaderCounts(s, g.value.r, rest);
      WidthFirst(i, rest);
      assert items == [i] + rest;
    }
  }

  lemma ReadCounts(s: seq<byte>, r: Reader, i: Item)
    requires r.k < 8 && Writable(i)
    ensures var g := match i case Bits(n, _) => ReadBits(s, r, n) case Byte(_) => ReadByte(s, r);
            g.Some? ==> g.value.r.k < 8 && 8 * g.value.r.ip - g.value.r.k == 8 * r.ip - r.k + Width(i)
  {
    hide Pow2, Shl, Shr, Mask;
  }

  lemma StreamLength(items: Puts)
    ensures 0 <= 8 * |Stream(items)| - Used(PutEach(items)) < 8
  {
  }

  /** For every sequence of putbits(j, x) with j from 0 to 7 and x below 2^j, and putbyte: it reads back, with
      nothing left over, if and only if no put of width zero comes while no bits are pending. */
  lemma ReadsBackExactly(items: Puts)
    ensures ReadsBack(Stream(items), items) <==> Anchored(items)
  {
    hide Anchored, Replay, Values, Emit, Join, PutEach, PutAll, Used;
    var s := Stream(items);
    NoStrays(items);
    WriterCounts(items);
    StreamLength(items);
    if Replay(s, Reader(0, 0, 0), items).Some? {
      ReaderCounts(s, Reader(0, 0, 0), items);
    }
    if Anchored(items) {
      DensePuts(items);
      DenseStream(items);
      ReplayAll(Dense(items));
      DenseReplays(s, Reader(0, 0, 0), items);
    }
  }

  /** The shortest failure: the byte reserved for no bits stays, and the reader takes it for the one that follows. */
  lemma StrayByteIsRead(b: byte)
    requires b > 0
    ensures var items: Puts := [Bits(0, 0), Byte(b)];
            && Stream(items) == [0, b] && !ReadsBack(Stream(items), items)
            && Replay(Stream(items), Reader(0, 0, 0), items) == Some(([0, 0], Reader(1, 0, 0)))
  {
    hide Stream, Replay, Values;
    StrayByteStays(b);
    StrayByteReplays([0, b], b);
  }

  lemma StrayByteStays(b: byte)
    ensures Stream([Bits(0, 0), Byte(b)]) == [0, b] && Values([Bits(0, 0), Byte(b)]) == [0, b as nat]
  {
    hide Shl, Pow2, Put;
    var first: Puts, items: Puts := [Bits(0, 0)], [Bits(0, 0), Byte(b)];
    NoBitsWritable();
    PutNothing(EMPTY, Bits(0, 0));
    assert items[..1] == first && first[..0] == [];
    assert PutEach(first) == Writer([0], 0, 0, 0);
    PutOneByte(b);
    assert Emit([], 0, 0) == Future(0, []);
    assert items[1..] == [Byte(b)] && [Byte(b)][1..] == [];
    assert Values([Byte(b)]) == [b as nat];
  }

  lemma NoBitsWritable()
    ensures Writable(Bits(0, 0))
  {
  }

  lemma PutOneByte(b: byte)
    ensures Put(Writer([0], 0, 0, 0), Byte(b)) == Writer([0, b], 0, 0, 0)
  {
  }

  lemma StrayByteReplays(s: seq<byte>, b: byte)
    requires s == [0, b]
    ensures Replay(s, Reader(0, 0, 0), [Bits(0, 0), Byte(b)]) == Some(([0, 0], Reader(1, 0, 0)))
  {
    hide ReadBits, ReadByte;
    ReadNoBits(s);
    ReplayOne(s, Reader(1, 0, 0), []);
    ReplayOne(s, Reader(0, 0, 0), [Byte(b)]);
    ReplayOne(s, Reader(0, 0, 0), [Bits(0, 0), Byte(b)]);
    var none, zero: seq<nat> := [], [0];
    assert zero + none == zero && zero + zero == [0, 0];
    assert [Bits(0, 0), Byte(b)][1..] == [Byte(b)] && [Byte(b)][1..] == [];
  }

  lemma ReplayOne(s: seq<byte>, r: Reader, items: seq<Item>)
    ensures items == [] ==> Replay(s, r, items) == Some(([], r))
    ensures items != [] ==>
              var rest := items[1..];
              var g := match items[0] case Bits(n, _) => ReadBits(s, r, n) case Byte(_) => ReadByte(s, r);
              g.Some? && Replay(s, g.value.r, rest).Some? ==>
                var (values, end) := Replay(s, g.value.r, rest).value;
                Replay(s, r, items) == Some(([g.value.value] + values, end))
  {
    hide ReadBits, ReadByte;
  }

  lemma ReadNoBits(s: seq<byte>)
    requires |s| == 2 && s[0] == 0
    ensures ReadBits(s, Reader(0, 0, 0), 0) == Some(Got(0, Reader(0, 0, 0)))
    ensures ReadByte(s, Reader(0, 0, 0)) == Some(Got(0, Reader(1, 0, 0)))
  {
    assert Pow2(0) == 1;
  }

  lemma DenseStream(items: Puts)
    requires PutEach(items) == PutAll(Dense(items))
    ensures Stream(items) == Emit(Dense(items), 0, 0).bytes
  {
    hide Emit, Join, PutEach, PutAll, Dense;
    PutAllJoin(Dense(items), []);
    assert Dense(items) + [] == Dense(items);
  }
}
