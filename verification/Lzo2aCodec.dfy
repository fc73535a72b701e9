/** lzo2a_999_compress_callback, lazy matching on top of the match finder of lzo_swd.ch, and lzo2a_decompress. */
module Lzo2aCodec {
  import opened Bytes
  import opened Window
  import opened Tokens
  import opened LengthCode
  import opened ReturnCodes
  import opened BitStream
  import opened BitIo
  import opened Lzo2aFormat
  import opened Lzo2aRoundTrip
  import opened Lzo2aParse
  import Swd

  // ----- writing items -----

  ghost predicate Wrote(bw: BitWriter, items: Items)
    reads bw, bw.out
  {
    bw.Valid() && bw.w == PutAll(items)
  }

  /** Room for `bits` more bits, and for the reserved byte that they may open. */
  ghost predicate RoomFor(bw: BitWriter, bits: nat)
    reads bw
  {
    Used(bw.w) + bits + 7 <= 8 * bw.out.Length
  }

  lemma PutAllSnoc(items: Items, i: Item)
    requires Valid(i)
    ensures PutAll(items + [i]) == Put(PutAll(items), i)
  {
    assert (items + [i])[..|items|] == items;
  }

  lemma UsedBound(w: Writer)
    requires WriterOk(w)
    ensures 8 * |w.out| <= Used(w) + 7
  {
  }

  method WriteBits(bw: BitWriter, n: nat, x: nat, ghost items: Items)
    requires Wrote(bw, items) && Valid(Bits(n, x)) && RoomFor(bw, n)
    modifies bw, bw.out
    ensures Wrote(bw, items + [Bits(n, x)]) && Used(bw.w) == old(Used(bw.w)) + n
  {
    hide Pow2, PutBits;
    PutAllSnoc(items, Bits(n, x));
    PutKeepsOk(bw.w, Bits(n, x));
    PutUses(bw.w, Bits(n, x));
    UsedBound(Put(bw.w, Bits(n, x)));
    bw.PutBits(n, x);
  }

  method WriteByte(bw: BitWriter, v: byte, ghost items: Items)
    requires Wrote(bw, items) && RoomFor(bw, 8)
    modifies bw, bw.out
    ensures Wrote(bw, items + [Byte(v)]) && Used(bw.w) == old(Used(bw.w)) + 8
  {
    hide Pow2, PutBits;
    PutAllSnoc(items, Byte(v));
    PutUses(bw.w, Byte(v));
    UsedBound(bw.w);
    bw.PutByte(v);
  }

  lemma BytesOfSplit(v: byte, e: seq<byte>)
    ensures BytesOf([v] + e) == [Byte(v)] + BytesOf(e)
  {
  }

  /** A length code, byte by byte. */
  method WriteExt(bw: BitWriter, n: nat, ghost items: Items)
    requires Wrote(bw, items) && 1 <= n && RoomFor(bw, 8 * |Ext(n)|)
    modifies bw, bw.out
    ensures Wrote(bw, items + BytesOf(Ext(n))) && Used(bw.w) == old(Used(bw.w)) + 8 * |Ext(n)|
  {
    hide Wrote, Used, Put, PutAll, Pow2;
    var left := n;
    ghost var done: Items := items;
    while left > 255
      invariant 1 <= left && Wrote(bw, done) && done + BytesOf(Ext(left)) == items + BytesOf(Ext(n))
      invariant Used(bw.w) + 8 * |Ext(left)| == old(Used(bw.w)) + 8 * |Ext(n)|
    {
      BytesOfSplit(0, Ext(left - 255));
      assert done + [Byte(0)] + BytesOf(Ext(left - 255)) == done + BytesOf(Ext(left));
      WriteByte(bw, 0, done);
      done := done + [Byte(0)];
      left := left - 255;
    }
    assert BytesOf(Ext(left)) == [Byte(left)];
    WriteByte(bw, LowByte(left), done);
  }

  // ----- tokens -----

  /** Everything before input position `p` is coded, at nine bits a byte at most. */
  ghost predicate Running(bw: BitWriter, ts: seq<Token>, inp: seq<byte>, p: nat)
    reads bw, bw.out
  {
    && Wrote(bw, Encode(ts)) && LegalAll(ts)
    && p <= |inp| && Expand([], ts) == inp[..p]
    && Used(bw.w) <= 9 * p
    && 9 * |inp| + 18 + 7 <= 8 * bw.out.Length
  }

  method CodeLiteral(bw: BitWriter, c: byte, ghost inp: seq<byte>, ghost p: nat, ghost ts: seq<Token>)
    returns (ghost ts': seq<Token>)
    requires Running(bw, ts, inp, p) && p < |inp| && c == inp[p]
    modifies bw, bw.out
    ensures Running(bw, ts', inp, p + 1) && ts' == ts + [Run([c])]
  {
    hide Wrote, Used, Encode, LegalAll, Expand;
    ghost var items := Encode(ts);
    BitsValid(0, 1);
    WriteBits(bw, 1, 0, items);
    WriteByte(bw, c, items + [ZERO]);
    Snoc(ts, Run([inp[p]]));
    ts' := ts + [Run([inp[p]])];
    assert items + [ZERO] + [Byte(inp[p])] == items + Code(Run([inp[p]]));
    assert inp[..p] + [inp[p]] == inp[..p + 1];
  }

  /** The items of a match, and what they cost. */
  method WriteMatch(bw: BitWriter, len: nat, off: nat, ghost items: Items)
    requires Wrote(bw, items) && Codable(off, len) && RoomFor(bw, 9 * len)
    modifies bw, bw.out
    ensures Wrote(bw, items + Code(Match(off, len, [])))
    ensures Used(bw.w) <= old(Used(bw.w)) + 9 * len
  {
    hide Wrote, Used, Put, PutAll, Pow2, LowByte, Ext;
    BitsValid(1, 1);
    WriteBits(bw, 1, 1, items);
    if IsM1(off, len) {
      WriteNear(bw, len, off, items + [ONE]);
      NearItems(items, len, off);
    } else {
      WriteBits(bw, 1, 1, items + [ONE]);
      WriteFar(bw, len, off, items + [ONE] + [ONE]);
      FarItems(off, len);
      assert items + [ONE] + [ONE] + BytesOf(FarBytes(off, len)) == items + Code(Match(off, len, []));
    }
  }

  /** A near match behind its first bit: a bit, two bits of length, a byte of offset. */
  method WriteNear(bw: BitWriter, len: nat, off: nat, ghost items: Items)
    requires Wrote(bw, items) && Codable(off, len) && IsM1(off, len) && RoomFor(bw, 11)
    modifies bw, bw.out
    ensures Valid(ZERO) && Valid(Bits(2, len - 2))
    ensures Wrote(bw, items + [ZERO] + [Bits(2, len - 2)] + [Byte(LowByte(off - 1))])
    ensures Used(bw.w) == old(Used(bw.w)) + 11
  {
    hide Wrote, Used, Put, PutAll, Pow2, LowByte, Ext;
    BitsValid(0, 1);
    BitsValid(len - 2, 2);
    WriteBits(bw, 1, 0, items);
    WriteBits(bw, 2, len - 2, items + [ZERO]);
    WriteByte(bw, LowByte(off - 1), items + [ZERO] + [Bits(2, len - 2)]);
  }

  lemma NearItems(items: Items, len: nat, off: nat)
    requires Codable(off, len) && IsM1(off, len)
    ensures items + [ONE] + [ZERO] + [Bits(2, len - 2)] + [Byte(LowByte(off - 1))] == items + Code(Match(off, len, []))
  {
    hide LowByte, Ext;
  }

  method WriteFar(bw: BitWriter, len: nat, off: nat, ghost items: Items)
    requires Wrote(bw, items) && Codable(off, len) && !IsM1(off, len) && RoomFor(bw, 9 * len - 2)
    modifies bw, bw.out
    ensures Wrote(bw, items + BytesOf(FarBytes(off, len)))
    ensures Used(bw.w) <= old(Used(bw.w)) + 9 * len - 2
  {
    hide Wrote, Used;
    ghost var e := FarBytes(off, len);
    if len <= 9 {
      WriteByte(bw, LowByte((len - 2) * 32 + off % 32), items);
      WriteByte(bw, LowByte(off / 32), items + [Byte(e[0])]);
      assert items + [Byte(e[0])] + [Byte(e[1])] == items + BytesOf(e);
    } else {
      WriteByte(bw, LowByte(off % 32), items);
      WriteByte(bw, LowByte(off / 32), items + [Byte(e[0])]);
      WriteExt(bw, len - 9, items + [Byte(e[0])] + [Byte(e[1])]);
      assert items + [Byte(e[0])] + [Byte(e[1])] + BytesOf(Ext(len - 9)) == items + BytesOf(e);
    }
  }

  method CodeMatch(bw: BitWriter, ghost inp: seq<byte>, ghost p: nat, len: nat, off: nat, ghost ts: seq<Token>)
    returns (ghost ts': seq<Token>)
    requires Running(bw, ts, inp, p) && Codable(off, len) && Repeats(inp, p, off, len)
    modifies bw, bw.out
    ensures Running(bw, ts', inp, p + len) && ts' == ts + [Match(off, len, [])]
  {
    hide Wrote, Used, Encode, LegalAll, Expand, Codable;
    WriteMatch(bw, len, off, Encode(ts));
    Snoc(ts, Match(off, len, []));
    ts' := ts + [Match(off, len, [])];
    CopyReproduces(inp, p, off, len);
    assert inp[..p + len] + [] == inp[..p + len];
  }

  // ----- the compressor -----

  /** What find_match promises about input position `p`. */
  ghost predicate Sound(inp: seq<byte>, p: nat, m: Found) {
    m.len >= 2 ==> m.off <= N && Repeats(inp, p, m.off, m.len)
  }

  /** The finder will look at input position `p` next. */
  ghost predicate Ready(swd: Swd.Finder, inp: seq<byte>, p: nat)
    reads swd, swd.b, swd.head3, swd.succ3, swd.llen3, swd.best3, swd.head2
  {
    swd.Valid() && swd.n == N && swd.w == inp && swd.at == p
  }

  ghost predicate Apart(swd: Swd.Finder, bw: BitWriter) {
    bw !in swd.Memory() && bw.out !in swd.Memory()
  }

  /** find_match */
  method FindMatch(swd: Swd.Finder, thisLen: nat, skip: nat, ghost inp: seq<byte>, ghost p: nat)
    returns (m: Found, look: nat)
    requires Ready(swd, inp, p) && (skip > 0 ==> skip <= thisLen && p + (thisLen - skip) <= |inp|)
    modifies swd.Memory()
    ensures var at := p + if skip > 0 then thisLen - skip else 0;
            && Sound(inp, at, m) && look == Look(inp, at)
            && (at < |inp| ==> Ready(swd, inp, at + 1) && swd.bChar == inp[at])
            && Swd.Reported(inp, at, N, swd.maxChain, swd.niceLength, swd.marks, m)
    ensures old(swd.marks) <= swd.marks && swd.maxChain == old(swd.maxChain)
  {
    hide Swd.Finder.Valid, Swd.Thorough, Swd.Prompt, Swd.Nearest, Swd.Longest;
    ghost var marks := swd.marks;
    MarksSoFar(swd);
    m, look := swd.FindMatch(thisLen, skip);
    assert swd.marks[..|marks|] == marks;
  }

  lemma MarksSoFar(swd: Swd.Finder)
    requires swd.Valid()
    ensures |swd.marks| == swd.at
  {
    hide Swd.Finder.Placed, Swd.Finder.Filled, Swd.Finder.Chains, Swd.Finder.Pairs, Swd.Finder.Counted;
  }

  /** A new report joins the others. */
  lemma AddReport(inp: seq<byte>, seen: map<nat, Found>, chain: nat, nice: nat, marks: seq<nat>, marks': seq<nat>,
                  p: nat, m: Found)
    requires AllReported(inp, seen, chain, nice, marks) && marks <= marks' && p <= |inp|
    requires Swd.Reported(inp, p, N, chain, nice, marks', m)
    ensures AllReported(inp, seen[p := m], chain, nice, marks')
  {
    hide Swd.Reported;
    var more := marks'[|marks|..];
    assert marks' == marks + more;
    forall q | q in seen ensures Swd.Reported(inp, q, N, chain, nice, marks', seen[q]) {
      Swd.ReportedOn(inp, q, N, chain, nice, marks, more, seen[q]);
    }
  }

  /** How much longer the next match must be for the current one to be given up. */
  method LazyGain(len: nat, off: nat, next: Found) returns (gain: nat)
    requires 2 <= len
    ensures gain == Gain(len, off, next)
  {
    var g: int := if IsM1(off, len) then 2 else 1;
    if IsM1(off, len) && !IsM1(next.off, next.len) {
      g := g + 2;
    }
    if IsM1(next.off, next.len) {
      g := g - 1;
    }
    gain := if g < 1 then 1 else g;
  }

  /** What the loop knows of the reports: they are the finder's, they decide on the tokens so far, and there is none
      for positions behind `p`. */
  ghost predicate Informed(swd: Swd.Finder, inp: seq<byte>, seen: map<nat, Found>, ts: seq<Token>, p: nat)
    reads swd
  {
    && AllReported(inp, seen, swd.maxChain, swd.niceLength, swd.marks)
    && Decided(inp, seen, ts) && forall q :: q in seen ==> q <= p
  }

  lemma NothingReported(inp: seq<byte>, chain: nat, nice: nat, marks: seq<nat>)
    ensures AllReported(inp, map[], chain, nice, marks) && Decided(inp, map[], [])
  {
  }

  /** Ask the finder, and write down what it says. */
  method Ask(swd: Swd.Finder, thisLen: nat, skip: nat, ghost inp: seq<byte>, ghost p: nat,
             ghost seen: map<nat, Found>, ghost ts: seq<Token>)
    returns (m: Found, look: nat, ghost more: map<nat, Found>)
    requires Ready(swd, inp, p) && (skip > 0 ==> skip <= thisLen && p + (thisLen - skip) <= |inp|)
    requires p <= |inp| && AllReported(inp, seen, swd.maxChain, swd.niceLength, swd.marks) && Decided(inp, seen, ts)
    requires forall q :: q in seen ==> q < p
    modifies swd.Memory()
    ensures var at := p + if skip > 0 then thisLen - skip else 0;
            && Sound(inp, at, m) && look == Look(inp, at)
            && (at < |inp| ==> Ready(swd, inp, at + 1) && swd.bChar == inp[at])
            && more == seen[at := m] && Informed(swd, inp, more, ts, at)
    ensures swd.maxChain == old(swd.maxChain)
  {
    hide Ready, AllReported, Decided, Swd.Reported, Sound;
    ghost var marks := swd.marks;
    m, look := FindMatch(swd, thisLen, skip, inp, p);
    ghost var at := p + if skip > 0 then thisLen - skip else 0;
    AddReport(inp, seen, swd.maxChain, swd.niceLength, marks, swd.marks, at, m);
    more := seen[at := m];
    DecidedOn(inp, seen, more, ts);
  }

  method CompressLoop(bw: BitWriter, inp: seq<byte>, swd: Swd.Finder)
    returns (ghost ts: seq<Token>, ghost seen: map<nat, Found>)
    requires Ready(swd, inp, 0) && Apart(swd, bw) && Running(bw, [], inp, 0)
    modifies bw, bw.out, swd.Memory()
    ensures Running(bw, ts, inp, |inp|)
    ensures Decided(inp, seen, ts) && AllReported(inp, seen, swd.maxChain, swd.niceLength, swd.marks)
    ensures swd.maxChain == old(swd.maxChain)
  {
    hide Running, Ready, Repeats, AllReported, Decided, Choice, Gain;
    ghost var p := 0;
    ts, seen := [], map[];
    NothingReported(inp, swd.maxChain, swd.niceLength, swd.marks);
    var cur, look;
    cur, look, seen := Ask(swd, 0, 0, inp, 0, seen, ts);
    while look > 0
      invariant p <= |inp| && Running(bw, ts, inp, p) && Sound(inp, p, cur) && look == Look(inp, p)
      invariant p < |inp| ==> Ready(swd, inp, p + 1) && swd.bChar == inp[p]
      invariant Informed(swd, inp, seen, ts, p) && p in seen && seen[p] == cur && swd.maxChain == old(swd.maxChain)
      decreases |inp| - p
    {
      var mLen, mOff, lit := Usable(cur), cur.off, swd.bChar;
      var ahead := 0;
      if mLen > 0 {
        MatchInside(inp, p, mOff, mLen);
        if look > mLen {
          cur, look, seen := Ask(swd, 1, 0, inp, p + 1, seen, ts);
          var gain := LazyGain(mLen, mOff, cur);
          if cur.len >= mLen + gain {
            ChooseLiteral(bw, inp, seen, ts, p);
            ts := CodeLiteral(bw, lit, inp, p, ts);
            p := p + 1;
            continue;
          }
          ahead := 1;
        }
        assert 1 + ahead <= mLen;
        ChooseMatch(bw, inp, seen, ts, p);
        ts := CodeMatch(bw, inp, p, mLen, mOff, ts);
        cur, look, seen := Ask(swd, mLen, 1 + ahead, inp, p + ahead + 1, seen, ts);
        p := p + mLen;
      } else {
        ChooseLiteral(bw, inp, seen, ts, p);
        ts := CodeLiteral(bw, lit, inp, p, ts);
        cur, look, seen := Ask(swd, 1, 0, inp, p + 1, seen, ts);
        p := p + 1;
      }
    }
  }

  lemma ChooseLiteral(bw: BitWriter, inp: seq<byte>, seen: map<nat, Found>, ts: seq<Token>, p: nat)
    requires Running(bw, ts, inp, p) && p < |inp| && Decided(inp, seen, ts) && p in seen
    requires var m, len := seen[p], Usable(seen[p]);
             len == 0 || (Look(inp, p) > len && p + 1 in seen && seen[p + 1].len >= len + Gain(len, m.off, seen[p + 1]))
    ensures Decided(inp, seen, ts + [Run([inp[p]])])
  {
    hide Decided, Gain, Look, Usable;
    RunningAt(bw, ts, inp, p);
    DecidedSnoc(inp, seen, ts, Run([inp[p]]));
  }

  lemma ChooseMatch(bw: BitWriter, inp: seq<byte>, seen: map<nat, Found>, ts: seq<Token>, p: nat)
    requires Running(bw, ts, inp, p) && p < |inp| && Decided(inp, seen, ts) && p in seen
    requires var m, len := seen[p], Usable(seen[p]);
             len > 0 && (Look(inp, p) > len ==>
                           p + 1 in seen && seen[p + 1].len < len + Gain(len, m.off, seen[p + 1]))
    ensures Decided(inp, seen, ts + [Match(seen[p].off, Usable(seen[p]), [])])
  {
    hide Decided, Gain, Look, Usable;
    RunningAt(bw, ts, inp, p);
    DecidedSnoc(inp, seen, ts, Match(seen[p].off, Usable(seen[p]), []));
  }

  lemma RunningAt(bw: BitWriter, ts: seq<Token>, inp: seq<byte>, p: nat)
    requires Running(bw, ts, inp, p)
    ensures |Expand([], ts)| == p
  {
  }

  lemma MatchInside(inp: seq<byte>, p: nat, off: nat, len: nat)
    requires Repeats(inp, p, off, len)
    ensures 1 <= off <= p && p + len <= |inp|
  {
  }

  lemma RunningStart(bw: BitWriter, inp: seq<byte>)
    requires bw.Valid() && bw.w == EMPTY && 9 * |inp| + 25 <= 8 * bw.out.Length
    ensures Running(bw, [], inp, 0)
  {
  }

  /** The end code. */
  method CodeEof(bw: BitWriter, inp: seq<byte>, ghost ts: seq<Token>)
    requires Running(bw, ts, inp, |inp|)
    modifies bw, bw.out
    ensures Wrote(bw, Encode(ts) + EofItems()) && Used(bw.w) <= 9 * |inp| + 18
  {
    hide Wrote, Used, Encode, LegalAll, Expand;
    ghost var items := Encode(ts);
    BitsValid(1, 1);
    WriteBits(bw, 1, 1, items);
    WriteBits(bw, 1, 1, items + [ONE]);
    WriteByte(bw, 32, items + [ONE] + [ONE]);
    WriteByte(bw, 0, items + [ONE] + [ONE] + [Byte(32)]);
    assert items + [ONE] + [ONE] + [Byte(32)] + [Byte(0)] == items + EofItems();
  }

  /** For every input and every length of the hash chains that is searched: the block decodes to the input, the end
      code stands at the end of the block, and the block takes at most nine bits an input byte and 25 bits more. Its
      tokens are those that the finder's reports decide on. */
  method Compress(inp: seq<byte>, out: array<byte>, maxChain: nat)
    returns (op: nat, ghost ts: seq<Token>, ghost seen: map<nat, Found>, ghost marks: seq<nat>)
    requires 9 * |inp| + 25 <= 8 * out.Length
    modifies out
    ensures op <= out.Length && 8 * op <= 9 * |inp| + 25
    ensures Decode(out[..op]) == Some(Result(inp, op))
    ensures out[..op] == Emit(Encode(ts) + EofItems(), 0, 0).bytes && Expand([], ts) == inp
    ensures Decided(inp, seen, ts) && AllReported(inp, seen, if maxChain == 0 then 2048 else maxChain, 2048, marks)
  {
    hide Running, Decode, Used, Decided, AllReported, Swd.Finder.Valid;
    var bw := new BitWriter(out);
    RunningStart(bw, inp);
    var swd := new Swd.Finder(N, [], inp, 0, false, if maxChain > 0 then maxChain else Swd.MAX_CHAIN, F);
    assert [] + inp == inp;
    ts, seen := CompressLoop(bw, inp, swd);
    marks := swd.marks;
    RunningEnds(bw, ts, inp);
    CodeEof(bw, inp, ts);
    UsedBound(bw.w);
    PutAllJoin(Encode(ts) + EofItems(), []);
    assert Encode(ts) + EofItems() + [] == Encode(ts) + EofItems();
    bw.Flush();
    op := bw.op;
    DecodeEncode(ts);
  }

  lemma RunningEnds(bw: BitWriter, ts: seq<Token>, inp: seq<byte>)
    requires Running(bw, ts, inp, |inp|)
    ensures LegalAll(ts) && Expand([], ts) == inp
  {
  }

  // ----- the decompressor -----

  /** The length and offset of a match, or offset 0 for the end code, after the two flag bits of a far match. */
  method ReadFar(br: BitReader, ghost out: seq<byte>) returns (off: nat, len: nat)
    requires var next := Far(br.inp, br.AsReader(), out); next != Stray && (next.Next? ==> |next.st.out| < WORD)
    modifies br
    ensures br.ip <= |br.inp| && br.b == old(br.b) && br.k == old(br.k)
    ensures off == 0 ==> Far(br.inp, old(br.AsReader()), out) == End(br.ip)
    ensures off > 0 ==> Far(br.inp, old(br.AsReader()), out) == TakeMatch(br.AsReader(), off, len, out)
  {
    hide TakeMatch;
    FarFits(br.inp, br.AsReader(), out);
    var t := br.GetByte();
    var h := br.GetByte();
    off := t % 32 + 32 * (h as int);
    if t / 32 == 0 {
      var n, ip := GetExt(br.inp, br.ip);
      br.ip := ip;
      len := Word(9 + n);
      assert off == 0 ==> TakeMatch(br.AsReader(), off, len, out) == Stray by { ZeroOffset(br.AsReader(), len, out); }
    } else {
      len := t / 32 + 2;
    }
  }

  /** What one step puts out is no longer than a C length, and so its length code does not wrap. */
  lemma FarFits(s: seq<byte>, r: Reader, out: seq<byte>)
    requires var next := Far(s, r, out); next != Stray && (next.Next? ==> |next.st.out| < WORD)
    ensures r.ip + 2 <= |s|
    ensures s[r.ip] / 32 == 0 ==> ReadExt(s, r.ip + 2).Some? && 9 + ReadExt(s, r.ip + 2).value.value < WORD
  {
    hide Copy;
  }

  lemma ZeroOffset(r: Reader, len: nat, out: seq<byte>)
    ensures TakeMatch(r, 0, len, out) == Stray
  {
  }

  lemma TakeMatchFits(r: Reader, off: nat, len: nat, out: seq<byte>)
    requires TakeMatch(r, off, len, out) != Stray
    ensures 1 <= off <= |out| && TakeMatch(r, off, len, out) == Next(State(r, Copy(out, off, len)))
  {
  }

  /** One round of the loop: a literal, a near match, a far match or the end code. */
  method DecodeOne(br: BitReader, out: array<byte>, op: nat) returns (ended: bool, op': nat)
    requires op <= out.Length
    requires var next := Step(br.inp, State(br.AsReader(), out[..op]));
             !next.Stray? && (next.Next? ==> |next.st.out| <= out.Length < WORD)
    modifies br, out
    ensures op' <= out.Length
    ensures ended ==> Step(br.inp, State(old(br.AsReader()), old(out[..op]))) == End(br.ip)
    ensures ended ==> out[..op'] == old(out[..op])
    ensures !ended ==> Step(br.inp, State(old(br.AsReader()), old(out[..op]))) == Next(State(br.AsReader(), out[..op']))
  {
    hide ReadBits, ReadByte, Far, TakeMatch, Copy;
    ended, op' := false, op;
    ghost var done := out[..op];
    var flag := br.GetBits(1);
    if flag == 0 {
      ByteInside(br.inp, br.AsReader());
      var c := br.GetByte();
      out[op] := c;
      assert out[..op + 1] == done + [c];
      return false, op + 1;
    }
    flag := br.GetBits(1);
    var off, len;
    if flag == 0 {
      len := br.GetBits(2);
      ByteInside(br.inp, br.AsReader());
      var o := br.GetByte();
      off, len := (o as int) + 1, len + 2;
    } else {
      off, len := ReadFar(br, done);
      if off == 0 {
        return true, op;
      }
    }
    TakeMatchFits(br.AsReader(), off, len, done);
    CopyMatch(out, op, off, len);
    op' := op + len;
  }

  lemma ByteInside(s: seq<byte>, r: Reader)
    ensures ReadByte(s, r).Some? ==> r.ip < |s|
  {
  }

  /** lzo2a_decompress. The block must be one the code can decode without leaving its buffers. */
  method Decompress(inp: seq<byte>, out: array<byte>) returns (r: EndCode, op: nat)
    requires Decode(inp).Some? && |Decode(inp).value.out| <= out.Length < WORD
    modifies out
    ensures op <= out.Length && Decode(inp).value.out == out[..op]
    ensures r == AtEnd(Decode(inp).value.ip, |inp|)
  {
    hide Step;
    var br := new BitReader(inp);
    op := 0;
    while true
      invariant fresh(br) && br.inp == inp && op <= out.Length
      invariant DecodeFrom(inp, State(br.AsReader(), out[..op])) == Decode(inp)
      decreases |inp| - br.ip
    {
      StepMoves(inp, State(br.AsReader(), out[..op]));
      DecodeGrows(inp, State(br.AsReader(), out[..op]));
      var ended;
      ended, op := DecodeOne(br, out, op);
      if ended {
        return AtEnd(br.ip, |inp|), op;
      }
    }
  }

  /** Decoding never takes back output. */
  lemma {:induction false} DecodeGrows(s: seq<byte>, st: State)
    requires DecodeFrom(s, st).Some?
    ensures Step(s, st).Next? ==> |Step(s, st).st.out| <= |DecodeFrom(s, st).value.out|
    decreases |s| - st.r.ip
  {
    hide Step;
    StepMoves(s, st);
    match Step(s, st)
    case Next(next) =>
      DecodeGrows(s, next);
      StepMoves(s, next);
    case _ =>
  }
}
