/** The record table of the mig4nto library (_table.c): a growing array of records, sorted or not, with a cursor
    for scans that may delete what they have seen. */
module Table {
  import opened Bytes

  // ----- order -----

  /** What bsearch and the sorted insertion need of a compare function: a total preorder. */
  ghost predicate Order<T(!new)>(cmp: (T, T) -> int) {
    && (forall a, b :: cmp(a, b) > 0 <==> cmp(b, a) < 0)
    && forall a, b, c :: cmp(a, b) >= 0 && cmp(b, c) >= 0 ==> cmp(a, c) >= 0
  }

  ghost predicate Sorted<T>(cmp: (T, T) -> int, s: seq<T>) {
    forall i, j :: 0 <= i < j < |s| ==> cmp(s[j], s[i]) >= 0
  }

  function InsertAt<T>(s: seq<T>, k: nat, x: T): (r: seq<T>)
    requires k <= |s|
    ensures |r| == |s| + 1 && r[k] == x
    ensures forall i :: 0 <= i < |r| ==> r[i] == if i < k then s[i] else if i == k then x else s[i - 1]
  {
    s[..k] + [x] + s[k..]
  }

  function RemoveAt<T>(s: seq<T>, k: nat): (r: seq<T>)
    requires k < |s|
    ensures |r| == |s| - 1
    ensures forall i :: 0 <= i < |r| ==> r[i] == if i < k then s[i] else s[i + 1]
  {
    s[..k] + s[k + 1..]
  }

  lemma InsertIs<T>(s: seq<T>, k: nat, x: T)
    requires k <= |s|
    ensures InsertAt(s, k, x) == s[..k] + [x] + s[k..]
    ensures k == |s| ==> InsertAt(s, k, x) == s + [x]
  {
  }

  /** The place for a new record: behind everything less than it, before everything else. */
  ghost predicate Place<T>(cmp: (T, T) -> int, s: seq<T>, k: nat, x: T) {
    && k <= |s|
    && (forall i :: 0 <= i < k ==> cmp(x, s[i]) > 0)
    && forall i :: k <= i < |s| ==> cmp(x, s[i]) <= 0
  }

  lemma Greater<T(!new)>(cmp: (T, T) -> int, a: T, b: T, c: T)
    requires Order(cmp) && cmp(a, b) >= 0 && cmp(b, c) >= 0 && (cmp(a, b) > 0 || cmp(b, c) > 0)
    ensures cmp(a, c) > 0
  {
    assert cmp(b, c) >= 0 && cmp(c, a) >= 0 ==> cmp(b, a) >= 0;
    assert cmp(c, a) >= 0 && cmp(a, b) >= 0 ==> cmp(c, b) >= 0;
  }

  lemma InsertKeepsSorted<T(!new)>(cmp: (T, T) -> int, s: seq<T>, k: nat, x: T)
    requires Order(cmp) && Sorted(cmp, s) && Place(cmp, s, k, x)
    ensures Sorted(cmp, InsertAt(s, k, x))
  {
  }

  lemma RemoveKeepsSorted<T>(cmp: (T, T) -> int, s: seq<T>, k: nat)
    requires Sorted(cmp, s) && k < |s|
    ensures Sorted(cmp, RemoveAt(s, k))
  {
  }

  // ----- the cursor -----

  /** The table as a scan sees it: `next` is the record that S_NEXT, T_FORWARD returns next. */
  datatype Cursor<T> = Cursor(recs: seq<T>, next: nat)

  /** The records a forward scan has still to return. */
  function Remaining<T>(c: Cursor<T>): seq<T>
    requires c.next <= |c.recs|
  {
    c.recs[c.next..]
  }

  function DeleteAt<T>(c: Cursor<T>, index: nat): Cursor<T>
    requires index < |c.recs|
  {
    Cursor(RemoveAt(c.recs, index), if c.next >= index && c.next > 0 then c.next - 1 else c.next)
  }

  function AddAt<T>(c: Cursor<T>, k: nat, x: T): Cursor<T>
    requires k <= |c.recs|
  {
    c.(recs := InsertAt(c.recs, k, x))
  }

  /** A deletion takes nothing from the rest of a scan but the deleted record, and gives nothing back, if and
      only if the deleted record is not the very one that is next (or the scan has not begun). */
  lemma DeleteExact<T>(c: Cursor<T>, index: nat)
    requires c.next <= |c.recs| && index < |c.recs|
    ensures DeleteAt(c, index).next <= |c.recs| - 1
    ensures Remaining(DeleteAt(c, index))
         == (if index < c.next then Remaining(c) else RemoveAt(Remaining(c), index - c.next))
        <==> index != c.next || c.next == 0
    ensures 0 < c.next == index ==> Remaining(DeleteAt(c, index)) == [c.recs[c.next - 1]] + Remaining(c)[1..]
  {
    var d := DeleteAt(c, index);
    if index < c.next {
      assert Remaining(d) == Remaining(c);
    } else if index > c.next || c.next == 0 {
      assert Remaining(d) == RemoveAt(Remaining(c), index - c.next);
    } else {
      assert |Remaining(d)| == |Remaining(c)|;
    }
  }

  /** In a table of two, deleting the second between the two steps of a scan makes the first come twice. */
  lemma DeleteNextRepeats<T>(a: T, b: T)
    ensures var c := Cursor([a, b], 1); Remaining(c) == [b] && Remaining(DeleteAt(c, 1)) == [a]
  {
  }

  /** An insertion never moves the cursor, so a record returned already comes again if and only if the new one
      went in before the cursor. */
  lemma AddExact<T>(c: Cursor<T>, k: nat, x: T)
    requires c.next <= |c.recs| && k <= |c.recs|
    ensures Remaining(AddAt(c, k, x)) == (if k < c.next then Remaining(c) else InsertAt(Remaining(c), k - c.next, x))
        <==> k >= c.next
    ensures k < c.next ==> Remaining(AddAt(c, k, x)) == [c.recs[c.next - 1]] + Remaining(c)
  {
    var d := AddAt(c, k, x);
    if k >= c.next {
      assert Remaining(d) == InsertAt(Remaining(c), k - c.next, x);
    } else {
      assert |Remaining(d)| == |Remaining(c)| + 1;
    }
  }

  function Kept<T>(s: seq<T>, del: seq<bool>): seq<T>
    requires |s| == |del|
  {
    if s == [] then [] else (if del[0] then [] else [s[0]]) + Kept(s[1..], del[1..])
  }

  datatype Scanned<T> = Scanned(visited: seq<T>, end: Cursor<T>)

  /** S_NEXT forward, and deletion of the record just returned if `d` says so. */
  function Advance<T>(c: Cursor<T>, d: bool): (n: Cursor<T>)
    requires c.next < |c.recs|
    ensures n.next <= |n.recs| && |n.recs| - n.next == |c.recs| - c.next - 1
  {
    var moved := c.(next := c.next + 1);
    if d then DeleteAt(moved, c.next) else moved
  }

  /** A forward scan; `del` says after which records the caller deletes the record just returned. */
  function Scan<T>(c: Cursor<T>, del: seq<bool>): Scanned<T>
    requires c.next <= |c.recs| && |del| == |c.recs| - c.next
    decreases |del|
  {
    if del == [] then Scanned([], c)
    else
      var rest := Scan(Advance(c, del[0]), del[1..]);
      Scanned([c.recs[c.next]] + rest.visited, rest.end)
  }

  lemma AdvanceSplits<T>(c: Cursor<T>, d: bool)
    requires c.next < |c.recs|
    ensures var n := Advance(c, d);
            && Remaining(c) == [c.recs[c.next]] + Remaining(n)
            && n.recs[..n.next] == c.recs[..c.next] + if d then [] else [c.recs[c.next]]
  {
    var n := Advance(c, d);
    assert Remaining(n) == Remaining(c)[1..];
  }

  /** Whichever of the returned records are deleted at once, a forward scan visits every record exactly once, in
      order, and what is left is what was not deleted. */
  lemma {:induction false} ScanVisitsAll<T>(c: Cursor<T>, del: seq<bool>)
    requires c.next <= |c.recs| && |del| == |c.recs| - c.next
    ensures Scan(c, del).visited == Remaining(c)
    ensures Scan(c, del).end.recs == c.recs[..c.next] + Kept(Remaining(c), del)
    ensures Scan(c, del).end.next == |Scan(c, del).end.recs|
    decreases |del|
  {
    hide Advance, Kept, Scan;
    ScanStep(c, del);
    if del != [] {
      var n, x := Advance(c, del[0]), c.recs[c.next];
      AdvanceSplits(c, del[0]);
      ScanVisitsAll(n, del[1..]);
      KeptFirst(x, Remaining(n), del);
      assert c.recs[..c.next] + ((if del[0] then [] else [x]) + Kept(Remaining(n), del[1..]))
          == n.recs[..n.next] + Kept(Remaining(n), del[1..]);
    }
  }

  lemma ScanStep<T>(c: Cursor<T>, del: seq<bool>)
    requires c.next <= |c.recs| && |del| == |c.recs| - c.next
    ensures del == [] ==> Scan(c, del) == Scanned([], c) && Kept(Remaining(c), del) == [] == Remaining(c)
    ensures del == [] ==> c.recs == c.recs[..c.next] + []
    ensures del != [] ==>
              var rest := Scan(Advance(c, del[0]), del[1..]);
              Scan(c, del) == Scanned([c.recs[c.next]] + rest.visited, rest.end)
  {
    hide Advance;
  }

  lemma KeptFirst<T>(x: T, s: seq<T>, del: seq<bool>)
    requires |del| == |s| + 1
    ensures Kept([x] + s, del) == (if del[0] then [] else [x]) + Kept(s, del[1..])
  {
    assert ([x] + s)[1..] == s;
  }

  // ----- whole runs of adds and deletes on a sorted table -----

  datatype Change<T> = Add(x: T, at: nat) | Delete(index: nat)

  ghost predicate Allowed<T>(cmp: (T, T) -> int, s: seq<T>, ch: Change<T>) {
    match ch
    case Add(x, at) => Place(cmp, s, at, x)
    case Delete(index) => index < |s|
  }

  ghost function Apply<T>(cmp: (T, T) -> int, s: seq<T>, ch: Change<T>): seq<T>
    requires Allowed(cmp, s, ch)
  {
    match ch
    case Add(x, at) => InsertAt(s, at, x)
    case Delete(index) => RemoveAt(s, index)
  }

  ghost predicate Runs<T>(cmp: (T, T) -> int, s: seq<T>, chs: seq<Change<T>>, end: seq<T>)
    decreases |chs|
  {
    if chs == [] then s == end
    else Allowed(cmp, s, chs[0]) && Runs(cmp, Apply(cmp, s, chs[0]), chs[1..], end)
  }

  lemma {:induction false} RunStaysSorted<T(!new)>(cmp: (T, T) -> int, s: seq<T>, chs: seq<Change<T>>, end: seq<T>)
    requires Order(cmp) && Sorted(cmp, s) && Runs(cmp, s, chs, end)
    ensures Sorted(cmp, end)
    decreases |chs|
  {
    hide Order, Sorted, Place;
    if chs != [] {
      match chs[0] {
        case Add(x, at) => InsertKeepsSorted(cmp, s, at, x);
        case Delete(index) => RemoveKeepsSorted(cmp, s, index);
      }
      RunStaysSorted(cmp, Apply(cmp, s, chs[0]), chs[1..], end);
    }
  }

  // ----- searching -----

  /** Lfind: the first record that compares equal, or -1. */
  method Lfind<T>(key: T, recs: seq<T>, cmp: (T, T) -> int) returns (found: int)
    ensures -1 <= found < |recs|
    ensures found >= 0 ==> cmp(key, recs[found]) == 0
    ensures forall i :: 0 <= i < (if found >= 0 then found else |recs|) ==> cmp(key, recs[i]) != 0
  {
    for i := 0 to |recs|
      invariant forall j :: 0 <= j < i ==> cmp(key, recs[j]) != 0
    {
      if cmp(key, recs[i]) == 0 {
        return i;
      }
    }
    found := -1;
  }

  /** Bfind: like Lfind, and the last record before that place that is less than the key. */
  method Bfind<T>(key: T, recs: seq<T>, cmp: (T, T) -> int) returns (found: int, slot: int)
    ensures -1 <= found < |recs|
    ensures found >= 0 ==> cmp(key, recs[found]) == 0
    ensures forall i :: 0 <= i < (if found >= 0 then found else |recs|) ==> cmp(key, recs[i]) != 0
    ensures -1 <= slot < if found >= 0 then found else |recs|
    ensures slot >= 0 ==> cmp(key, recs[slot]) > 0
    ensures forall i :: slot < i < (if found >= 0 then found else |recs|) ==> cmp(key, recs[i]) < 0
  {
    slot := -1;
    for i := 0 to |recs|
      invariant -1 <= slot < i && (slot >= 0 ==> cmp(key, recs[slot]) > 0)
      invariant forall j :: 0 <= j < i ==> cmp(key, recs[j]) != 0
      invariant forall j :: slot < j < i ==> cmp(key, recs[j]) < 0
    {
      var r := cmp(key, recs[i]);
      if r == 0 {
        return i, slot;
      }
      if r > 0 {
        slot := i;
      }
    }
    found := -1;
  }

  /** In a sorted table Bfind's slot is the place of the key, whether or not an equal record is there. */
  lemma SlotIsPlace<T(!new)>(cmp: (T, T) -> int, recs: seq<T>, key: T, found: int, slot: int)
    requires Order(cmp) && Sorted(cmp, recs)
    requires -1 <= found < |recs| && (found >= 0 ==> cmp(key, recs[found]) == 0)
    requires -1 <= slot < (if found >= 0 then found else |recs|) && (slot >= 0 ==> cmp(key, recs[slot]) > 0)
    requires forall i :: slot < i < (if found >= 0 then found else |recs|) ==> cmp(key, recs[i]) < 0
    ensures Place(cmp, recs, slot + 1, key)
  {
    forall i | 0 <= i < slot ensures cmp(key, recs[i]) > 0 {
      Greater(cmp, key, recs[slot], recs[i]);
    }
    forall i | slot < i < |recs| ensures cmp(key, recs[i]) <= 0 {
      if found >= 0 && i > found {
        assert cmp(recs[i], recs[found]) >= 0;
        assert cmp(recs[found], key) >= 0;
        assert cmp(recs[i], key) >= 0;
      }
    }
  }

  /** The place Bfind finds for a new record in a sorted table. */
  method FindSlot<T(!new)>(key: T, recs: seq<T>, cmp: (T, T) -> int) returns (k: nat)
    requires Order(cmp) && Sorted(cmp, recs)
    ensures Place(cmp, recs, k, key) && k <= |recs| && Sorted(cmp, InsertAt(recs, k, key))
  {
    hide Order, Sorted, InsertAt;
    var found, slot := Bfind(key, recs, cmp);
    SlotIsPlace(cmp, recs, key, found, slot);
    InsertKeepsSorted(cmp, recs, slot + 1, key);
    k := slot + 1;
  }

  /** bsearch: in a sorted table, some record that compares equal, or -1 exactly if there is none. */
  method Bsearch<T(!new)>(key: T, recs: seq<T>, cmp: (T, T) -> int) returns (found: int)
    requires Order(cmp) && Sorted(cmp, recs)
    ensures -1 <= found < |recs|
    ensures found >= 0 ==> cmp(key, recs[found]) == 0
    ensures found >= 0 <==> exists i :: 0 <= i < |recs| && cmp(key, recs[i]) == 0
  {
    var low, high := 0, |recs|;
    while low < high
      invariant 0 <= low <= high <= |recs|
      invariant forall i :: 0 <= i < low ==> cmp(key, recs[i]) > 0
      invariant forall i :: high <= i < |recs| ==> cmp(key, recs[i]) < 0
    {
      var mid := (low + high) / 2;
      var r := cmp(key, recs[mid]);
      if r == 0 {
        return mid;
      } else if r > 0 {
        GreaterThan(cmp, recs, key, mid);
        low := mid + 1;
      } else {
        LessThan(cmp, recs, key, mid);
        high := mid;
      }
    }
    found := -1;
  }

  lemma GreaterThan<T(!new)>(cmp: (T, T) -> int, recs: seq<T>, key: T, mid: nat)
    requires Order(cmp) && Sorted(cmp, recs) && mid < |recs| && cmp(key, recs[mid]) > 0
    ensures forall i :: 0 <= i <= mid ==> cmp(key, recs[i]) > 0
  {
    forall i | 0 <= i < mid ensures cmp(key, recs[i]) > 0 {
      Greater(cmp, key, recs[mid], recs[i]);
    }
  }

  lemma LessThan<T(!new)>(cmp: (T, T) -> int, recs: seq<T>, key: T, mid: nat)
    requires Order(cmp) && Sorted(cmp, recs) && mid < |recs| && cmp(key, recs[mid]) < 0
    ensures forall i :: mid <= i < |recs| ==> cmp(key, recs[i]) < 0
  {
    forall i | mid < i < |recs| ensures cmp(key, recs[i]) < 0 {
      Greater(cmp, recs[i], recs[mid], key);
    }
  }

  // ----- the table -----

  datatype From = Reset | Next | Last

  class RecordTable<T(!new)> {
    var recs: seq<T>
    var nextRecord: nat
    var lastRecord: nat
    const sorted: bool
    const cmp: (T, T) -> int

    ghost predicate Valid()
      reads this
    {
      nextRecord <= |recs| && (sorted ==> Order(cmp) && Sorted(cmp, recs))
    }

    function AsCursor(): Cursor<T>
      reads this
    {
      Cursor(recs, nextRecord)
    }

    /** init_table */
    constructor (sorted: bool, cmp: (T, T) -> int)
      requires sorted ==> Order(cmp)
      ensures Valid() && AsCursor() == Cursor([], 0) && this.sorted == sorted && this.cmp == cmp
    {
      recs, nextRecord, lastRecord := [], 0, 0;
      this.sorted, this.cmp := sorted, cmp;
    }

    /** add_record: into its place in a sorted table, else at the end. */
    method AddRecord(record: T) returns (ghost k: nat)
      requires Valid()
      modifies `recs
      ensures Valid() && k <= |old(recs)| && AsCursor() == AddAt(old(AsCursor()), k, record)
      ensures if sorted then Place(cmp, old(recs), k, record) else k == |old(recs)|
    {
      hide Order, Sorted, Place, InsertAt;
      k := |recs|;
      if sorted {
        var slot := FindSlot(record, recs, cmp);
        InsertIs(recs, slot, record);
        recs := recs[..slot] + [record] + recs[slot..];
        k := slot;
      } else {
        InsertIs(recs, k, record);
        recs := recs + [record];
      }
    }

    /** A record that compares equal to the key: by bsearch if the table is sorted, else the first one. */
    method Find(key: T) returns (index: int)
      requires Valid()
      ensures -1 <= index < |recs|
      ensures index >= 0 <==> exists i :: 0 <= i < |recs| && cmp(key, recs[i]) == 0
      ensures index >= 0 ==> cmp(key, recs[index]) == 0
      ensures index >= 0 && !sorted ==> forall i :: 0 <= i < index ==> cmp(key, recs[i]) != 0
    {
      if sorted {
        index := Bsearch(key, recs, cmp);
      } else {
        index := Lfind(key, recs, cmp);
      }
    }

    /** delete_record: by key, or by number if there is no key. */
    method DeleteRecord(key: Option<T>, recNum: int) returns (ok: bool, ghost index: int)
      requires Valid()
      modifies `recs, `nextRecord
      ensures Valid()
      ensures ok <==> if key.Some? then exists i :: 0 <= i < |old(recs)| && cmp(key.value, old(recs)[i]) == 0
                      else 0 <= recNum < |old(recs)|
      ensures ok ==> 0 <= index < |old(recs)| && AsCursor() == DeleteAt(old(AsCursor()), index)
      ensures ok ==> if key.Some? then cmp(key.value, old(recs)[index]) == 0 else index == recNum
      ensures !ok ==> AsCursor() == old(AsCursor())
    {
      hide Order, Sorted;
      var found := -1;
      if key.Some? {
        found := Find(key.value);
      } else if 0 <= recNum < |recs| {
        found := recNum;
      }
      index := found;
      if found < 0 {
        return false, index;
      }
      if nextRecord >= found && nextRecord > 0 {
        nextRecord := nextRecord - 1;
      }
      if sorted {
        RemoveKeepsSorted(cmp, recs, found);
      }
      recs := recs[..found] + recs[found + 1..];
      ok := true;
    }

    /** get_record */
    method GetRecord(key: T) returns (r: Option<T>, recNum: int)
      requires Valid()
      modifies `lastRecord
      ensures Valid() && -1 <= recNum < |recs| && (r.Some? <==> recNum >= 0)
      ensures r.Some? <==> exists i :: 0 <= i < |recs| && cmp(key, recs[i]) == 0
      ensures r.Some? ==> r.value == recs[recNum] && cmp(key, r.value) == 0 && lastRecord == recNum
      ensures r.Some? && !sorted ==> forall i :: 0 <= i < recNum ==> cmp(key, recs[i]) != 0
    {
      recNum := Find(key);
      if recNum < 0 {
        return None, recNum;
      }
      lastRecord := recNum;
      r := Some(recs[recNum]);
    }

    /** get_next_record. S_RESET rewinds and returns the first record without moving past it, so the S_NEXT
        that follows returns it once more. */
    method GetNextRecord(forward: bool, from: From) returns (r: Option<T>, recNum: nat)
      requires Valid()
      modifies `nextRecord
      ensures Valid() && (r.Some? ==> recNum < |recs| && r.value == recs[recNum])
      ensures recs == [] ==> r == None && nextRecord == old(nextRecord)
      ensures from == Reset && recs != [] ==> r.Some? && recNum == 0 == nextRecord
      ensures from == Next && forward ==> (r.Some? <==> old(nextRecord) < |recs|)
      ensures from == Next && !forward ==> (r.Some? <==> old(nextRecord) > 0)
      ensures from == Next && r.Some? ==>
                if forward then recNum == old(nextRecord) && nextRecord == recNum + 1
                else recNum == old(nextRecord) - 1 && nextRecord == recNum
      ensures from == Last ==> nextRecord == old(nextRecord) && (r.Some? <==> lastRecord < |recs|)
      ensures from == Last && r.Some? ==> recNum == lastRecord
      ensures r.None? ==> nextRecord == old(nextRecord)
    {
      r, recNum := None, 0;
      if |recs| == 0 {
        return;
      }
      match from
      case Reset =>
        nextRecord := 0;
        r := Some(recs[0]);
      case Next =>
        if forward {
          if nextRecord < |recs| {
            r, recNum := Some(recs[nextRecord]), nextRecord;
            nextRecord := nextRecord + 1;
          }
        } else if nextRecord > 0 {
          nextRecord := nextRecord - 1;
          r, recNum := Some(recs[nextRecord]), nextRecord;
        }
      case Last =>
        if lastRecord < |recs| {
          r, recNum := Some(recs[lastRecord]), lastRecord;
        }
    }

    /** A scan as the library's callers write it: rewind, then take record after record, deleting by number
        those the caller has no more use for. */
    method ScanAndDelete(dead: T -> bool) returns (visited: seq<T>)
      requires Valid()
      modifies `recs, `nextRecord
      ensures Valid() && visited == old(recs)
      ensures recs == Filtered(old(recs), dead)
    {
      hide Order, Sorted, Filtered;
      ghost var all, done, pos: nat := recs, 0, 0;
      FilteredNone(all, dead);
      visited := [];
      var scan, n := GetNextRecord(true, Reset);
      if |recs| > 0 {
        scan, n := GetNextRecord(true, Next);
      }
      while scan.Some?
        invariant Valid() && done <= |all| && pos <= |recs| && recs[pos..] == all[done..]
        invariant visited == all[..done] && recs[..pos] == Filtered(all[..done], dead)
        invariant scan == if pos < |recs| then Some(recs[pos]) else None
        invariant scan.Some? ==> n == pos && nextRecord == pos + 1
        decreases |all| - done
      {
        assert scan.value == recs[pos..][0] == all[done];
        FilteredSnoc(all, done, dead);
        visited := visited + [scan.value];
        ghost var before := recs;
        if dead(scan.value) {
          var ok, i := DeleteRecord(None, n);
        } else {
          pos := pos + 1;
        }
        done := done + 1;
        assert recs[pos..] == before[n..][1..] == all[done..];
        scan, n := GetNextRecord(true, Next);
      }
      assert all[..done] == all && recs[..pos] == recs;
    }
  }

  function Filtered<T>(s: seq<T>, dead: T -> bool): seq<T> {
    if s == [] then []
    else Filtered(s[..|s| - 1], dead) + if dead(s[|s| - 1]) then [] else [s[|s| - 1]]
  }

  lemma FilteredNone<T>(s: seq<T>, dead: T -> bool)
    ensures Filtered(s[..0], dead) == []
  {
  }

  lemma FilteredSnoc<T>(s: seq<T>, n: nat, dead: T -> bool)
    requires n < |s|
    ensures Filtered(s[..n + 1], dead) == Filtered(s[..n], dead) + if dead(s[n]) then [] else [s[n]]
  {
    assert s[..n + 1][..n] == s[..n];
  }
}
