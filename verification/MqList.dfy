/** The descriptor list of the message queue library (mq.c): open queues by descriptor id, most recently used
    first, with ids handed out cyclically. */
module MqList {
  import opened Bytes
  import opened Table

  const MQ_MAGIC: int := 0x716D0000
  const IDS: nat := 65536

  // ----- the list of ids -----

  function IndexOf(ids: seq<int>, id: int): (i: nat)
    ensures i <= |ids| && (i < |ids| ==> ids[i] == id)
    ensures forall j :: 0 <= j < i ==> ids[j] != id
  {
    if ids == [] then 0 else if ids[0] == id then 0 else 1 + IndexOf(ids[1..], id)
  }

  function Without(ids: seq<int>, id: int): seq<int> {
    var i := IndexOf(ids, id);
    if i < |ids| then RemoveAt(ids, i) else ids
  }

  function MoveToFront<T>(s: seq<T>, i: nat): seq<T> {
    if i < |s| then [s[i]] + RemoveAt(s, i) else s
  }

  datatype Event = Inserted(id: int) | Lookup(id: int) | Deleted(id: int)

  function Step(ids: seq<int>, e: Event): seq<int> {
    match e
    case Inserted(id) => [id] + ids
    case Lookup(id) => MoveToFront(ids, IndexOf(ids, id))
    case Deleted(id) => Without(ids, id)
  }

  // ----- what the order means -----

  /** Open: inserted, and not deleted since. */
  predicate Open(es: seq<Event>, id: int) {
    if es == [] then false
    else
      var e := es[|es| - 1];
      if e.id == id && !e.Lookup? then e.Inserted? else Open(es[..|es| - 1], id)
  }

  /** When an id was last inserted or looked up. */
  function LastUse(es: seq<Event>, id: int): int
    ensures LastUse(es, id) < |es|
  {
    if es == [] then -1
    else
      var e := es[|es| - 1];
      if e.id == id && !e.Deleted? then |es| - 1 else LastUse(es[..|es| - 1], id)
  }

  /** Only an id that is not open is ever inserted. */
  predicate Fresh(es: seq<Event>) {
    es != [] ==> Fresh(es[..|es| - 1]) && (es[|es| - 1].Inserted? ==> !Open(es[..|es| - 1], es[|es| - 1].id))
  }

  ghost predicate Distinct(ids: seq<int>) {
    forall i, j :: 0 <= i < j < |ids| ==> ids[i] != ids[j]
  }

  ghost predicate Ordered(es: seq<Event>, ids: seq<int>) {
    forall i, j :: 0 <= i < j < |ids| ==> LastUse(es, ids[i]) > LastUse(es, ids[j])
  }

  /** The list holds exactly the open ids, each once, the most recently used first. */
  ghost predicate MostRecentFirst(es: seq<Event>, ids: seq<int>) {
    && Distinct(ids)
    && (forall id :: id in ids <==> Open(es, id))
    && Ordered(es, ids)
  }

  lemma WithoutIs(ids: seq<int>, id: int)
    requires Distinct(ids)
    ensures Distinct(Without(ids, id))
    ensures forall x :: x in Without(ids, id) <==> x in ids && x != id
    ensures id in ids <==> IndexOf(ids, id) < |ids|
  {
    var i := IndexOf(ids, id);
    if i < |ids| {
      var r := RemoveAt(ids, i);
      forall x ensures x in r <==> x in ids && x != id {
        if x in ids && x != id {
          var k :| 0 <= k < |ids| && ids[k] == x;
          assert r[if k < i then k else k - 1] == x;
        }
      }
    }
  }

  /** Taking an id out keeps the order of the others. */
  lemma WithoutOrdered(es: seq<Event>, ids: seq<int>, id: int)
    requires Distinct(ids)
    requires Ordered(es, ids)
    ensures Ordered(es, Without(ids, id))
  {
    hide LastUse;
  }

  lemma LastUseOther(es: seq<Event>, e: Event, ids: seq<int>)
    requires forall id :: id in ids ==> id != e.id || e.Deleted?
    requires Ordered(es, ids)
    ensures Ordered(es + [e], ids)
    ensures forall id :: id in ids ==> LastUse(es + [e], id) < |es|
  {
    assert (es + [e])[..|es|] == es;
    forall id | id in ids ensures LastUse(es + [e], id) == LastUse(es, id) < |es| {
    }
  }

  lemma OpenAfter(es: seq<Event>, e: Event, id: int)
    ensures Open(es + [e], id) == if e.id == id && !e.Lookup? then e.Inserted? else Open(es, id)
    ensures e.id == id && !e.Deleted? ==> LastUse(es + [e], id) == |es|
  {
    assert (es + [e])[..|es|] == es;
  }

  lemma StepKeepsOrder(es: seq<Event>, ids: seq<int>, e: Event)
    requires MostRecentFirst(es, ids) && (e.Inserted? ==> !Open(es, e.id))
    ensures MostRecentFirst(es + [e], Step(ids, e))
  {
    hide Open, LastUse, Without, IndexOf, Ordered, Distinct, MoveToFront;
    var rest := Without(ids, e.id);
    WithoutIs(ids, e.id);
    WithoutOrdered(es, ids, e.id);
    LookupMoves(ids, e.id);
    forall id ensures Open(es + [e], id) == if e.id == id && !e.Lookup? then e.Inserted? else Open(es, id) {
      OpenAfter(es, e, id);
    }
    OpenAfter(es, e, e.id);
    match e
    case Inserted(id) =>
      LastUseOther(es, e, ids);
      FirstAgain(es + [e], id, ids, |es|);
    case Lookup(id) =>
      if IndexOf(ids, id) < |ids| {
        LastUseOther(es, e, rest);
        FirstAgain(es + [e], id, rest, |es|);
      } else {
        LastUseOther(es, e, ids);
      }
    case Deleted(id) =>
      LastUseOther(es, e, rest);
  }

  lemma LookupMoves(ids: seq<int>, id: int)
    ensures var i := IndexOf(ids, id); MoveToFront(ids, i) == if i < |ids| then [id] + Without(ids, id) else ids
  {
  }

  lemma FirstAgain(es: seq<Event>, id: int, rest: seq<int>, n: int)
    requires LastUse(es, id) == n && forall x :: x in rest ==> LastUse(es, x) < n
    requires Distinct(rest) && id !in rest && Ordered(es, rest)
    ensures Distinct([id] + rest) && Ordered(es, [id] + rest)
  {
    hide LastUse;
  }

  // ----- the next id -----

  function IdOf(sequence: nat): int {
    MQ_MAGIC + sequence
  }

  /** The next of the 16-bit sequence numbers. */
  function Increment(sequence: nat): nat {
    (sequence + 1) % IDS
  }

  /** The first of `n` sequence numbers from `start` on, cyclically, whose id is not in the list. */
  function Pick(ids: seq<int>, start: nat, n: nat): (r: Option<nat>)
    requires start < IDS
    ensures r.Some? ==> r.value < IDS && IdOf(r.value) !in ids
    decreases n
  {
    if n == 0 then None
    else if IdOf(start) !in ids then Some(start)
    else Pick(ids, Increment(start), n - 1)
  }

  /** The k-th sequence number from `start`. */
  function Ahead(start: nat, k: nat): nat {
    (start + k) % IDS
  }

  /** Pick finds nothing exactly if all `n` are taken, and otherwise takes the nearest. */
  lemma {:induction false} PickNearest(ids: seq<int>, start: nat, n: nat)
    requires start < IDS
    ensures Pick(ids, start, n).None? <==> forall k :: 0 <= k < n ==> IdOf(Ahead(start, k)) in ids
    ensures Pick(ids, start, n).Some? ==>
              exists k :: 0 <= k < n && Pick(ids, start, n).value == Ahead(start, k)
                          && forall j :: 0 <= j < k ==> IdOf(Ahead(start, j)) in ids
    decreases n
  {
    if n > 0 {
      assert Ahead(start, 0) == start;
      if IdOf(start) in ids {
        PickNearest(ids, Increment(start), n - 1);
        forall k: nat ensures Ahead(Increment(start), k) == Ahead(start, k + 1) {
          AheadNext(start, k);
        }
        forall k | 0 < k ensures Ahead(start, k) == Ahead(Increment(start), k - 1) {
        }
        if Pick(ids, start, n).Some? {
          var k :| 0 <= k < n - 1 && Pick(ids, start, n).value == Ahead(Increment(start), k)
                   && forall j :: 0 <= j < k ==> IdOf(Ahead(Increment(start), j)) in ids;
          assert Pick(ids, start, n).value == Ahead(start, k + 1);
        }
      }
    }
  }

  lemma AheadNext(start: nat, k: nat)
    ensures Ahead(Increment(start), k) == Ahead(start, k + 1)
  {
  }

  lemma AheadReaches(start: nat, target: nat)
    requires start < IDS && target < IDS
    ensures var k := if target >= start then target - start else target + IDS - start;
            k < IDS && Ahead(start, k) == target
  {
  }

  /** Insertion fails only when all 65536 ids are in use, wherever the search starts. */
  lemma PickFailsExactly(ids: seq<int>, start: nat)
    requires start < IDS
    ensures Pick(ids, start, IDS).None? <==> forall s :: 0 <= s < IDS ==> IdOf(s) in ids
  {
    PickNearest(ids, start, IDS);
    if forall k :: 0 <= k < IDS ==> IdOf(Ahead(start, k)) in ids {
      forall s | 0 <= s < IDS ensures IdOf(s) in ids {
        AheadReaches(start, s);
      }
    } else {
      var k :| 0 <= k < IDS && IdOf(Ahead(start, k)) !in ids;
      assert 0 <= Ahead(start, k) < IDS;
    }
  }

  lemma {:induction false} CountIds(ids: seq<int>, n: nat)
    requires Distinct(ids)
    ensures (forall i :: 0 <= i < |ids| ==> 0 <= ids[i] - MQ_MAGIC < n) ==> |ids| <= n
    ensures (forall s :: 0 <= s < n ==> IdOf(s) in ids) ==> |ids| >= n
  {
    hide IndexOf;
    if n > 0 {
      var rest := Without(ids, IdOf(n - 1));
      WithoutIs(ids, IdOf(n - 1));
      assert forall i :: 0 <= i < |rest| ==> rest[i] in rest;
      CountIds(rest, n - 1);
    } else {
      assert ids != [] ==> !(0 <= ids[0] - MQ_MAGIC < n);
    }
  }

  /** Ids are in use all together exactly when 65536 descriptors are open. */
  lemma FullExactly(ids: seq<int>)
    requires Distinct(ids) && forall i :: 0 <= i < |ids| ==> 0 <= ids[i] - MQ_MAGIC < IDS
    ensures |ids| <= IDS && ((forall s :: 0 <= s < IDS ==> IdOf(s) in ids) <==> |ids| == IDS)
  {
    CountIds(ids, IDS);
    if s :| 0 <= s < IDS && IdOf(s) !in ids {
      OneFree(ids, s);
    }
  }

  /** With one id free, there is room for at least one more. */
  lemma OneFree(ids: seq<int>, s: nat)
    requires Distinct(ids) && s < IDS && IdOf(s) !in ids
    requires forall i :: 0 <= i < |ids| ==> 0 <= ids[i] - MQ_MAGIC < IDS
    ensures |ids| < IDS
  {
    var more := [IdOf(s)] + ids;
    assert Distinct(more);
    CountIds(more, IDS);
  }

  // ----- whole runs -----

  /** Ids are distinct, and all carry the magic number. */
  ghost predicate GoodIds(ids: seq<int>) {
    Distinct(ids) && forall i :: 0 <= i < |ids| ==> 0 <= ids[i] - MQ_MAGIC < IDS
  }

  lemma StepGood(ids: seq<int>, e: Event)
    requires GoodIds(ids) && (e.Inserted? ==> e.id !in ids && 0 <= e.id - MQ_MAGIC < IDS)
    ensures GoodIds(Step(ids, e))
  {
    hide IndexOf;
  }

  /** What the callers of the library do. An insert does not choose its id. */
  datatype Operation = Insert | Look(id: int) | Delete(id: int)

  /** The list of ids, the counter, and what has happened so far. */
  datatype Mqs = Mqs(ids: seq<int>, sequence: nat, trace: seq<Event>)

  /** The id an insert ends with, if it gets one, and the counter: after a search around the whole cycle it stands
      where the search began. */
  function Choose(ids: seq<int>, sequence: nat): (r: (Option<int>, nat))
    ensures r.1 < IDS && (r.0.Some? ==> r.0.value !in ids && r.0.value == IdOf(r.1))
  {
    match Pick(ids, Increment(sequence), IDS)
    case Some(n) => (Some(IdOf(n)), n)
    case None => (None, Increment(sequence))
  }

  function Happen(s: Mqs, e: Event): Mqs {
    s.(ids := Step(s.ids, e), trace := s.trace + [e])
  }

  function Do(s: Mqs, op: Operation): Mqs {
    match op
    case Insert =>
      var (id, sequence) := Choose(s.ids, s.sequence);
      var next := s.(sequence := sequence);
      if id.Some? then Happen(next, Inserted(id.value)) else next
    case Look(id) => Happen(s, Lookup(id))
    case Delete(id) => Happen(s, Deleted(id))
  }

  function DoAll(ops: seq<Operation>): Mqs {
    if ops == [] then Mqs([], 0, []) else Do(DoAll(ops[..|ops| - 1]), ops[|ops| - 1])
  }

  lemma HappenKeeps(s: Mqs, e: Event)
    requires MostRecentFirst(s.trace, s.ids) && GoodIds(s.ids) && Fresh(s.trace)
    requires e.Inserted? ==> e.id !in s.ids && 0 <= e.id - MQ_MAGIC < IDS
    ensures var r := Happen(s, e); MostRecentFirst(r.trace, r.ids) && GoodIds(r.ids) && Fresh(r.trace)
  {
    hide Step, Open, Ordered, Distinct;
    StepKeepsOrder(s.trace, s.ids, e);
    StepGood(s.ids, e);
    assert (s.trace + [e])[..|s.trace|] == s.trace;
  }

  /** Over every run of inserts, lookups and deletes from the empty list: no id that is open is given out again,
      and the list holds exactly the open ids, each once, the most recently used first. */
  lemma {:induction false} RunMostRecentFirst(ops: seq<Operation>)
    ensures var r := DoAll(ops); Fresh(r.trace) && MostRecentFirst(r.trace, r.ids) && GoodIds(r.ids)
  {
    hide MostRecentFirst, GoodIds, Fresh, Step, Choose;
    if ops == [] {
      NothingOpen();
    } else {
      var s := DoAll(ops[..|ops| - 1]);
      RunMostRecentFirst(ops[..|ops| - 1]);
      match ops[|ops| - 1]
      case Insert =>
        var (id, sequence) := Choose(s.ids, s.sequence);
        if id.Some? {
          HappenKeeps(s.(sequence := sequence), Inserted(id.value));
        }
      case Look(id) => HappenKeeps(s, Lookup(id));
      case Delete(id) => HappenKeeps(s, Deleted(id));
    }
  }

  /** The ids of a library that only opens count up from 1, and the latest stands first. */
  lemma {:induction false} FirstIds(n: nat)
    requires n < 65536
    ensures var r := DoAll(seq(n, _ => Insert));
            r.sequence == n && |r.ids| == n && forall i :: 0 <= i < n ==> r.ids[i] == 0x716D_0000 + n - i
  {
    hide Choose;
    if n > 0 {
      var ops: seq<Operation> := seq(n, _ => Insert);
      assert ops[..n - 1] == seq(n - 1, _ => Insert);
      FirstIds(n - 1);
      ChooseNext(DoAll(ops[..n - 1]).ids, n - 1);
    }
  }

  /** A number behind all others in use is chosen at once. */
  lemma ChooseNext(ids: seq<int>, n: nat)
    requires n < 65535 && forall i :: 0 <= i < |ids| ==> ids[i] <= 0x716D_0000 + n
    ensures Choose(ids, n) == (Some(0x716D_0000 + n + 1), n + 1)
  {
    hide Pick;
    PickFirst(ids, n + 1, IDS);
  }

  lemma PickFirst(ids: seq<int>, start: nat, n: nat)
    requires start < IDS && 0 < n && IdOf(start) !in ids
    ensures Pick(ids, start, n) == Some(start)
  {
  }

  lemma NothingOpen()
    ensures Fresh([]) && MostRecentFirst([], []) && GoodIds([])
  {
  }

  // ----- the list in memory -----

  class Mqd {
    var id: int
    var link: Mqd?
    /** The file descriptor, channel, connection and attributes, as one value. */
    const queue: int

    constructor (queue: int)
      ensures this.queue == queue
    {
      this.queue := queue;
    }
  }

  datatype Copy = Copy(id: int, queue: int)

  ghost function Ids(list: seq<Mqd>): (ids: seq<int>)
    reads list
    ensures |ids| == |list|
  {
    seq(|list|, i requires 0 <= i < |list| reads list => list[i].id)
  }

  function After(list: seq<Mqd>, i: nat): Mqd? {
    if i < |list| then list[i] else null
  }

  /** `first` heads a null-terminated list of exactly these, all different. */
  ghost predicate Linked(list: seq<Mqd>, first: Mqd?)
    reads list
  {
    && first == After(list, 0)
    && (forall i :: 0 <= i < |list| ==> list[i].link == After(list, i + 1))
    && forall i, j :: 0 <= i < j < |list| ==> list[i] != list[j]
  }

  lemma LinkHead(list: seq<Mqd>, first: Mqd?)
    requires Linked(list, first)
    ensures first == After(list, 0)
  {
  }

  lemma LinkedParts(list: seq<Mqd>, first: Mqd?)
    requires Linked(list, first)
    ensures first == After(list, 0)
    ensures forall j, k :: 0 <= j < k < |list| ==> list[j] != list[k]
    ensures forall k :: 0 <= k < |list| ==> list[k].link == After(list, k + 1)
  {
  }

  lemma LinkUnique(list: seq<Mqd>, first: Mqd?, i: nat)
    requires Linked(list, first) && i < |list|
    ensures list[i] !in RemoveAt(list, i)
  {
    var r := RemoveAt(list, i);
    forall k | 0 <= k < |r| ensures r[k] != list[i] {
    }
  }

  /** Cutting one descriptor out: only the link before it has changed. */
  lemma LinkedWithout(list: seq<Mqd>, i: nat, first: Mqd?)
    requires i < |list| && forall j, k :: 0 <= j < k < |list| ==> list[j] != list[k]
    requires forall k :: 0 <= k < |list| && k != i && k + 1 != i ==> list[k].link == After(list, k + 1)
    requires i > 0 ==> list[i - 1].link == After(list, i + 1)
    requires first == After(list, if i == 0 then 1 else 0)
    ensures Linked(RemoveAt(list, i), first)
  {
    var r := RemoveAt(list, i);
    forall k | 0 <= k < |r| ensures r[k].link == After(r, k + 1) {
      if k + 1 == i {
        assert r[k] == list[i - 1];
      } else {
        assert r[k] == list[if k < i then k else k + 1];
      }
    }
  }

  lemma LinkAt(list: seq<Mqd>, first: Mqd?, i: nat)
    requires Linked(list, first) && i < |list|
    ensures list[i].link == After(list, i + 1)
  {
  }

  lemma FirstStays<T>(s: seq<T>)
    requires s != []
    ensures MoveToFront(s, 0) == s
  {
  }

  class Control {
    var queues: Mqd?
    var sequence: nat
    ghost var list: seq<Mqd>

    ghost predicate Valid()
      reads this, list
    {
      && Linked(list, queues)
      && sequence < IDS
      && GoodIds(Ids(list))
    }

    constructor ()
      ensures Valid() && list == [] && sequence == 0
    {
      queues, sequence, list := null, 0, [];
    }

    /** mqmatch: the descriptor with this id, and the one whose link leads to it (null for the head). */
    method MqMatch(id: int) returns (mq: Mqd?, prev: Mqd?)
      requires Linked(list, queues)
      ensures var i := IndexOf(Ids(list), id);
              mq == After(list, i) && (i == 0 ==> prev == null) && (0 < i ==> prev == list[i - 1])
    {
      hide Linked, IndexOf;
      ghost var i: nat, ids := 0, Ids(list);
      LinkHead(list, queues);
      prev, mq := null, queues;
      while mq != null
        invariant i <= |list| && mq == After(list, i) && (i == 0 ==> prev == null) && (0 < i ==> prev == list[i - 1])
        invariant forall j :: 0 <= j < i ==> ids[j] != id
        decreases |list| - i
      {
        if mq.id == id {
          FirstIndex(ids, id, i);
          return;
        }
        LinkAt(list, queues, i);
        prev, mq := mq, mq.link;
        i := i + 1;
      }
      FirstIndex(ids, id, i);
    }

    /** Make the link that leads to the descriptor lead past it. */
    method Unlink(mp: Mqd, prev: Mqd?, ghost i: nat)
      requires Linked(list, queues) && i < |list| && mp == list[i]
      requires (i == 0 ==> prev == null) && (0 < i ==> prev == list[i - 1])
      modifies `queues, `list, list`link
      ensures list == RemoveAt(old(list), i) && Linked(list, queues)
      ensures Ids(list) == RemoveAt(old(Ids(list)), i) && mp.id == old(mp.id)
    {
      hide Linked, After, RemoveAt;
      ghost var l, ids := list, Ids(list);
      LinkedParts(l, queues);
      if prev == null {
        queues := mp.link;
      } else {
        prev.link := mp.link;
      }
      forall k | 0 <= k < |l| && k != i && k + 1 != i ensures l[k].link == After(l, k + 1) {
        assert prev != null ==> l[k] != prev;
      }
      LinkedWithout(l, i, queues);
      list := RemoveAt(list, i);
      assert Ids(l) == ids;
      IdsWithout(l, i);
    }

    /** Put a descriptor at the head of the list. */
    method PushFront(mp: Mqd)
      requires Linked(list, queues) && mp !in list
      modifies `queues, `list, mp`link
      ensures list == [mp] + old(list) && Linked(list, queues)
      ensures Ids(list) == [mp.id] + old(Ids(list))
    {
      mp.link := queues;
      queues := mp;
      list := [mp] + list;
    }

    /** mqlookup: a copy of the descriptor, which moves to the front. An id without the magic number is turned
        away at once; it could not have been in the list anyway. */
    method MqLookup(id: int) returns (copy: Option<Copy>)
      requires Valid()
      modifies this, list
      ensures Valid() && list == MoveToFront(old(list), IndexOf(old(Ids(list)), id)) && sequence == old(sequence)
      ensures Ids(list) == Step(old(Ids(list)), Lookup(id))
      ensures copy.Some? <==> id in old(Ids(list))
      ensures copy.Some? ==> list != [] && copy.value == Copy(id, list[0].queue) && list[0].id == id
    {
      hide Linked, IndexOf, GoodIds;
      ghost var ids, l := Ids(list), list;
      ghost var i := IndexOf(ids, id);
      StepGood(ids, Lookup(id));
      Present(ids, id);
      if id / 0x10000 != 0x716D {
        NoMagic(ids, id);
        return None;
      }
      var mp, prev := MqMatch(id);
      if mp == null {
        return None;
      }
      assert mp.id == ids[i] == id;
      if prev != null {
        LinkUnique(list, queues, i);
        Unlink(mp, prev, i);
        PushFront(mp);
      } else {
        FirstStays(l);
        FirstStays(ids);
      }
      copy := Some(Copy(mp.id, mp.queue));
    }

    /** mqmodify(id, 0): the descriptor itself, without moving it. */
    method MqModify(id: int) returns (mp: Mqd?)
      requires Valid()
      ensures mp != null <==> id in Ids(list)
      ensures mp != null ==> mp in list && mp.id == id
    {
      hide Linked, IndexOf, GoodIds;
      ghost var ids := Ids(list);
      Present(ids, id);
      if id / 0x10000 != 0x716D {
        NoMagic(ids, id);
        return null;
      }
      var prev;
      mp, prev := MqMatch(id);
      assert mp != null ==> mp.id == ids[IndexOf(ids, id)];
    }

    /** mqdelete */
    method MqDelete(id: int) returns (mp: Mqd?)
      requires Valid()
      modifies this, list
      ensures Valid() && Ids(list) == Step(old(Ids(list)), Deleted(id)) && sequence == old(sequence)
      ensures mp != null <==> id in old(Ids(list))
      ensures mp != null ==> mp in old(list) && mp.id == id && list == RemoveAt(old(list), IndexOf(old(Ids(list)), id))
      ensures mp == null ==> list == old(list)
    {
      hide Linked, IndexOf, GoodIds;
      ghost var ids := Ids(list);
      ghost var i := IndexOf(ids, id);
      StepGood(ids, Deleted(id));
      Present(ids, id);
      var prev;
      mp, prev := MqMatch(id);
      if mp != null {
        assert mp.id == ids[i] == id;
        Unlink(mp, prev, i);
      }
    }

    /** mqinsert: the next free sequence number, cyclically, makes the id; false only if there is none. */
    method MqInsert(created: Mqd) returns (ok: bool)
      requires Valid() && created !in list
      modifies this, created
      ensures Valid()
      ensures var pick := Pick(old(Ids(list)), Increment(old(sequence)), IDS);
              && (ok <==> pick.Some?)
              && (ok ==> sequence == pick.value && created.id == IdOf(pick.value) && list == [created] + old(list)
                         && Ids(list) == Step(old(Ids(list)), Inserted(created.id)))
              && (!ok ==> list == old(list) && Ids(list) == old(Ids(list)) && sequence == Increment(old(sequence)))
      ensures (if ok then Some(created.id) else None, sequence) == Choose(old(Ids(list)), old(sequence))
    {
      hide Linked, IndexOf, GoodIds, Pick, Increment;
      ghost var ids, start := Ids(list), Increment(sequence);
      NextSmall(sequence);
      sequence := Increment(sequence);
      var wrap := sequence;
      ghost var left := IDS;
      while true
        invariant Valid() && list == old(list) && Ids(list) == ids && created !in list && 1 <= left <= IDS
        invariant sequence == Ahead(wrap, IDS - left) && Pick(ids, start, IDS) == Pick(ids, sequence, left)
        decreases left
      {
        Present(ids, IdOf(sequence));
        PickStep(ids, sequence, left);
        created.id := IdOf(sequence);
        var mq, prev := MqMatch(created.id);
        if mq == null {
          StepGood(ids, Inserted(created.id));
          PushFront(created);
          return true;
        }
        AroundStep(wrap, left);
        NextSmall(sequence);
        sequence := Increment(sequence);
        if sequence == wrap {
          return false;
        }
        left := left - 1;
      }
      ok := false;
    }
  }

  lemma NextSmall(sequence: nat)
    ensures Increment(sequence) < IDS
  {
  }

  lemma PickStep(ids: seq<int>, start: nat, n: nat)
    requires start < IDS && 1 <= n
    ensures Increment(start) < IDS
    ensures Pick(ids, start, n) == if IdOf(start) !in ids then Some(start) else Pick(ids, Increment(start), n - 1)
    ensures n == 1 ==> Pick(ids, Increment(start), n - 1) == None
  {
  }

  /** The search is back where it began exactly after 65536 steps. */
  lemma AroundStep(wrap: nat, left: nat)
    requires wrap < IDS && 1 <= left <= IDS
    ensures Increment(Ahead(wrap, IDS - left)) == Ahead(wrap, IDS - (left - 1))
    ensures Ahead(wrap, IDS - (left - 1)) == wrap <==> left == 1
  {
  }

  lemma Present(ids: seq<int>, id: int)
    ensures id in ids <==> IndexOf(ids, id) < |ids|
  {
  }

  lemma IdsWithout(list: seq<Mqd>, i: nat)
    requires i < |list|
    ensures Ids(RemoveAt(list, i)) == RemoveAt(Ids(list), i)
  {
  }

  lemma FirstIndex(ids: seq<int>, id: int, i: nat)
    requires i <= |ids| && (i < |ids| ==> ids[i] == id) && forall j :: 0 <= j < i ==> ids[j] != id
    ensures IndexOf(ids, id) == i
  {
  }

  lemma NoMagic(ids: seq<int>, id: int)
    requires GoodIds(ids) && id / 0x10000 != 0x716D
    ensures id !in ids
  {
  }
}
