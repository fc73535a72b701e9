/** The receive buffers of an asynchronous channel (asyncmsg_get.c, asyncmsg_channel_destroy.c): a free list of
    linked buffers, refilled, lent to the kernel and given back. One receiver at a time uses a channel. */
module AsyncReceive {

  class Buffer {
    var next: Buffer?

    constructor (next: Buffer?)
      ensures this.next == next
    {
      this.next := next;
    }
  }

  /** `first` heads a null-terminated list of exactly these buffers, all different. */
  ghost predicate Linked(list: seq<Buffer>, first: Buffer?)
    reads list
  {
    && first == (if list == [] then null else list[0])
    && (forall i :: 0 <= i < |list| ==> list[i].next == After(list, i))
    && Distinct(list)
  }

  function After(list: seq<Buffer>, i: nat): Buffer? {
    if i + 1 < |list| then list[i + 1] else null
  }

  ghost predicate Distinct(list: seq<Buffer>) {
    forall i, j :: 0 <= i < j < |list| ==> list[i] != list[j]
  }

  lemma LinkedFirst(b: Buffer, list: seq<Buffer>, first: Buffer?)
    requires Linked(list, first) && b !in list && b.next == first
    ensures Linked([b] + list, b)
  {
    var l := [b] + list;
    forall i | 0 <= i < |l| ensures l[i].next == After(l, i) {
      if i > 0 {
        LinkedNext(list, first, i - 1);
      }
    }
    forall i, j | 0 <= i < j < |l| ensures l[i] != l[j] {
      if i > 0 {
        assert l[i] == list[i - 1] && l[j] == list[j - 1];
      } else {
        assert l[j] == list[j - 1];
      }
    }
  }

  lemma LinkedHead(list: seq<Buffer>, first: Buffer?)
    requires Linked(list, first)
    ensures first == (if list == [] then null else list[0])
  {
  }

  lemma LinkedNext(list: seq<Buffer>, first: Buffer?, i: nat)
    requires Linked(list, first) && i < |list|
    ensures list[i].next == After(list, i)
  {
  }

  /** What is left of a list behind its first `k` buffers. */
  lemma LinkedDrop(list: seq<Buffer>, k: nat)
    requires k < |list| && Linked(list, list[0])
    ensures Linked(list[k..], list[k]) && list[..k] + list[k..] == list
    ensures forall b :: b in list[..k] ==> b !in list[k..]
  {
    var l := list[k..];
    forall i | 0 <= i < |l| ensures l[i].next == After(l, i) {
      LinkedNext(list, list[0], k + i);
    }
  }

  /** A link that leads out of the first `k` buffers has been cut. */
  lemma LinkedTake(list: seq<Buffer>, k: nat)
    requires 1 <= k <= |list| && Distinct(list) && list[k - 1].next == null
    requires forall i :: 0 <= i < k - 1 ==> list[i].next == After(list, i)
    ensures Linked(list[..k], list[0])
  {
    var l := list[..k];
    forall i | 0 <= i < |l| ensures l[i].next == After(l, i) {
      assert l[i] == list[i];
    }
  }

  lemma LinkedDistinct(list: seq<Buffer>, first: Buffer?)
    requires Linked(list, first)
    ensures Distinct(list)
  {
  }

  function Flat(batches: seq<seq<Buffer>>): seq<Buffer> {
    if batches == [] then [] else Flat(batches[..|batches| - 1]) + batches[|batches| - 1]
  }

  lemma FlatNone()
    ensures Flat([]) == []
  {
  }

  lemma FlatSnoc(batches: seq<seq<Buffer>>, batch: seq<Buffer>)
    ensures Flat(batches + [batch]) == Flat(batches) + batch
  {
    assert (batches + [batch])[..|batches|] == batches;
  }

  class Channel {
    var free: Buffer?
    var numFree: nat
    const max: nat
    const iovs: array<Buffer?>
    /** The free list, and every buffer ever handed to the application. */
    ghost var list: seq<Buffer>
    ghost var handed: set<Buffer>

    /** The free list is acyclic, `numFree` long, no longer than the limit, and free of anything handed out. */
    ghost predicate Valid()
      reads this, list
    {
      && Linked(list, free)
      && numFree == |list| <= max
      && iovs.Length == max
      && forall b :: b in list ==> b !in handed
    }

    constructor (max: nat)
      ensures Valid() && list == [] && handed == {} && this.max == max && fresh(iovs)
    {
      free, numFree := null, 0;
      this.max := max;
      iovs := new Buffer?[max](_ => null);
      list, handed := [], {};
    }

    /** The refill loop; the allocator (malloc or the channel's own callback) fails after `budget` buffers. */
    method Refill(budget: nat) returns (ghost made: seq<Buffer>)
      requires Valid()
      modifies this
      ensures Valid() && handed == old(handed)
      ensures list == made + old(list) && forall b :: b in made ==> fresh(b)
      ensures numFree == max || |made| == budget
    {
      hide Linked;
      var left: nat := budget;
      made := [];
      while numFree < max && left > 0
        invariant Valid() && handed == old(handed) && list == made + old(list) && left + |made| == budget
        invariant forall b :: b in made ==> fresh(b)
        decreases left
      {
        var agh := new Buffer(free);
        LinkedFirst(agh, list, free);
        free := agh;
        numFree := numFree + 1;
        made := [agh] + made;
        list := [agh] + list;
        left := left - 1;
      }
    }

    /** Fill the I/O vector from the free list. A list of more than `max` buffers cannot arise, so the walk
        always ends at the end of the list. */
    method Walk() returns (n: nat)
      requires Valid()
      modifies iovs
      ensures n == |list| && iovs[..n] == list
    {
      hide Linked;
      LinkedHead(list, free);
      var agh := free;
      n := 0;
      while n < max && agh != null
        invariant n <= |list| && agh == if n < |list| then list[n] else null
        invariant iovs[..n] == list[..n]
        decreases max - n
      {
        LinkedNext(list, free, n);
        iovs[n] := agh;
        n, agh := n + 1, agh.next;
      }
    }

    /** asyncmsg_get. `receive` is the kernel's answer to MsgReceiveAsync for that many buffers: how many it
        filled, or an error below one. The first `used` buffers come back as a list of their own; all the others,
        old and new, are on the free list again. */
    method Get(budget: nat, receive: nat -> int) returns (r: Buffer?, ghost got: seq<Buffer>, ghost made: seq<Buffer>)
      requires Valid() && forall n: nat :: receive(n) <= n
      modifies this, list, iovs
      ensures Valid() && Linked(got, r) && (forall b :: b in made ==> fresh(b))
      ensures got + list == made + old(list)
      ensures |got| == (var n := |made + old(list)|; if n == 0 || receive(n) <= 0 then 0 else receive(n))
      ensures handed == old(handed) + (set b | b in got) && forall b :: b in got ==> b !in old(handed)
    {
      hide Linked;
      made := Refill(budget);
      var n := Walk();
      LinkedHead(list, free);
      r, got := null, [];
      assert forall b :: b in list ==> b in made || b in old(list);
      assert forall i :: 0 <= i < |list| ==> fresh(list[i]) || list[i] in old(list);
      if n > 0 {
        r, got := Lend(n, receive(n));
      } else {
        LinkedNone();
      }
    }

    lemma LinkedNone()
      ensures Linked([], null)
    {
    }

    /** From taking the whole free list to returning what the kernel filled. */
    method Lend(n: nat, used: int) returns (r: Buffer?, ghost got: seq<Buffer>)
      requires Valid() && 1 <= n == |list| && iovs[..n] == list && used <= n
      modifies this, list
      ensures Valid() && Linked(got, r) && got + list == old(list)
      ensures |got| == if used <= 0 then 0 else used
      ensures handed == old(handed) + (set b | b in got)
    {
      hide Linked;
      ghost var all := list;
      LinkedHead(all, free);
      LinkedNone();
      free, numFree, list := null, 0, [];
      if used <= 0 {
        assert all[0..] == all;
        GiveBack(0, n, all);
        return null, [];
      }
      got := all[..used];
      handed := handed + (set b | b in got);
      if used < n {
        LinkedDrop(all, used);
        GiveBack(used, n, all);
        LinkedHead(list, free);
        Cut(used, n, all);
      } else {
        assert got == all && all + [] == all;
        LinkedNone();
      }
      r := iovs[..n][0];
    }

    /** The buffers behind the used ones go back in front of the free list. */
    method GiveBack(used: nat, n: nat, ghost all: seq<Buffer>)
      requires used < n == |all| <= max == iovs.Length && iovs[..n] == all && Linked(all, all[0])
      requires free == null && numFree == 0
      requires forall b :: b in all[used..] ==> b !in handed
      modifies `free, `numFree, `list, all[n - 1]
      ensures Valid() && list == all[used..]
      ensures Linked(all, all[0])
    {
      assert all[n - 1].next == After(all, n - 1);
      var last := iovs[n - 1];
      assert last == iovs[..n][n - 1] == all[n - 1];
      last.next := free;
      assert iovs[used] == iovs[..n][used];
      LinkedDrop(all, used);
      free := iovs[used];
      numFree := numFree + (n - used);
      list := all[used..];
    }

    /** The last used buffer becomes the end of the list that is handed out. */
    method Cut(used: nat, n: nat, ghost all: seq<Buffer>)
      requires 1 <= used < n == |all| <= iovs.Length && iovs[..n] == all && Linked(all, all[0])
      modifies all[used - 1]
      ensures Linked(all[..used], all[0]) && Linked(all[used..], all[used])
    {
      LinkedDrop(all, used);
      assert all[used - 1] == all[..used][used - 1];
      var last := iovs[used - 1];
      assert last == iovs[..n][used - 1] == all[used - 1];
      last.next := null;
      LinkedTake(all, used);
    }

    /** The two ways of asyncmsg_channel_destroy to free the list: one buffer at a time, or in batches of as many
        as alloca could make room for. Every buffer is freed once, in list order. */
    method Destroy(oneByOne: bool) returns (batches: seq<seq<Buffer>>)
      requires Valid()
      modifies this
      ensures free == null && Flat(batches) == old(list) && Distinct(Flat(batches))
      ensures oneByOne ==> forall k :: 0 <= k < |batches| ==> |batches[k]| == 1
      ensures !oneByOne ==> |batches| <= 1
    {
      hide Linked, Distinct, Flat;
      ghost var all, done := list, 0;
      batches := [];
      FlatNone();
      LinkedHead(all, free);
      LinkedDistinct(all, free);
      while free != null
        invariant done <= |all| && numFree == |all| - done && Linked(all, if all == [] then null else all[0])
        invariant free == if done < |all| then all[done] else null
        invariant Flat(batches) == all[..done]
        invariant oneByOne ==> forall k :: 0 <= k < |batches| ==> |batches[k]| == 1
        invariant !oneByOne ==> (done == 0 && batches == []) || (done == |all| && |batches| == 1)
        decreases |all| - done
      {
        var n := if oneByOne then 1 else numFree;
        var batch := Batch(n, all, done);
        FlatSnoc(batches, batch);
        assert all[..done] + all[done..done + n] == all[..done + n];
        batches := batches + [batch];
        numFree := numFree - n;
        done := done + n;
      }
      assert all[..done] == all;
    }

    /** Take up to a whole batch from the front of the free list. */
    method Batch(n: nat, ghost all: seq<Buffer>, ghost done: nat) returns (batch: seq<Buffer>)
      requires done < |all| && done + n <= |all| && Linked(all, all[0]) && free == all[done]
      modifies `free
      ensures batch == all[done..done + n] && free == if done + n < |all| then all[done + n] else null
    {
      hide Linked;
      batch := [];
      for i := 0 to n
        invariant batch == all[done..done + i] && free == if done + i < |all| then all[done + i] else null
      {
        LinkedNext(all, all[0], done + i);
        batch := batch + [free];
        free := free.next;
      }
    }
  }
}
