/** The send queue of an asynchronous message connection (asyncmsg_put.c, asyncmsg_connect_attach.c,
    asyncmsg_connect_detach.c, nano_asyncmsg.c). Three parties move three indices of one ring: the sender puts
    at `tail`, the kernel works from `head`, and the collector calls back from `free`:

      free --- processed, not called back --- head --- put, not processed --- tail --- room --- free */
module AsyncSend {
  import opened Bytes

  const EFAULT: int := 14
  const EBADF: int := 9
  const TWO32: nat := 0x1_0000_0000

  /** What a caller puts; a callback is known by its address. */
  datatype Message = Message(iov: int, parts: int, handle: nat, cb: Option<int>)

  datatype Header = Header(err: int, msg: Message)

  datatype Call = Call(fn: int, err: int, iov: int, handle: nat)

  /** The message's own callback, or the connection's, or none. */
  function Callback(h: Header, deflt: Option<int>): seq<Call> {
    if h.msg.cb.Some? then [Call(h.msg.cb.value, h.err, h.msg.iov, h.msg.handle)]
    else if deflt.Some? then [Call(deflt.value, h.err, h.msg.iov, h.msg.handle)]
    else []
  }

  function Callbacks(hs: seq<Header>, deflt: Option<int>): seq<Call> {
    if hs == [] then [] else Callbacks(hs[..|hs| - 1], deflt) + Callback(hs[|hs| - 1], deflt)
  }

  /** Calling back in two batches is calling back in one. */
  lemma {:induction false} CallbacksAppend(a: seq<Header>, b: seq<Header>, deflt: Option<int>)
    ensures Callbacks(a + b, deflt) == Callbacks(a, deflt) + Callbacks(b, deflt)
  {
    hide Callback;
    if b == [] {
      assert a + b == a;
    } else {
      var init := b[..|b| - 1];
      assert (a + b)[..|a + b| - 1] == a + init;
      CallbacksAppend(a, init, deflt);
    }
  }

  /** Has this message somebody to call? */
  predicate Answers(m: Message, deflt: Option<int>) {
    m.cb.Some? || deflt.Some?
  }

  /** How many of the first `i` messages have. */
  function Place(ms: seq<Message>, deflt: Option<int>, i: nat): (r: nat)
    requires i <= |ms|
    ensures r <= i && (deflt.Some? ==> r == i)
  {
    if i == 0 then 0 else Place(ms, deflt, i - 1) + if Answers(ms[i - 1], deflt) then 1 else 0
  }

  /** The call that a message asks for: its own callback goes before the connection's, and it gets its own buffer and
      handle. */
  ghost predicate CallFor(c: Call, m: Message, deflt: Option<int>) {
    && c.iov == m.iov && c.handle == m.handle
    && (m.cb.Some? ==> c.fn == m.cb.value)
    && (m.cb.None? ==> deflt == Some(c.fn))
  }

  /** The i-th message has its call among `calls`, at its place, if it has somebody to call. */
  ghost predicate HasCall(calls: seq<Call>, hs: seq<Header>, deflt: Option<int>, i: nat)
    requires i < |hs|
  {
    Answers(hs[i].msg, deflt) ==>
      var p := Place(Messages(hs), deflt, i);
      p < |calls| && CallFor(calls[p], hs[i].msg, deflt) && calls[p].err == hs[i].err
  }

  /** The calls are those of the messages that have somebody to call, one each and in their order, with the verdict
      on the message; with a default callback these are all. */
  lemma {:induction false} OneCallEach(hs: seq<Header>, deflt: Option<int>)
    ensures |Callbacks(hs, deflt)| == Place(Messages(hs), deflt, |hs|)
    ensures forall i :: 0 <= i < |hs| ==> HasCall(Callbacks(hs, deflt), hs, deflt, i)
  {
    hide Callback, HasCall, Place;
    if hs == [] {
      NoPlace(Messages(hs), deflt);
    } else {
      var init, last := hs[..|hs| - 1], hs[|hs| - 1];
      assert hs == init + [last];
      OneCallEach(init, deflt);
      NextCall(init, last, Callbacks(init, deflt), deflt);
    }
  }

  lemma NoPlace(ms: seq<Message>, deflt: Option<int>)
    ensures Place(ms, deflt, 0) == 0
  {
  }

  lemma NextCall(hs: seq<Header>, h: Header, calls: seq<Call>, deflt: Option<int>)
    requires |calls| == Place(Messages(hs), deflt, |hs|)
    requires forall i :: 0 <= i < |hs| ==> HasCall(calls, hs, deflt, i)
    ensures var more, all := calls + Callback(h, deflt), hs + [h];
            && |more| == Place(Messages(all), deflt, |all|)
            && forall i :: 0 <= i < |all| ==> HasCall(more, all, deflt, i)
  {
    hide Callback, CallFor, Answers;
    var all := hs + [h];
    OneCall(h, deflt);
    PlacePrefix(Messages(hs), Messages(all), deflt, |hs|);
    forall i | 0 <= i < |hs| ensures HasCall(calls + Callback(h, deflt), all, deflt, i) {
      PlacePrefix(Messages(hs), Messages(all), deflt, i);
      assert HasCall(calls, hs, deflt, i) && all[i] == hs[i];
    }
    assert Messages(all)[|hs|] == h.msg;
  }

  lemma {:induction false} PlacePrefix(a: seq<Message>, b: seq<Message>, deflt: Option<int>, i: nat)
    requires i <= |a| <= |b| && forall k :: 0 <= k < |a| ==> a[k] == b[k]
    ensures Place(a, deflt, i) == Place(b, deflt, i)
  {
    if i > 0 {
      PlacePrefix(a, b, deflt, i - 1);
    }
  }

  lemma OneCall(h: Header, deflt: Option<int>)
    ensures var c := Callback(h, deflt);
            if Answers(h.msg, deflt) then |c| == 1 && CallFor(c[0], h.msg, deflt) && c[0].err == h.err else c == []
  {
  }

  // ----- the queue as the parties see it -----

  datatype Ring = Ring(free: nat, waiting: seq<Header>, pending: seq<Header>)

  /** The single steps. A put takes two of them: it publishes its slot, with whatever `stale` header stands
      there, and then fills it. The library's mutex keeps other puts and collections out in between, but not the
      kernel. */
  datatype Event = Publish(stale: Header) | Fill(msg: Message) | Process(fault: bool) | Collect

  function Load(r: Ring): nat {
    |r.waiting| + |r.pending|
  }

  /** One slot always stays empty, so a ring of size 0 or 1 never accepts anything. */
  predicate Accepts(size: nat, r: Ring) {
    Load(r) + 1 < size
  }

  function Processed(h: Header, fault: bool): Header {
    if fault then h.(err := EFAULT) else h
  }

  function Published(size: nat, r: Ring, stale: Header): Ring {
    if Accepts(size, r) then r.(pending := r.pending + [stale]) else r
  }

  /** The published slot is the last one; the kernel may have been there already. */
  function Filled(r: Ring, msg: Message): Ring
    requires Load(r) > 0
  {
    if r.pending != [] then r.(pending := r.pending[..|r.pending| - 1] + [Header(0, msg)])
    else r.(waiting := r.waiting[..|r.waiting| - 1] + [Header(0, msg)])
  }

  /** A put with nothing in between. */
  function Added(size: nat, r: Ring, msg: Message): Ring {
    if Accepts(size, r) then r.(pending := r.pending + [Header(0, msg)]) else r
  }

  function Advanced(r: Ring, fault: bool): Ring {
    if r.pending == [] then r
    else r.(waiting := r.waiting + [Processed(r.pending[0], fault)], pending := r.pending[1..])
  }

  function Collected(size: nat, r: Ring): Ring {
    Ring(Wrap(r.free + |r.waiting|, size), [], r.pending)
  }

  // ----- indices -----

  /** An index at most one round ahead, brought back into the ring. */
  function Wrap(i: nat, size: nat): nat {
    if i >= size then i - size else i
  }

  function Next(i: nat, size: nat): nat {
    if i + 1 >= size then 0 else i + 1
  }

  /** How far ahead of `a` index `b` is. */
  function Dist(a: nat, b: nat, size: nat): nat
    requires a == b || a < size
  {
    if b >= a then b - a else b + size - a
  }

  function Head(size: nat, r: Ring): nat {
    Wrap(r.free + |r.waiting|, size)
  }

  function Tail(size: nat, r: Ring): nat {
    Wrap(r.free + Load(r), size)
  }

  ghost predicate Fits(size: nat, r: Ring) {
    (r.free == 0 || r.free < size) && (Load(r) == 0 || Load(r) < size)
  }

  // ----- detaching -----

  /** The comparison of raw indices: the 32-bit difference, taken as a signed number, is not negative. */
  predicate Tagged(free: nat, head: nat) {
    (free - head) % TWO32 < 0x8000_0000
  }

  /** What the drain loop of asyncmsg_connect_detach calls back. */
  function Drained(size: nat, r: Ring): (hs: seq<Header>)
    ensures |hs| == Load(r)
  {
    seq(Load(r), i requires 0 <= i < Load(r) => DrainedAt(size, r, i))
  }

  function DrainedAt(size: nat, r: Ring, i: nat): Header
    requires i < Load(r)
  {
    var h := (r.waiting + r.pending)[i];
    if Tagged(Wrap(r.free + i, size), Head(size, r)) then h.(err := EBADF) else h
  }

  /** What it ought to call back: EBADF for exactly the messages that the kernel has not processed. */
  function Refused(hs: seq<Header>): (r: seq<Header>)
    ensures |r| == |hs|
  {
    seq(|hs|, i requires 0 <= i < |hs| => hs[i].(err := EBADF))
  }

  // ----- whole runs -----

  /** Everything that ever happened: the messages accepted, the callbacks made, the kernel's verdicts, the messages
      as the kernel saw them, and the places where it overtook a put (`raced`). */
  datatype Trace = Trace(ring: Ring, filling: bool, accepted: seq<Message>, called: seq<Header>,
                         verdicts: seq<int>, seen: seq<Message>, raced: set<nat>)

  function Verdict(fault: bool): int {
    if fault then EFAULT else 0
  }

  /** What the mutex forbids does not happen. */
  function Extend(size: nat, t: Trace, e: Event): Trace {
    match e
    case Publish(stale) =>
      if !t.filling && Accepts(size, t.ring) then t.(ring := Published(size, t.ring, stale), filling := true) else t
    case Fill(msg) =>
      if t.filling && Load(t.ring) > 0 then
        t.(ring := Filled(t.ring, msg), filling := false, accepted := t.accepted + [msg])
      else t
    case Process(fault) =>
      if t.ring.pending == [] then t
      else t.(ring := Advanced(t.ring, fault),
              verdicts := t.verdicts + [Verdict(fault)], seen := t.seen + [t.ring.pending[0].msg],
              raced := if t.filling && |t.ring.pending| == 1 then t.raced + {|t.verdicts|} else t.raced)
    case Collect =>
      if t.filling then t else t.(ring := Collected(size, t.ring), called := t.called + t.ring.waiting)
  }

  const NOTHING: Trace := Trace(Ring(0, [], []), false, [], [], [], [], {})

  function Run(size: nat, es: seq<Event>): Trace {
    if es == [] then NOTHING else Extend(size, Run(size, es[..|es| - 1]), es[|es| - 1])
  }

  lemma RunSnoc(size: nat, es: seq<Event>, e: Event)
    ensures Run(size, es + [e]) == Extend(size, Run(size, es), e)
  {
    assert (es + [e])[..|es|] == es;
  }

  /** Everything that was ever in the ring, oldest first. */
  function All(t: Trace): seq<Header> {
    t.called + t.ring.waiting + t.ring.pending
  }

  function Messages(hs: seq<Header>): (ms: seq<Message>)
    ensures |ms| == |hs|
  {
    seq(|hs|, i requires 0 <= i < |hs| => hs[i].msg)
  }

  function Errors(hs: seq<Header>): (es: seq<int>)
    ensures |es| == |hs|
  {
    seq(|hs|, i requires 0 <= i < |hs| => hs[i].err)
  }

  /** The i-th header carries the i-th message and, once processed, the kernel's verdict, unless that was lost. */
  ghost predicate Told(t: Trace, i: nat)
    requires |t.accepted| <= |All(t)| && |t.verdicts| == |t.seen|
  {
    i < |t.accepted| ==>
      && All(t)[i].msg == t.accepted[i]
      && All(t)[i].err == (if i < |t.verdicts| && i !in t.raced then t.verdicts[i] else 0)
      && (i < |t.verdicts| && i !in t.raced ==> t.seen[i] == t.accepted[i])
  }

  /** What every run keeps. */
  ghost predicate Conserved(size: nat, t: Trace) {
    && Fits(size, t.ring)
    && |All(t)| == |t.accepted| + (if t.filling then 1 else 0)
    && (t.filling ==> Load(t.ring) > 0 && (t.ring.pending == [] <==> |t.accepted| in t.raced))
    && |t.called + t.ring.waiting| == |t.verdicts| == |t.seen|
    && (forall i :: i in t.raced ==> i < |t.verdicts|)
    && (forall i: nat :: Told(t, i))
    && forall v :: v in t.verdicts ==> v == 0 || v == EFAULT
  }

  /** Over every interleaving of the single steps: messages are called back in the order they were put, none twice
      and none skipped; at most size - 1 are outstanding; and each carries the kernel's verdict on it unless the
      kernel overtook its put, in which case it carries 0. */
  lemma {:induction false} RunConserves(size: nat, es: seq<Event>)
    ensures Conserved(size, Run(size, es))
  {
    if es != [] {
      RunConserves(size, es[..|es| - 1]);
      ExtendConserves(size, Run(size, es[..|es| - 1]), es[|es| - 1]);
    }
  }

  lemma ExtendConserves(size: nat, t: Trace, e: Event)
    requires Conserved(size, t)
    ensures Conserved(size, Extend(size, t, e))
  {
    hide Conserved, Published, Filled, Advanced, Collected, Accepts;
    match e
    case Publish(stale) =>
      if !t.filling && Accepts(size, t.ring) {
        ConservesPublish(size, t, stale);
      }
    case Fill(msg) =>
      if t.filling && Load(t.ring) > 0 {
        ConservesFill(size, t, msg);
      }
    case Process(fault) =>
      if t.ring.pending != [] {
        ConservesProcess(size, t, fault);
      }
    case Collect =>
      if !t.filling {
        ConservesCollect(size, t);
      }
  }

  lemma ConservesPublish(size: nat, t: Trace, stale: Header)
    requires Conserved(size, t) && !t.filling && Accepts(size, t.ring)
    ensures Conserved(size, Extend(size, t, Publish(stale)))
  {
    var r := Extend(size, t, Publish(stale));
    assert All(r) == All(t) + [stale];
    forall i: nat ensures Told(r, i) {
      assert Told(t, i);
    }
  }

  lemma ConservesFill(size: nat, t: Trace, msg: Message)
    requires Conserved(size, t) && t.filling
    ensures Conserved(size, Extend(size, t, Fill(msg)))
  {
    var r, n := Extend(size, t, Fill(msg)), |t.accepted|;
    assert All(r) == All(t)[..n] + [Header(0, msg)];
    forall i: nat ensures Told(r, i) {
      assert Told(t, i);
    }
  }

  lemma ConservesProcess(size: nat, t: Trace, fault: bool)
    requires Conserved(size, t) && t.ring.pending != []
    ensures Conserved(size, Extend(size, t, Process(fault)))
  {
    var r, n := Extend(size, t, Process(fault)), |t.verdicts|;
    assert All(r) == All(t)[n := Processed(All(t)[n], fault)];
    forall i: nat ensures Told(r, i) {
      assert Told(t, i);
    }
  }

  lemma ConservesCollect(size: nat, t: Trace)
    requires Conserved(size, t) && !t.filling
    ensures Conserved(size, Extend(size, t, Collect))
  {
    var r := Extend(size, t, Collect);
    assert All(r) == All(t);
    forall i: nat ensures Told(r, i) {
      assert Told(t, i);
    }
  }

  /** Between puts, the law the callbacks rely on: each message called back or waiting carries the kernel's verdict
      on it. It holds if and only if the kernel never refused a slot that was still to be filled. */
  lemma VerdictsExact(size: nat, es: seq<Event>)
    requires !Run(size, es).filling
    ensures var t := Run(size, es);
            && (forall i :: i in t.raced ==> i < |t.verdicts|)
            && (t.verdicts == Errors(t.called + t.ring.waiting) <==> forall i :: i in t.raced ==> t.verdicts[i] == 0)
  {
    hide Run;
    RunConserves(size, es);
    var t := Run(size, es);
    var done := t.called + t.ring.waiting;
    forall i | 0 <= i < |done| ensures Errors(done)[i] == if i in t.raced then 0 else t.verdicts[i] {
      assert Told(t, i) && All(t)[i] == done[i];
    }
  }

  /** And the kernel saw every message as it was put if and only if each slot it reached too early still held the
      same message from earlier. */
  lemma SeenExact(size: nat, es: seq<Event>)
    requires !Run(size, es).filling
    ensures var t := Run(size, es);
            && |t.seen| <= |t.accepted| && (forall i :: i in t.raced ==> i < |t.seen|)
            && (t.seen == t.accepted[..|t.seen|] <==> forall i :: i in t.raced ==> t.seen[i] == t.accepted[i])
  {
    hide Run;
    RunConserves(size, es);
    var t := Run(size, es);
    assert |All(t)| == |t.accepted| && |t.called + t.ring.waiting| <= |All(t)|;
    forall i | 0 <= i < |t.seen| && i !in t.raced ensures t.seen[i] == t.accepted[i] {
      assert Told(t, i);
    }
  }

  // ----- one put, and the kernel in the middle of it -----

  function Kernel(size: nat, t: Trace, faults: seq<bool>): Trace {
    if faults == [] then t
    else Extend(size, Kernel(size, t, faults[..|faults| - 1]), Process(faults[|faults| - 1]))
  }

  /** A put with `faults` kernel steps between its two halves. */
  function SplitPut(size: nat, t: Trace, stale: Header, faults: seq<bool>, msg: Message): Trace {
    Extend(size, Kernel(size, Extend(size, t, Publish(stale)), faults), Fill(msg))
  }

  lemma {:induction false} KernelIs(size: nat, t: Trace, faults: seq<bool>)
    requires |t.seen| == |t.verdicts|
    ensures var p, r := t.ring.pending, Kernel(size, t, faults);
            var n := if |faults| < |p| then |faults| else |p|;
            && r.filling == t.filling && r.accepted == t.accepted && r.ring.pending == p[n..]
            && |r.verdicts| == |r.seen| == |t.verdicts| + n && Load(r.ring) == Load(t.ring)
            && (forall k :: 0 <= k < n ==> r.verdicts[|t.verdicts| + k] == Verdict(faults[k]))
            && (forall k :: 0 <= k < n ==> r.seen[|t.verdicts| + k] == p[k].msg)
  {
    if faults != [] {
      KernelIs(size, t, faults[..|faults| - 1]);
    }
  }

  lemma {:induction false} KernelConserves(size: nat, t: Trace, faults: seq<bool>)
    requires Conserved(size, t)
    ensures Conserved(size, Kernel(size, t, faults))
  {
    hide Conserved, Extend;
    if faults != [] {
      KernelConserves(size, t, faults[..|faults| - 1]);
      ExtendConserves(size, Kernel(size, t, faults[..|faults| - 1]), Process(faults[|faults| - 1]));
    }
  }

  /** The message ends up in the ring whatever the kernel did meanwhile. Its verdict is what the kernel said if and
      only if the kernel did not reach the slot, or had no fault to report; and the kernel saw this message if and
      only if it did not reach the slot, or the slot already held the same message. */
  lemma SplitPutExact(size: nat, t: Trace, stale: Header, faults: seq<bool>, msg: Message)
    requires Conserved(size, t) && !t.filling && Accepts(size, t.ring)
    ensures var r, n, k := SplitPut(size, t, stale, faults, msg), |t.accepted|, |t.ring.pending|;
            && !r.filling && r.accepted == t.accepted + [msg] && |All(r)| == n + 1 && All(r)[n] == Header(0, msg)
            && |r.seen| == |r.verdicts| && (n < |r.verdicts| <==> k < |faults|)
            && ((n < |r.verdicts| ==> All(r)[n].err == r.verdicts[n]) <==> |faults| <= k || !faults[k])
            && ((n < |r.seen| ==> r.seen[n] == msg) <==> |faults| <= k || stale.msg == msg)
  {
    hide Conserved, Kernel;
    var first := Extend(size, t, Publish(stale));
    var mid := Kernel(size, first, faults);
    var r := SplitPut(size, t, stale, faults, msg);
    Lengths(size, t);
    ExtendConserves(size, t, Publish(stale));
    KernelConserves(size, first, faults);
    KernelIs(size, first, faults);
    var n, k := |t.accepted|, |t.ring.pending|;
    assert n == |t.verdicts| + k && first.ring.pending[k] == stale;
    assert |faults| > k ==> mid.seen[n] == stale.msg && mid.verdicts[n] == Verdict(faults[k]);
    ExtendConserves(size, mid, Fill(msg));
    Lengths(size, mid);
    Lengths(size, r);
    assert All(r)[|All(r)| - 1] == Header(0, msg);
  }

  lemma Lengths(size: nat, t: Trace)
    requires Conserved(size, t)
    ensures |All(t)| == |t.accepted| + (if t.filling then 1 else 0) && (t.filling ==> Load(t.ring) > 0)
    ensures |t.called| + |t.ring.waiting| == |t.verdicts| == |t.seen|
  {
  }

  /** The failing run: the kernel refuses the old content of the slot, and the put then wipes its verdict. */
  lemma LateFillLosesVerdict(stale: Header, msg: Message)
    ensures var t := Run(2, [Publish(stale), Process(true), Fill(msg)]);
            t.verdicts == [14] && t.ring.waiting == [Header(0, msg)] && t.seen == [stale.msg]
  {
    hide Run;
    RunNone(2);
    RunSnoc(2, [], Publish(stale));
    assert Run(2, [] + [Publish(stale)]) == NOTHING.(ring := Ring(0, [], [stale]), filling := true);
    RunSnoc(2, [] + [Publish(stale)], Process(true));
    var refused := NOTHING.(ring := Ring(0, [Header(EFAULT, stale.msg)], []), filling := true,
                            verdicts := [EFAULT], seen := [stale.msg], raced := {0});
    assert Run(2, [] + [Publish(stale)] + [Process(true)]) == refused;
    RunSnoc(2, [] + [Publish(stale)] + [Process(true)], Fill(msg));
    assert [] + [Publish(stale)] + [Process(true)] + [Fill(msg)] == [Publish(stale), Process(true), Fill(msg)];
  }

  // ----- callbacks over a whole run -----

  /** All calls that the collections of a run make, one batch after the other. */
  function CallsMade(size: nat, es: seq<Event>, deflt: Option<int>): seq<Call> {
    if es == [] then []
    else
      var before := Run(size, es[..|es| - 1]);
      CallsMade(size, es[..|es| - 1], deflt) +
      (if es[|es| - 1].Collect? && !before.filling then Callbacks(before.ring.waiting, deflt) else [])
  }

  lemma {:induction false} CallsAreCallbacks(size: nat, es: seq<Event>, deflt: Option<int>)
    ensures CallsMade(size, es, deflt) == Callbacks(Run(size, es).called, deflt)
  {
    hide Callbacks;
    if es == [] {
      assert NOTHING.called[..0] == NOTHING.called;
      CallbacksNone(NOTHING.called, deflt);
    } else {
      var before := Run(size, es[..|es| - 1]);
      CallsAreCallbacks(size, es[..|es| - 1], deflt);
      CallbacksAppend(before.called, before.ring.waiting, deflt);
    }
  }

  /** A run that ends with a detach: the calls are those of the accepted messages that have somebody to call, each
      called back exactly once, in the order of the puts, with its own buffer and handle; its own callback goes before
      the connection's. With a default callback these are all accepted messages. */
  lemma ExactlyOnce(size: nat, es: seq<Event>, deflt: Option<int>)
    requires !Run(size, es).filling
    ensures var t := Run(size, es);
            var calls := CallsMade(size, es, deflt) + Callbacks(Drained(size, t.ring), deflt);
            && |calls| == Place(t.accepted, deflt, |t.accepted|)
            && (deflt.Some? ==> |calls| == |t.accepted|)
            && forall i :: 0 <= i < |t.accepted| && Answers(t.accepted[i], deflt) ==>
                 var p := Place(t.accepted, deflt, i); p < |calls| && CallFor(calls[p], t.accepted[i], deflt)
  {
    hide Run, Drained, Callbacks, Conserved, CallFor;
    var t := Run(size, es);
    CallsAreCallbacks(size, es, deflt);
    CallbacksAppend(t.called, Drained(size, t.ring), deflt);
    var hs := t.called + Drained(size, t.ring);
    EveryMessage(size, es);
    OneCallEach(hs, deflt);
    forall i | 0 <= i < |hs| && Answers(hs[i].msg, deflt)
      ensures var p := Place(Messages(hs), deflt, i);
              p < |Callbacks(hs, deflt)| && CallFor(Callbacks(hs, deflt)[p], hs[i].msg, deflt)
    {
      assert HasCall(Callbacks(hs, deflt), hs, deflt, i);
    }
    assert forall i :: 0 <= i < |hs| ==> Messages(hs)[i] == hs[i].msg;
  }

  /** What was called back and what a detach would call back are the accepted messages, at most size - 1 of which
      are outstanding. */
  lemma EveryMessage(size: nat, es: seq<Event>)
    requires !Run(size, es).filling
    ensures var t := Run(size, es); Messages(t.called + Drained(size, t.ring)) == t.accepted
    ensures var t := Run(size, es); |t.accepted| - |t.called| == Load(t.ring) <= if size == 0 then 0 else size - 1
  {
    hide Run, Drained;
    var t := Run(size, es);
    RunConserves(size, es);
    DrainedMessages(size, t.ring);
    var hs := t.called + Drained(size, t.ring);
    forall i | 0 <= i < |hs| ensures hs[i].msg == t.accepted[i] {
      assert Told(t, i);
      if i >= |t.called| {
        var k := i - |t.called|;
        assert Messages(Drained(size, t.ring))[k] == (Messages(t.ring.waiting) + Messages(t.ring.pending))[k];
      }
    }
  }

  lemma DrainedMessages(size: nat, r: Ring)
    ensures Messages(Drained(size, r)) == Messages(r.waiting) + Messages(r.pending)
  {
  }

  lemma TaggedIs(a: nat, b: nat)
    requires a < 0x8000_0000 && b < 0x8000_0000
    ensures Tagged(a, b) <==> a >= b
  {
  }

  /** Two 32-bit indices: `a` counts as reached if it is at most 2^31 - 1 ahead of `b`, or more than 2^31 behind. */
  lemma TaggedWraps(a: nat, b: nat)
    requires a < 0x1_0000_0000 && b < 0x1_0000_0000
    ensures Tagged(a, b) <==> 0 <= a - b < 0x8000_0000 || b - a > 0x8000_0000
  {
  }

  /** The detach loop compares raw indices. It reports EBADF for exactly the unprocessed messages if and only
      if neither the part before `head` nor the part after it has wrapped around (ending at slot 0 is fine). A
      ring of more than 2^31 headers would not fit a 32-bit address space. */
  lemma TagsExact(size: nat, r: Ring)
    requires Fits(size, r) && size <= 0x8000_0000
    requires forall h :: h in r.waiting || h in r.pending ==> h.err != EBADF
    ensures Drained(size, r) == r.waiting + Refused(r.pending)
        <==> r.free <= Head(size, r) && (Head(size, r) <= Tail(size, r) || Tail(size, r) == 0)
  {
    var all, head, n := r.waiting + r.pending, Head(size, r), |r.waiting|;
    forall i | 0 <= i < Load(r)
      ensures DrainedAt(size, r, i) == (r.waiting + Refused(r.pending))[i]
        <==> (Wrap(r.free + i, size) >= head <==> i >= n)
    {
      TaggedIs(Wrap(r.free + i, size), head);
      assert all[i] in r.waiting || all[i] in r.pending;
    }
    if !(r.free <= head) {
      assert Drained(size, r)[0] == DrainedAt(size, r, 0);
    } else if !(head <= Tail(size, r) || Tail(size, r) == 0) {
      var first := size - r.free;
      assert Wrap(r.free + first, size) == 0;
      assert Drained(size, r)[first] == DrainedAt(size, r, first);
    }
  }

  /** A run in which the comparison fails: three slots, the last two messages wrap around, and the second of
      them is reported as delivered although the kernel never saw it. */
  lemma WrappedDetachMisreports(a: Message, b: Message, c: Message, d: Message, x: Header)
    ensures var es := PutOf(x, a) + PutOf(x, b) + [Process(false), Process(false), Collect] + PutOf(x, c) + PutOf(x, d);
            Drained(3, Run(3, es).ring) == [Header(9, c), Header(0, d)] && Run(3, es).verdicts == [0, 0]
  {
    hide Run;
    var e2 := [] + PutOf(x, a) + PutOf(x, b);
    RunNone(3);
    RunPut(3, [], x, a);
    RunPut(3, [] + PutOf(x, a), x, b);
    RunSnoc(3, e2, Process(false));
    RunSnoc(3, e2 + [Process(false)], Process(false));
    var e4 := e2 + [Process(false)] + [Process(false)];
    assert Run(3, e4).ring == Ring(0, [Header(0, a), Header(0, b)], []) && Run(3, e4).verdicts == [0, 0];
    RunSnoc(3, e4, Collect);
    RunPut(3, e4 + [Collect], x, c);
    RunPut(3, e4 + [Collect] + PutOf(x, c), x, d);
    var e7 := e4 + [Collect] + PutOf(x, c) + PutOf(x, d);
    assert e7 == PutOf(x, a) + PutOf(x, b) + [Process(false), Process(false), Collect] + PutOf(x, c) + PutOf(x, d);
    assert Run(3, e7).ring == Ring(2, [], [Header(0, c), Header(0, d)]);
  }

  function PutOf(stale: Header, msg: Message): seq<Event> {
    [Publish(stale), Fill(msg)]
  }

  /** A put with nothing in between. */
  lemma RunPut(size: nat, es: seq<Event>, stale: Header, msg: Message)
    requires !Run(size, es).filling && Accepts(size, Run(size, es).ring)
    ensures var t := Run(size, es);
            Run(size, es + PutOf(stale, msg)) == t.(ring := Added(size, t.ring, msg), accepted := t.accepted + [msg])
  {
    hide Run;
    RunSnoc(size, es, Publish(stale));
    RunSnoc(size, es + [Publish(stale)], Fill(msg));
    assert es + PutOf(stale, msg) == es + [Publish(stale)] + [Fill(msg)];
    var t := Run(size, es);
    assert (t.ring.pending + [stale])[..|t.ring.pending|] == t.ring.pending;
  }

  lemma RunNone(size: nat)
    ensures Run(size, []) == NOTHING
  {
  }

  // ----- the ring in memory -----

  /** The `n` headers from slot `from` on, around the ring. */
  function Slice(sendq: seq<Header>, from: nat, n: nat): (hs: seq<Header>)
    requires n == 0 || (from < |sendq| && n <= |sendq|)
    ensures |hs| == n
  {
    seq(n, i requires 0 <= i < n => sendq[Wrap(from + i, |sendq|)])
  }

  lemma WrapTwice(i: nat, n: nat, m: nat, size: nat)
    requires i < size && n < size && n + m < size
    ensures Wrap(i + n, size) < size && Wrap(Wrap(i + n, size) + m, size) == Wrap(i + (n + m), size)
  {
  }

  lemma SliceAt(sendq: seq<Header>, from: nat, n: nat, i: nat)
    requires from < |sendq| && n <= |sendq| && i < n
    ensures Wrap(from + i, |sendq|) < |sendq| && Slice(sendq, from, n)[i] == sendq[Wrap(from + i, |sendq|)]
  {
  }

  /** Two neighbouring stretches of the ring. */
  lemma SliceJoin(sendq: seq<Header>, from: nat, n: nat, m: nat)
    requires from < |sendq| && n + m < |sendq|
    ensures Slice(sendq, from, n) + Slice(sendq, Wrap(from + n, |sendq|), m) == Slice(sendq, from, n + m)
  {
    hide Wrap, Slice;
    WrapTwice(from, n, 0, |sendq|);
    var a, b, c := Slice(sendq, from, n), Slice(sendq, Wrap(from + n, |sendq|), m), Slice(sendq, from, n + m);
    forall i | 0 <= i < n + m ensures (a + b)[i] == c[i] {
      SliceAt(sendq, from, n + m, i);
      if i < n {
        SliceAt(sendq, from, n, i);
      } else {
        WrapTwice(from, n, i - n, |sendq|);
        SliceAt(sendq, Wrap(from + n, |sendq|), m, i - n);
      }
    }
  }

  lemma SliceOne(sendq: seq<Header>, from: nat)
    requires from < |sendq|
    ensures Slice(sendq, from, 1) == [sendq[from]]
  {
    SliceAt(sendq, from, 1, 0);
  }

  /** A header that is not in the stretch may change. */
  lemma SliceKeeps(sendq: seq<Header>, from: nat, n: nat, k: nat, h: Header)
    requires from < |sendq| && n < |sendq| && k < |sendq| && n <= Dist(from, k, |sendq|)
    ensures Slice(sendq[k := h], from, n) == Slice(sendq, from, n)
  {
    hide Slice;
    forall i | 0 <= i < n ensures Slice(sendq[k := h], from, n)[i] == Slice(sendq, from, n)[i] {
      SliceAt(sendq[k := h], from, n, i);
      SliceAt(sendq, from, n, i);
    }
  }

  lemma CountDown(d: int, x: int)
    ensures ((d - x) % TWO32 - 1) % TWO32 == (d - 1 - x) % TWO32
  {
  }

  lemma Between(free: nat, head: nat, tail: nat, size: nat)
    requires free < size && head < size && tail < size && Dist(free, head, size) + Dist(head, tail, size) < size
    ensures Dist(free, tail, size) == Dist(free, head, size) + Dist(head, tail, size)
    ensures head == Wrap(free + Dist(free, head, size), size) && tail == Wrap(free + Dist(free, tail, size), size)
  {
  }

  /** Filling the slot before `tail` changes the last header of the part it stands in. */
  lemma FilledSlot(s: seq<Header>, free: nat, head: nat, tail: nat, slot: nat, h: Header)
    requires var size := |s|;
             && free < size && head < size && tail < size && slot < size && Next(slot, size) == tail && free != tail
             && Dist(free, head, size) + Dist(head, tail, size) < size
    ensures var size := |s|;
            var n, m := Dist(free, head, size), Dist(head, tail, size);
            var w, p := Slice(s, free, n), Slice(s, head, m);
            if m > 0 then
              Slice(s[slot := h], free, n) == w && Slice(s[slot := h], head, m) == p[..m - 1] + [h]
            else
              n > 0 && Slice(s[slot := h], free, n) == w[..n - 1] + [h] && Slice(s[slot := h], head, m) == []
  {
    hide Slice;
    var size, n, m := |s|, Dist(free, head, |s|), Dist(head, tail, |s|);
    if m > 0 {
      SliceKeeps(s, free, n, slot, h);
      SetLast(s, head, m, slot, h);
    } else {
      SetLast(s, free, n, slot, h);
    }
  }

  /** Processing the slot at `head` moves its header to the end of the other part. */
  lemma AdvancedSlot(s: seq<Header>, free: nat, head: nat, tail: nat, h: Header)
    requires var size := |s|;
             && free < size && head < size && tail < size && head != tail
             && Dist(free, head, size) + Dist(head, tail, size) < size
    ensures var size, next := |s|, Next(head, |s|);
            var n, m := Dist(free, head, size), Dist(head, tail, size);
            && next < size && m > 0 && Dist(free, next, size) == n + 1 && Dist(next, tail, size) == m - 1
            && Slice(s[head := h], free, n + 1) == Slice(s, free, n) + [h]
            && Slice(s, head, m)[0] == s[head] && Slice(s[head := h], next, m - 1) == Slice(s, head, m)[1..]
  {
    hide Slice;
    var size, n, m := |s|, Dist(free, head, |s|), Dist(head, tail, |s|);
    SliceJoin(s, head, 1, m - 1);
    SliceOne(s, head);
    SliceKeeps(s, free, n, head, h);
    SliceKeeps(s, Next(head, size), m - 1, head, h);
    SliceJoin(s[head := h], free, n, 1);
    SliceOne(s[head := h], head);
  }

  lemma SetLast(s: seq<Header>, from: nat, n: nat, slot: nat, h: Header)
    requires from < |s| && 0 < n < |s| && slot == Wrap(from + (n - 1), |s|)
    ensures Slice(s[slot := h], from, n) == Slice(s, from, n)[..n - 1] + [h]
  {
    hide Slice;
    SliceKeeps(s, from, n - 1, slot, h);
    SliceJoin(s, from, n - 1, 1);
    SliceJoin(s[slot := h], from, n - 1, 1);
    SliceOne(s[slot := h], slot);
  }

  class Connection {
    const sendq: array<Header>
    var free: nat
    var head: nat
    var tail: nat
    var numCurmsg: nat
    var timerOff: bool
    /** A put has published its slot and not filled it; it holds the mutex. */
    ghost var filling: bool
    const triggerNum: nat
    const deflt: Option<int>

    /** free, head and tail in cyclic order, with at least one slot of room behind tail. The count of pending messages
        is an unsigned int and lags behind the indices while a slot is being filled. */
    ghost predicate Valid()
      reads this
    {
      var size := sendq.Length;
      && size < TWO32
      && (size == 0 ==> free == head == tail == 0)
      && (size > 0 ==> free < size && head < size && tail < size)
      && (size > 0 ==> Dist(free, head, size) + Dist(head, tail, size) < size)
      && numCurmsg == (Dist(head, tail, size) - (if filling then 1 else 0)) % TWO32
      && (filling ==> free != tail)
    }

    ghost function AsRing(): Ring
      requires Valid()
      reads this, sendq
    {
      var size := sendq.Length;
      Ring(free, Slice(sendq[..], free, Dist(free, head, size)), Slice(sendq[..], head, Dist(head, tail, size)))
    }

    /** The parts of asyncmsg_connect_attach that set up the ring. */
    constructor (size: nat, triggerNum: nat, deflt: Option<int>)
      requires size < TWO32
      ensures Valid() && !filling && AsRing() == Ring(0, [], []) && timerOff && fresh(sendq)
      ensures sendq.Length == size && this.triggerNum == triggerNum && this.deflt == deflt
    {
      sendq := new Header[size](_ => Header(0, Message(0, 0, 0, None)));
      free, head, tail, numCurmsg, timerOff, filling := 0, 0, 0, 0, true, false;
      this.triggerNum, this.deflt := triggerNum, deflt;
    }

    /** The first half of asyncmsg_putv: find room, take the slot at `tail`, and move `tail` on. False is a full
        queue (EAGAIN, or another wait). */
    method Publish() returns (ok: bool, slot: nat)
      requires Valid() && !filling
      modifies this
      ensures Valid() && ok == filling == Accepts(sendq.Length, old(AsRing())) && timerOff == old(timerOff)
      ensures ok ==> slot == old(tail) && slot < sendq.Length && tail == Next(slot, sendq.Length)
      ensures ok ==> AsRing() == Published(sendq.Length, old(AsRing()), sendq[slot])
      ensures !ok ==> AsRing() == old(AsRing())
    {
      hide Slice;
      var newTail := tail + 1;
      if newTail >= sendq.Length {
        newTail := 0;
      }
      if newTail == free {
        return false, 0;
      }
      ghost var s, r := sendq[..], AsRing();
      Between(free, head, tail, sendq.Length);
      SliceJoin(s, head, |r.pending|, 1);
      SliceOne(s, tail);
      slot := tail;
      tail := newTail;
      filling := true;
      return true, slot;
    }

    /** _asyncmsg_put_trigger: the message counts now; `triggered` says whether MsgSendAsync is called. */
    method PutTrigger() returns (triggered: bool)
      requires Valid() && filling
      modifies `numCurmsg, `timerOff, `filling
      ensures Valid() && !filling && AsRing() == old(AsRing())
      ensures triggered <==> triggerNum != 0 && |AsRing().pending| >= triggerNum
      ensures timerOff == (old(timerOff) && triggered)
    {
      hide Slice;
      filling := false;
      numCurmsg := (numCurmsg + 1) % TWO32;
      if triggerNum != 0 && numCurmsg >= triggerNum {
        return true;
      }
      timerOff := false;
      return false;
    }

    /** The second half: fill the slot, and see whether the kernel must be triggered. */
    method Fill(slot: nat, msg: Message) returns (triggered: bool)
      requires Valid() && filling && slot < sendq.Length && Next(slot, sendq.Length) == tail
      modifies this, sendq
      ensures Valid() && !filling && AsRing() == Filled(old(AsRing()), msg)
      ensures triggered <==> triggerNum != 0 && |AsRing().pending| >= triggerNum
      ensures timerOff == (old(timerOff) && triggered)
    {
      hide Slice, Dist;
      ghost var s := sendq[..];
      FilledSlot(s, free, head, tail, slot, Header(0, msg));
      sendq[slot] := Header(0, msg);
      assert sendq[..] == s[slot := Header(0, msg)];
      triggered := PutTrigger();
    }

    /** asyncmsg_putv with nothing in between. */
    method Put(msg: Message) returns (ok: bool, triggered: bool)
      requires Valid() && !filling
      modifies this, sendq
      ensures Valid() && !filling && ok == Accepts(sendq.Length, old(AsRing()))
      ensures AsRing() == Added(sendq.Length, old(AsRing()), msg)
      ensures triggered <==> ok && triggerNum != 0 && |AsRing().pending| >= triggerNum
      ensures timerOff == (old(timerOff) && (!ok || triggered))
    {
      var slot;
      ghost var r := AsRing();
      ok, slot := Publish();
      if !ok {
        return false, false;
      }
      assert (r.pending + [sendq[slot]])[..|r.pending|] == r.pending;
      triggered := Fill(slot, msg);
    }

    /** The kernel's step on the head of the queue (nano_asyncmsg.c); `fault` is a bad sender address. */
    method Process(fault: bool)
      requires Valid() && head != tail
      modifies this, sendq
      ensures Valid() && filling == old(filling) && tail == old(tail) && AsRing() == Advanced(old(AsRing()), fault)
    {
      hide Slice, Dist;
      ghost var s, size := sendq[..], sendq.Length;
      ghost var h := Processed(s[head], fault);
      AdvancedSlot(s, free, head, tail, h);
      CountDown(Dist(head, tail, size), if filling then 1 else 0);
      if fault {
        sendq[head] := sendq[head].(err := EFAULT);
      }
      assert sendq[..] == s[head := h];
      numCurmsg := (numCurmsg - 1) % TWO32;
      head := if head + 1 < sendq.Length then head + 1 else 0;
    }

    /** The collection loop of _async_event_thread. */
    method Collect() returns (calls: seq<Call>)
      requires Valid() && !filling
      modifies this
      ensures Valid() && !filling && AsRing() == Collected(sendq.Length, old(AsRing()))
      ensures calls == Callbacks(old(AsRing()).waiting, deflt)
    {
      hide Callbacks, Callback;
      ghost var r := AsRing();
      calls := [];
      CallbacksNone(r.waiting, deflt);
      ghost var n := 0;
      while free != head
        invariant Valid() && !filling && n <= |r.waiting| && head == old(head) && tail == old(tail)
        invariant free == Wrap(r.free + n, sendq.Length) && Dist(free, head, sendq.Length) == |r.waiting| - n
        invariant calls == Callbacks(r.waiting[..n], deflt)
        decreases |r.waiting| - n
      {
        var h := sendq[free];
        assert h == r.waiting[n];
        CallbacksSnoc(r.waiting, n, deflt);
        calls := calls + Callback(h, deflt);
        free := Next(free, sendq.Length);
        n := n + 1;
      }
      assert r.waiting[..n] == r.waiting;
    }

    /** The drain loop of asyncmsg_connect_detach. */
    method Detach() returns (calls: seq<Call>)
      requires Valid() && !filling
      modifies this, sendq
      ensures free == tail == old(tail) && calls == Callbacks(Drained(sendq.Length, old(AsRing())), deflt)
    {
      hide Tagged, Callbacks, Callback, Slice, Drained, Laid;
      ghost var r, size := AsRing(), sendq.Length;
      ghost var all, hs := r.waiting + r.pending, Drained(size, r);
      Geometry(this);
      calls := [];
      CallbacksNone(hs, deflt);
      ghost var n := 0;
      while free != tail
        invariant n <= |hs| && (if size > 0 then free < size else free == tail)
        invariant free == Wrap(r.free + n, size) && Dist(free, tail, size) == |hs| - n
        invariant Laid(sendq[..], r.free, all, n)
        invariant calls == Callbacks(hs[..n], deflt)
        invariant head == old(head) && tail == old(tail)
        decreases |hs| - n
      {
        DrainStep(size, r, n);
        ghost var s := sendq[..];
        LaidStep(s, r.free, all, n, hs[n]);
        if Tagged(free, head) {
          sendq[free] := sendq[free].(err := EBADF);
        }
        assert sendq[..] == s[free := hs[n]];
        CallbacksSnoc(hs, n, deflt);
        calls := calls + Callback(sendq[free], deflt);
        free := Next(free, sendq.Length);
        n := n + 1;
      }
      assert hs[..n] == hs;
    }
  }

  predicate Stands(sendq: seq<Header>, slot: nat, h: Header) {
    slot < |sendq| && sendq[slot] == h
  }

  /** From the n-th on, the messages `all` stand in the ring, the first of them at slot `free`. */
  ghost predicate Laid(sendq: seq<Header>, free: nat, all: seq<Header>, n: nat) {
    forall i {:trigger all[i]} :: n <= i < |all| ==> Stands(sendq, Wrap(free + i, |sendq|), all[i])
  }

  lemma LaidStep(sendq: seq<Header>, free: nat, all: seq<Header>, n: nat, h: Header)
    requires Laid(sendq, free, all, n) && free < |sendq| && n < |all| < |sendq|
    ensures Wrap(free + n, |sendq|) < |sendq| && sendq[Wrap(free + n, |sendq|)] == all[n]
    ensures Laid(sendq[Wrap(free + n, |sendq|) := h], free, all, n + 1)
  {
    assert Stands(sendq, Wrap(free + n, |sendq|), all[n]);
  }

  /** The outstanding messages are the stretch from free to tail. */
  lemma Geometry(c: Connection)
    requires c.Valid()
    ensures var size, r := c.sendq.Length, c.AsRing();
            && (size == 0 ==> Load(r) == 0)
            && (size > 0 ==> Load(r) < size && Load(r) == Dist(c.free, c.tail, size) && c.head == Head(size, r))
            && Laid(c.sendq[..], c.free, r.waiting + r.pending, 0)
  {
    hide Slice;
    var size, r := c.sendq.Length, c.AsRing();
    if size > 0 {
      Between(c.free, c.head, c.tail, size);
      SliceJoin(c.sendq[..], c.free, |r.waiting|, |r.pending|);
      var all := r.waiting + r.pending;
      forall i | 0 <= i < |all|
        ensures Stands(c.sendq[..], Wrap(c.free + i, size), all[i])
      {
        SliceAt(c.sendq[..], c.free, Load(r), i);
      }
      assert Laid(c.sendq[..], c.free, all, 0);
    }
  }

  lemma DrainStep(size: nat, r: Ring, n: nat)
    requires n < Load(r)
    ensures var h := (r.waiting + r.pending)[n];
            Drained(size, r)[n] == if Tagged(Wrap(r.free + n, size), Head(size, r)) then h.(err := EBADF) else h
  {
  }

  lemma CallbacksNone(hs: seq<Header>, deflt: Option<int>)
    ensures Callbacks(hs[..0], deflt) == []
  {
  }

  lemma CallbacksSnoc(hs: seq<Header>, n: nat, deflt: Option<int>)
    requires n < |hs|
    ensures Callbacks(hs[..n + 1], deflt) == Callbacks(hs[..n], deflt) + Callback(hs[n], deflt)
  {
    assert hs[..n + 1][..n] == hs[..n];
  }
}
