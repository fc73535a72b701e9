/** Selective receive on top of a channel that delivers from anybody (ipc_funcs.c): what arrives from others
    while one sender is waited for goes into a table and is handed out later. Equal pulses share one record
    with a count. Messages of Send() and pulses of this process's own proxies; no call fails. */
module SelectiveReceive {
  import opened Bytes
  import opened Table

  /** What the channel delivers: a Send message, a proxy's pulse, or a pulse with some other code. */
  datatype Arrival = Message(sender: int, rcvid: int) | Pulse(sender: int) | Unexpected

  /** A record of the queued_msgs table; rcvid 0 is a pulse, pending 1 + count times. */
  datatype Queued = Queued(sender: int, rcvid: int, count: nat)

  /** A record of the received_msgs table: a message waiting for its reply. */
  datatype Received = Received(sender: int, rcvid: int)

  predicate IsFrom(a: Arrival, s: int) {
    !a.Unexpected? && a.sender == s
  }

  /** Process ids and proxy ids are distinct, and a receive id is never 0. */
  predicate Sane(proxies: set<int>, a: Arrival) {
    match a
    case Message(sender, rcvid) => rcvid != 0 && sender !in proxies
    case Pulse(sender) => sender in proxies
    case Unexpected => true
  }

  // ----- the queue -----

  /** The first record of this sender, or |qs|. */
  function IndexOf(qs: seq<Queued>, s: int): (i: nat)
    ensures i <= |qs| && (i < |qs| ==> qs[i].sender == s)
    ensures forall j :: 0 <= j < i ==> qs[j].sender != s
  {
    if qs == [] then 0 else if qs[0].sender == s then 0 else 1 + IndexOf(qs[1..], s)
  }

  function Enqueue(qs: seq<Queued>, a: Arrival): seq<Queued> {
    match a
    case Message(sender, rcvid) => qs + [Queued(sender, rcvid, 0)]
    case Pulse(sender) =>
      var i := IndexOf(qs, sender);
      if i < |qs| then qs[i := qs[i].(count := qs[i].count + 1)] else qs + [Queued(sender, 0, 0)]
    case Unexpected => qs
  }

  function Dequeue(qs: seq<Queued>, i: nat): seq<Queued>
    requires i < |qs|
  {
    if qs[i].count == 0 then RemoveAt(qs, i) else qs[i := qs[i].(count := qs[i].count - 1)]
  }

  /** What a record hands out. */
  function First(q: Queued): Arrival {
    if q.rcvid == 0 then Pulse(q.sender) else Message(q.sender, q.rcvid)
  }

  // ----- one call -----

  datatype State = State(queued: seq<Queued>, arrived: seq<Arrival>, delivered: seq<Arrival>,
                         open: multiset<Received>, replied: multiset<Received>)

  function Deliver(st: State, a: Arrival): State {
    st.(delivered := st.delivered + [a],
        open := st.open + if a.Message? then multiset{Received(a.sender, a.rcvid)} else multiset{})
  }

  datatype Answer = Answer(st: State, got: Option<Arrival>, used: nat)

  /** The receive loop on the arrivals of `inbox`; no answer if they run out first. */
  function Wait(st: State, pid: int, inbox: seq<Arrival>): Answer
    decreases |inbox|
  {
    if inbox == [] then Answer(st, None, 0)
    else
      var a, st1 := inbox[0], st.(arrived := st.arrived + [inbox[0]]);
      if !a.Unexpected? && (pid == 0 || pid == a.sender) then Answer(Deliver(st1, a), Some(a), 1)
      else
        var r := Wait(st1.(queued := Enqueue(st1.queued, a)), pid, inbox[1..]);
        r.(used := r.used + 1)
  }

  /** Receivemx: from the queue if it has something, else wait. A negative pid is an error. */
  function Receive(st: State, pid: int, inbox: seq<Arrival>): Answer {
    if pid < 0 then Answer(st, None, 0)
    else
      var i := if pid > 0 then IndexOf(st.queued, pid) else 0;
      if i < |st.queued| then
        var a := First(st.queued[i]);
        Answer(Deliver(st.(queued := Dequeue(st.queued, i)), a), Some(a), 0)
      else Wait(st, pid, inbox)
  }

  // ----- what every run keeps -----

  function OfSender(arrivals: seq<Arrival>, s: int): seq<Arrival> {
    if arrivals == [] then []
    else
      var a := arrivals[|arrivals| - 1];
      OfSender(arrivals[..|arrivals| - 1], s) + if IsFrom(a, s) then [a] else []
  }

  /** What a record stands for, oldest first. */
  function Pending(q: Queued): seq<Arrival> {
    seq(1 + q.count, _ => First(q))
  }

  function Backlog(qs: seq<Queued>, s: int): seq<Arrival> {
    if qs == [] then []
    else
      var q := qs[|qs| - 1];
      Backlog(qs[..|qs| - 1], s) + if q.sender == s then Pending(q) else []
  }

  function Mail(arrivals: seq<Arrival>): multiset<Received> {
    if arrivals == [] then multiset{}
    else
      var a := arrivals[|arrivals| - 1];
      Mail(arrivals[..|arrivals| - 1]) + if a.Message? then multiset{Received(a.sender, a.rcvid)} else multiset{}
  }

  function QueuedMail(qs: seq<Queued>): multiset<Received> {
    if qs == [] then multiset{}
    else QueuedMail(qs[..|qs| - 1]) + MailOf(qs[|qs| - 1])
  }

  function MailOf(q: Queued): multiset<Received> {
    if q.rcvid == 0 then multiset{} else multiset{Received(q.sender, q.rcvid)}
  }

  /** A proxy has at most one record, and only pulses are counted. */
  ghost predicate WellFormed(proxies: set<int>, qs: seq<Queued>) {
    && (forall i :: 0 <= i < |qs| ==> (qs[i].rcvid == 0 <==> qs[i].sender in proxies))
    && (forall i :: 0 <= i < |qs| && qs[i].rcvid != 0 ==> qs[i].count == 0)
    && forall i, j :: 0 <= i < j < |qs| && qs[i].sender in proxies ==> qs[i].sender != qs[j].sender
  }

  /** Per sender, what arrived is what was delivered and, behind it, what is queued, in this order; and every
      message delivered is either still open or was replied to. */
  ghost predicate Conserved(proxies: set<int>, st: State) {
    && WellFormed(proxies, st.queued)
    && (forall s :: OfSender(st.arrived, s) == OfSender(st.delivered, s) + Backlog(st.queued, s))
    && Mail(st.arrived) == Mail(st.delivered) + QueuedMail(st.queued)
    && Mail(st.delivered) == st.replied + st.open
  }

  lemma {:induction false} BacklogAppend(a: seq<Queued>, b: seq<Queued>, s: int)
    ensures Backlog(a + b, s) == Backlog(a, s) + Backlog(b, s)
    ensures QueuedMail(a + b) == QueuedMail(a) + QueuedMail(b)
  {
    hide Pending, MailOf;
    if b == [] {
      assert a + b == a;
    } else {
      var init := b[..|b| - 1];
      assert (a + b)[..|a + b| - 1] == a + init;
      BacklogAppend(a, init, s);
    }
  }

  lemma BacklogOne(q: Queued, s: int)
    ensures Backlog([q], s) == if q.sender == s then Pending(q) else []
    ensures QueuedMail([q]) == MailOf(q)
  {
    hide Pending;
    assert [q][..0] == [];
  }

  /** The backlog around record i. */
  lemma BacklogSplit(qs: seq<Queued>, i: nat, s: int)
    requires i < |qs|
    ensures Backlog(qs, s)
         == Backlog(qs[..i], s) + (if qs[i].sender == s then Pending(qs[i]) else []) + Backlog(qs[i + 1..], s)
    ensures QueuedMail(qs) == QueuedMail(qs[..i]) + MailOf(qs[i]) + QueuedMail(qs[i + 1..])
  {
    hide Pending, MailOf;
    var a, b := qs[..i], qs[i + 1..];
    assert qs == a + [qs[i]] + b;
    BacklogAppend(a + [qs[i]], b, s);
    BacklogAppend(a, [qs[i]], s);
    BacklogOne(qs[i], s);
  }

  lemma {:induction false} NoBacklog(qs: seq<Queued>, s: int)
    requires forall i :: 0 <= i < |qs| ==> qs[i].sender != s
    ensures Backlog(qs, s) == []
  {
    if qs != [] {
      NoBacklog(qs[..|qs| - 1], s);
    }
  }

  lemma OfSenderSnoc(arrivals: seq<Arrival>, a: Arrival, s: int)
    ensures OfSender(arrivals + [a], s) == OfSender(arrivals, s) + if IsFrom(a, s) then [a] else []
    ensures Mail(arrivals + [a])
         == Mail(arrivals) + if a.Message? then multiset{Received(a.sender, a.rcvid)} else multiset{}
  {
    assert (arrivals + [a])[..|arrivals|] == arrivals;
  }

  lemma PendingMore(q: Queued)
    requires q.rcvid == 0
    ensures Pending(q.(count := q.count + 1)) == Pending(q) + [Pulse(q.sender)] == [Pulse(q.sender)] + Pending(q)
  {
  }

  lemma PendingOne(q: Queued)
    requires q.count == 0
    ensures Pending(q) == [First(q)]
  {
  }

  lemma EnqueueAdds(proxies: set<int>, qs: seq<Queued>, a: Arrival, s: int)
    requires WellFormed(proxies, qs) && Sane(proxies, a)
    ensures Backlog(Enqueue(qs, a), s) == Backlog(qs, s) + if IsFrom(a, s) then [a] else []
    ensures QueuedMail(Enqueue(qs, a))
         == QueuedMail(qs) + if a.Message? then multiset{Received(a.sender, a.rcvid)} else multiset{}
  {
    hide Backlog, QueuedMail, Pending, IndexOf;
    match a
    case Message(sender, rcvid) =>
      BacklogAppend(qs, [Queued(sender, rcvid, 0)], s);
      BacklogOne(Queued(sender, rcvid, 0), s);
      PendingOne(Queued(sender, rcvid, 0));
    case Pulse(sender) =>
      var i := IndexOf(qs, sender);
      if i < |qs| {
        EnqueueCounts(proxies, qs, i, s);
      } else {
        BacklogAppend(qs, [Queued(sender, 0, 0)], s);
        BacklogOne(Queued(sender, 0, 0), s);
        PendingOne(Queued(sender, 0, 0));
      }
    case Unexpected =>
  }

  lemma EnqueueCounts(proxies: set<int>, qs: seq<Queued>, i: nat, s: int)
    requires WellFormed(proxies, qs) && i < |qs| && qs[i].sender in proxies
    ensures var r := qs[i := qs[i].(count := qs[i].count + 1)];
            && Backlog(r, s) == Backlog(qs, s) + (if qs[i].sender == s then [Pulse(s)] else [])
            && QueuedMail(r) == QueuedMail(qs)
  {
    hide Backlog, QueuedMail, Pending;
    var q := qs[i].(count := qs[i].count + 1);
    var r := qs[i := q];
    BacklogSplit(qs, i, s);
    BacklogSplit(r, i, s);
    assert r[..i] == qs[..i] && r[i + 1..] == qs[i + 1..];
    PendingMore(qs[i]);
    if qs[i].sender == s {
      NoBacklog(qs[i + 1..], s);
    }
  }

  lemma EnqueueWellFormed(proxies: set<int>, qs: seq<Queued>, a: Arrival)
    requires WellFormed(proxies, qs) && Sane(proxies, a)
    ensures WellFormed(proxies, Enqueue(qs, a))
  {
    hide IndexOf;
  }

  lemma DequeueWellFormed(proxies: set<int>, qs: seq<Queued>, i: nat)
    requires WellFormed(proxies, qs) && i < |qs|
    ensures WellFormed(proxies, Dequeue(qs, i))
  {
  }

  /** Taking from a sender's first record takes that sender's oldest. */
  lemma DequeueTakes(proxies: set<int>, qs: seq<Queued>, i: nat, s: int)
    requires WellFormed(proxies, qs) && i < |qs|
    requires forall j :: 0 <= j < i ==> qs[j].sender != qs[i].sender
    ensures Backlog(qs, s) == (if qs[i].sender == s then [First(qs[i])] else []) + Backlog(Dequeue(qs, i), s)
    ensures QueuedMail(qs) == MailOf(qs[i]) + QueuedMail(Dequeue(qs, i))
  {
    hide Backlog, QueuedMail, Pending, WellFormed, RemoveAt, MailOf, First;
    var q, a, b := qs[i], qs[..i], qs[i + 1..];
    BacklogSplit(qs, i, s);
    if q.sender == s {
      NoBacklog(a, s);
    }
    if q.count == 0 {
      PendingOne(q);
      BacklogAppend(a, b, s);
      Removed(qs, i);
    } else {
      Counted(proxies, qs, i);
      var q' := q.(count := q.count - 1);
      var r := qs[i := q'];
      BacklogSplit(r, i, s);
      assert r[..i] == a && r[i + 1..] == b;
      PendingMore(q');
    }
  }

  lemma Removed(qs: seq<Queued>, i: nat)
    requires i < |qs|
    ensures RemoveAt(qs, i) == qs[..i] + qs[i + 1..]
  {
  }

  lemma Counted(proxies: set<int>, qs: seq<Queued>, i: nat)
    requires WellFormed(proxies, qs) && i < |qs| && qs[i].count > 0
    ensures qs[i].rcvid == 0 && First(qs[i]) == Pulse(qs[i].sender)
    ensures MailOf(qs[i].(count := qs[i].count - 1)) == multiset{} == MailOf(qs[i])
  {
  }

  // ----- calls keep it -----

  lemma ArriveKeeps(proxies: set<int>, st: State, a: Arrival)
    requires Conserved(proxies, st) && Sane(proxies, a)
    ensures Conserved(proxies, st.(arrived := st.arrived + [a], queued := Enqueue(st.queued, a)))
  {
    hide OfSender, Backlog, Mail, QueuedMail, Enqueue, WellFormed;
    EnqueueWellFormed(proxies, st.queued, a);
    forall s ensures OfSender(st.arrived + [a], s) == OfSender(st.delivered, s) + Backlog(Enqueue(st.queued, a), s) {
      OfSenderSnoc(st.arrived, a, s);
      EnqueueAdds(proxies, st.queued, a, s);
    }
    OfSenderSnoc(st.arrived, a, 0);
    EnqueueAdds(proxies, st.queued, a, 0);
  }

  /** An arrival may be handed over at once if nothing of its sender is queued. */
  lemma DirectKeeps(proxies: set<int>, st: State, a: Arrival)
    requires Conserved(proxies, st) && !a.Unexpected?
    requires forall i :: 0 <= i < |st.queued| ==> st.queued[i].sender != a.sender
    ensures Conserved(proxies, Deliver(st.(arrived := st.arrived + [a]), a))
  {
    hide OfSender, Backlog, Mail, QueuedMail, WellFormed;
    forall s ensures OfSender(st.arrived + [a], s) == OfSender(st.delivered + [a], s) + Backlog(st.queued, s) {
      OfSenderSnoc(st.arrived, a, s);
      OfSenderSnoc(st.delivered, a, s);
      if s == a.sender {
        NoBacklog(st.queued, s);
      }
    }
    OfSenderSnoc(st.arrived, a, 0);
    OfSenderSnoc(st.delivered, a, 0);
  }

  lemma TakeKeeps(proxies: set<int>, st: State, i: nat)
    requires Conserved(proxies, st) && i < |st.queued|
    requires forall j :: 0 <= j < i ==> st.queued[j].sender != st.queued[i].sender
    ensures Conserved(proxies, Deliver(st.(queued := Dequeue(st.queued, i)), First(st.queued[i])))
  {
    hide OfSender, Backlog, Mail, QueuedMail, Dequeue, WellFormed;
    var q, rest := st.queued[i], Dequeue(st.queued, i);
    DequeueWellFormed(proxies, st.queued, i);
    forall s ensures OfSender(st.arrived, s) == OfSender(st.delivered + [First(q)], s) + Backlog(rest, s) {
      OfSenderSnoc(st.delivered, First(q), s);
      DequeueTakes(proxies, st.queued, i, s);
    }
    OfSenderSnoc(st.delivered, First(q), 0);
    DequeueTakes(proxies, st.queued, i, 0);
  }

  lemma {:induction false} WaitKeeps(proxies: set<int>, st: State, pid: int, inbox: seq<Arrival>)
    requires Conserved(proxies, st) && forall a :: a in inbox ==> Sane(proxies, a)
    requires if pid == 0 then st.queued == [] else forall i :: 0 <= i < |st.queued| ==> st.queued[i].sender != pid
    ensures Conserved(proxies, Wait(st, pid, inbox).st)
    decreases |inbox|
  {
    hide Conserved, Deliver;
    if inbox != [] {
      var a := inbox[0];
      if !a.Unexpected? && (pid == 0 || pid == a.sender) {
        DirectKeeps(proxies, st, a);
      } else {
        ArriveKeeps(proxies, st, a);
        OthersOnly(st.queued, a, pid);
        WaitKeeps(proxies, st.(arrived := st.arrived + [a], queued := Enqueue(st.queued, a)), pid, inbox[1..]);
      }
    }
  }

  lemma OthersOnly(qs: seq<Queued>, a: Arrival, pid: int)
    requires a.Unexpected? || (pid != 0 && pid != a.sender)
    requires if pid == 0 then qs == [] else forall i :: 0 <= i < |qs| ==> qs[i].sender != pid
    ensures var r := Enqueue(qs, a); if pid == 0 then r == [] else forall i :: 0 <= i < |r| ==> r[i].sender != pid
  {
  }

  lemma ReceiveKeeps(proxies: set<int>, st: State, pid: int, inbox: seq<Arrival>)
    requires Conserved(proxies, st) && forall a :: a in inbox ==> Sane(proxies, a)
    ensures Conserved(proxies, Receive(st, pid, inbox).st)
  {
    hide Conserved, Deliver, Wait, Dequeue, First, IndexOf;
    if pid >= 0 {
      var i := if pid > 0 then IndexOf(st.queued, pid) else 0;
      if i < |st.queued| {
        TakeKeeps(proxies, st, i);
      } else {
        WaitKeeps(proxies, st, pid, inbox);
      }
    }
  }

  // ----- whose message comes back -----

  lemma {:induction false} OfSenderCons(a: Arrival, rest: seq<Arrival>, s: int)
    ensures OfSender([a] + rest, s) == (if IsFrom(a, s) then [a] else []) + OfSender(rest, s)
  {
    if rest == [] {
      assert [a] + rest == [] + [a];
      OfSenderSnoc([], a, s);
    } else {
      var init, last := rest[..|rest| - 1], rest[|rest| - 1];
      OfSenderCons(a, init, s);
      OfSenderSnoc([a] + init, last, s);
      assert [a] + rest == [a] + init + [last];
    }
  }

  lemma BacklogOf(qs: seq<Queued>, i: nat)
    requires i < |qs| && forall j :: 0 <= j < i ==> qs[j].sender != qs[i].sender
    ensures Backlog(qs, qs[i].sender) == Pending(qs[i]) + Backlog(qs[i + 1..], qs[i].sender)
  {
    hide Backlog, Pending, QueuedMail, MailOf;
    BacklogSplit(qs, i, qs[i].sender);
    NoBacklog(qs[..i], qs[i].sender);
  }

  /** Taking from a sender's first record takes that sender's oldest, whatever the queue holds besides. */
  lemma BacklogTaken(qs: seq<Queued>, i: nat)
    requires i < |qs| && forall j :: 0 <= j < i ==> qs[j].sender != qs[i].sender
    ensures var s := qs[i].sender; Backlog(qs, s) == [First(qs[i])] + Backlog(Dequeue(qs, i), s)
  {
    hide Backlog, First, RemoveAt, Pending, QueuedMail, MailOf;
    if qs[i].count == 0 {
      LastTaken(qs, i);
    } else {
      OneTaken(qs, i);
    }
  }

  lemma LastTaken(qs: seq<Queued>, i: nat)
    requires i < |qs| && qs[i].count == 0 && forall j :: 0 <= j < i ==> qs[j].sender != qs[i].sender
    ensures var s := qs[i].sender; Backlog(qs, s) == [First(qs[i])] + Backlog(RemoveAt(qs, i), s)
  {
    hide Backlog, First, RemoveAt, Pending, QueuedMail, MailOf;
    var s := qs[i].sender;
    BacklogOf(qs, i);
    PendingOne(qs[i]);
    BacklogAppend(qs[..i], qs[i + 1..], s);
    NoBacklog(qs[..i], s);
    Removed(qs, i);
  }

  lemma OneTaken(qs: seq<Queued>, i: nat)
    requires i < |qs| && qs[i].count > 0 && forall j :: 0 <= j < i ==> qs[j].sender != qs[i].sender
    ensures var s, r := qs[i].sender, qs[i := qs[i].(count := qs[i].count - 1)];
            Backlog(qs, s) == [First(qs[i])] + Backlog(r, s)
  {
    hide Backlog, First, Pending, QueuedMail, MailOf;
    var q' := qs[i].(count := qs[i].count - 1);
    BacklogOf(qs, i);
    BacklogOf(qs[i := q'], i);
    assert qs[i := q'][i + 1..] == qs[i + 1..];
    PendingLess(qs[i]);
  }

  lemma PendingLess(q: Queued)
    requires q.count > 0
    ensures Pending(q) == [First(q)] + Pending(q.(count := q.count - 1))
  {
  }

  /** A waiting call takes the first arrival that it wants, ... */
  lemma {:induction false} WaitPasses(st: State, pid: int, inbox: seq<Arrival>)
    requires 0 <= pid
    ensures var r := Wait(st, pid, inbox);
            && r.used <= |inbox|
            && (if r.got.None? then r.used == |inbox|
                else 0 < r.used && inbox[r.used - 1] == r.got.value && Wanted(r.got.value, pid))
            && forall i :: 0 <= i < r.used && (r.got.None? || i < r.used - 1) ==> !Wanted(inbox[i], pid)
    decreases |inbox|
  {
    hide Enqueue, Deliver;
    if inbox != [] && !Wanted(inbox[0], pid) {
      WaitPasses(st.(arrived := st.arrived + [inbox[0]], queued := Enqueue(st.queued, inbox[0])), pid, inbox[1..]);
    }
  }

  /** ... and records it and those it has passed. */
  lemma {:induction false} WaitTakes(st: State, pid: int, inbox: seq<Arrival>)
    requires 0 <= pid
    ensures var r := Wait(st, pid, inbox);
            && r.used <= |inbox| && r.st.arrived == st.arrived + inbox[..r.used] && r.st.replied == st.replied
            && (if r.got.None? then r.st.delivered == st.delivered && r.st.open == st.open
                else r.st.delivered == st.delivered + [r.got.value] && r.st.open == st.open + Mail([r.got.value]))
    decreases |inbox|
  {
    hide Enqueue;
    if inbox != [] {
      var a := inbox[0];
      if Wanted(a, pid) {
        assert [a][..0] == [] && inbox[..1] == [a];
      } else {
        var st1 := st.(arrived := st.arrived + [a], queued := Enqueue(st.queued, a));
        WaitTakes(st1, pid, inbox[1..]);
        assert inbox[..Wait(st1, pid, inbox[1..]).used + 1] == [a] + inbox[1..][..Wait(st1, pid, inbox[1..]).used];
      }
    }
  }

  /** A pulse with some other code is wanted by nobody; 0 asks for anybody. */
  predicate Wanted(a: Arrival, pid: int) {
    match a
    case Unexpected => false
    case Message(sender, _) => pid == 0 || sender == pid
    case Pulse(sender) => pid == 0 || sender == pid
  }

  /** Waiting takes the sender's first arrival from the inbox. */
  lemma {:induction false} FirstWanted(inbox: seq<Arrival>, pid: int, used: nat)
    requires 0 < pid && used <= |inbox| && forall i :: 0 <= i < used - 1 ==> !Wanted(inbox[i], pid)
    ensures 0 < used && Wanted(inbox[used - 1], pid) ==>
              OfSender(inbox, pid) == [inbox[used - 1]] + OfSender(inbox[used..], pid)
    ensures used == |inbox| && (used == 0 || !Wanted(inbox[used - 1], pid)) ==> OfSender(inbox, pid) == []
    decreases |inbox|
  {
    hide OfSender;
    if inbox == [] {
      NoneOfSender(pid);
    } else {
      var rest := inbox[1..];
      assert inbox == [inbox[0]] + rest;
      OfSenderCons(inbox[0], rest, pid);
      if used > 1 {
        assert forall i :: 0 <= i < used - 2 ==> rest[i] == inbox[i + 1];
        FirstWanted(rest, pid, used - 1);
        assert rest[used - 1..] == inbox[used..];
      } else if used == 1 && used == |inbox| {
        NoneOfSender(pid);
      }
    }
  }

  lemma NoneOfSender(pid: int)
    ensures OfSender([], pid) == []
  {
  }

  /** Whose message a call with a process id hands out: the oldest of that process, first what is queued, then what
      comes; no answer exactly if there is none. The others wait: only what was taken is gone. */
  lemma ReceiveFrom(st: State, pid: int, inbox: seq<Arrival>)
    requires 0 < pid
    ensures var r, claims := Receive(st, pid, inbox), Backlog(st.queued, pid) + OfSender(inbox, pid);
            && r.got == (if claims == [] then None else Some(claims[0]))
            && r.used <= |inbox| && (Backlog(st.queued, pid) != [] ==> r.used == 0)
            && (r.got.Some? ==> Backlog(r.st.queued, pid) + OfSender(inbox[r.used..], pid) == claims[1..])
  {
    hide Backlog, OfSender, Wait, Dequeue, First;
    var i := IndexOf(st.queued, pid);
    if i < |st.queued| {
      BacklogTaken(st.queued, i);
      assert inbox[0..] == inbox;
      Front(First(st.queued[i]), Backlog(Dequeue(st.queued, i), pid), OfSender(inbox, pid));
    } else {
      NoBacklog(st.queued, pid);
      WaitPasses(st, pid, inbox);
      FirstWanted(inbox, pid, Wait(st, pid, inbox).used);
      WaitQueuesOthers(st, pid, inbox);
      assert forall s: seq<Arrival> :: [] + s == s;
    }
  }

  lemma Front(a: Arrival, b: seq<Arrival>, c: seq<Arrival>)
    ensures var all := [a] + b + c; all != [] && all[0] == a && all[1..] == b + c
  {
  }

  lemma {:induction false} WaitQueuesOthers(st: State, pid: int, inbox: seq<Arrival>)
    requires 0 < pid && Backlog(st.queued, pid) == []
    ensures Backlog(Wait(st, pid, inbox).st.queued, pid) == []
    decreases |inbox|
  {
    hide Backlog, Enqueue;
    if inbox != [] && !Wanted(inbox[0], pid) {
      OthersBacklog(st.queued, inbox[0], pid);
      WaitQueuesOthers(st.(arrived := st.arrived + [inbox[0]], queued := Enqueue(st.queued, inbox[0])),
                       pid, inbox[1..]);
    }
  }

  lemma OthersBacklog(qs: seq<Queued>, a: Arrival, pid: int)
    requires 0 < pid && !Wanted(a, pid)
    ensures Backlog(Enqueue(qs, a), pid) == Backlog(qs, pid)
  {
    hide Backlog, QueuedMail, Pending;
    match a
    case Message(sender, rcvid) =>
      BacklogAppend(qs, [Queued(sender, rcvid, 0)], pid);
      BacklogOne(Queued(sender, rcvid, 0), pid);
    case Pulse(sender) =>
      var i := IndexOf(qs, sender);
      if i < |qs| {
        var r := qs[i := qs[i].(count := qs[i].count + 1)];
        BacklogSplit(qs, i, pid);
        BacklogSplit(r, i, pid);
        assert r[..i] == qs[..i] && r[i + 1..] == qs[i + 1..];
      } else {
        BacklogAppend(qs, [Queued(sender, 0, 0)], pid);
        BacklogOne(Queued(sender, 0, 0), pid);
      }
    case Unexpected =>
  }

  /** A call with 0 takes the oldest record of the queue, or else the first arrival that is not an unexpected pulse. */
  lemma ReceiveFromAny(st: State, inbox: seq<Arrival>)
    ensures var r := Receive(st, 0, inbox);
            if st.queued != [] then
              var q := st.queued[0];
              && r.got == Some(if q.rcvid != 0 then Message(q.sender, q.rcvid) else Pulse(q.sender))
              && r.used == 0 && r.st.arrived == st.arrived
            else if r.got.Some? then
              && 0 < r.used <= |inbox| && r.got.value == inbox[r.used - 1] && !r.got.value.Unexpected?
              && forall i :: 0 <= i < r.used - 1 ==> inbox[i].Unexpected?
            else
              r.used == |inbox| && forall i :: 0 <= i < |inbox| ==> inbox[i].Unexpected?
  {
    hide Dequeue, Wait;
    if st.queued == [] {
      WaitPasses(st, 0, inbox);
      assert forall i :: 0 <= i < |inbox| ==> (Wanted(inbox[i], 0) <==> !inbox[i].Unexpected?);
    }
  }

  /** What every call records: the arrivals it used, and what it handed out, once; a negative process id changes
      nothing. */
  lemma ReceiveRecords(st: State, pid: int, inbox: seq<Arrival>)
    ensures var r := Receive(st, pid, inbox);
            && r.used <= |inbox| && r.st.arrived == st.arrived + inbox[..r.used] && r.st.replied == st.replied
            && (if r.got.Some? then
                  r.st.delivered == st.delivered + [r.got.value] && r.st.open == st.open + Mail([r.got.value])
                else r.st.delivered == st.delivered && r.st.open == st.open)
            && (pid < 0 ==> r == Answer(st, None, 0))
  {
    hide Dequeue, Wait, First;
    assert st.arrived + inbox[..0] == st.arrived;
    if pid >= 0 {
      WaitTakes(st, pid, inbox);
      var i := if pid > 0 then IndexOf(st.queued, pid) else 0;
      if i < |st.queued| {
        assert [First(st.queued[i])][..0] == [];
      }
    }
  }

  /** Records stand in the order in which their first arrivals came: a new one goes to the end, and the others keep
      their places. */
  lemma EnqueueOrder(qs: seq<Queued>, a: Arrival)
    ensures var r := Enqueue(qs, a);
            && |qs| <= |r| <= |qs| + 1
            && (forall i :: 0 <= i < |qs| ==> r[i].sender == qs[i].sender && r[i].rcvid == qs[i].rcvid)
            && (|r| == |qs| + 1 ==> !a.Unexpected? && r[|qs|] == Queued(a.sender, if a.Message? then a.rcvid else 0, 0))
            && (|r| == |qs| <==> a.Unexpected? || (a.Pulse? && exists i :: 0 <= i < |qs| && qs[i].sender == a.sender))
  {
  }

  // ----- whole runs -----

  /** Receive calls with what arrives during each, and replies with the receive id that was found. */
  datatype Event = Call(pid: int, inbox: seq<Arrival>) | Reply(pid: int, rcvid: int)

  ghost predicate Possible(proxies: set<int>, st: State, e: Event) {
    match e
    case Call(_, inbox) => forall a :: a in inbox ==> Sane(proxies, a)
    case Reply(pid, rcvid) => Received(pid, rcvid) in st.open
  }

  function After(st: State, e: Event): State {
    match e
    case Call(pid, inbox) => Receive(st, pid, inbox).st
    case Reply(pid, rcvid) =>
      var r := multiset{Received(pid, rcvid)};
      st.(open := st.open - r, replied := st.replied + r)
  }

  const START: State := State([], [], [], multiset{}, multiset{})

  /** The state after a whole run; whichever equal record bsearch picks, the tables hold the same records. */
  function Run(es: seq<Event>): State {
    if es == [] then START else After(Run(es[..|es| - 1]), es[|es| - 1])
  }

  ghost predicate AllPossible(proxies: set<int>, es: seq<Event>) {
    es != [] ==> AllPossible(proxies, es[..|es| - 1]) && Possible(proxies, Run(es[..|es| - 1]), es[|es| - 1])
  }

  /** Over every run, nothing is lost, duplicated or reordered between a sender's messages. */
  lemma {:induction false} RunConserves(proxies: set<int>, es: seq<Event>)
    requires AllPossible(proxies, es)
    ensures Conserved(proxies, Run(es))
  {
    if es != [] {
      var e := es[|es| - 1];
      RunConserves(proxies, es[..|es| - 1]);
      if e.Call? {
        ReceiveKeeps(proxies, Run(es[..|es| - 1]), e.pid, e.inbox);
      } else {
        ReplyKeeps(proxies, Run(es[..|es| - 1]), e);
      }
    }
  }

  lemma ReplyKeeps(proxies: set<int>, st: State, e: Event)
    requires Conserved(proxies, st) && e.Reply? && Possible(proxies, st, e)
    ensures Conserved(proxies, After(st, e))
  {
  }

  /** If no receive id arrives twice, none is replied to twice. */
  lemma RepliedOnce(proxies: set<int>, es: seq<Event>, r: Received)
    requires AllPossible(proxies, es) && Mail(Run(es).arrived)[r] <= 1
    ensures Run(es).replied[r] <= 1
    ensures Run(es).replied[r] == 1 ==> Run(es).open[r] == 0 && QueuedMail(Run(es).queued)[r] == 0
  {
    hide Run, AllPossible;
    RunConserves(proxies, es);
  }

  // ----- the tables in memory -----

  function CompareQueued(p1: Queued, p2: Queued): int {
    if p1.sender < p2.sender then -1 else if p1.sender == p2.sender then 0 else 1
  }

  function CompareReceived(p1: Received, p2: Received): int {
    if p1.sender < p2.sender then -1 else if p1.sender == p2.sender then 0 else 1
  }

  class Receiver {
    const queued: RecordTable<Queued>
    const received: RecordTable<Received>
    ghost var arrived: seq<Arrival>
    ghost var delivered: seq<Arrival>
    ghost var replied: multiset<Received>

    ghost predicate Valid()
      reads this, queued, received
    {
      && queued.Valid() && !queued.sorted && queued.cmp == CompareQueued
      && received.Valid() && received.sorted && received.cmp == CompareReceived
    }

    ghost function AsState(): State
      reads this, queued, received
    {
      State(queued.recs, arrived, delivered, multiset(received.recs), replied)
    }

    /** ipc_init, as far as the two tables go. */
    constructor ()
      ensures Valid() && AsState() == START && fresh(queued) && fresh(received)
    {
      queued := new RecordTable(false, CompareQueued);
      received := new RecordTable(true, CompareReceived);
      arrived, delivered, replied := [], [], multiset{};
    }

    /** process_msg: a message is entered into the table of messages to reply to. */
    method ProcessMsg(a: Arrival)
      requires Valid()
      modifies this`delivered, received`recs
      ensures Valid() && AsState() == Deliver(old(AsState()), a)
    {
      hide Order, Sorted, Place;
      if a.Message? {
        var k := received.AddRecord(Received(a.sender, a.rcvid));
        InsertMultiset(old(received.recs), k, Received(a.sender, a.rcvid));
      }
      delivered := delivered + [a];
    }

    /** put_queued_msg: a pulse whose proxy is in the table already only counts it up. */
    method PutQueuedMsg(a: Arrival)
      requires Valid() && !a.Unexpected?
      modifies this`arrived, queued
      ensures Valid()
      ensures AsState() == old(AsState()).(arrived := old(arrived) + [a], queued := Enqueue(old(queued.recs), a))
    {
      hide Order, Sorted, Place, IndexOf, InsertAt;
      InsertIs(queued.recs, |queued.recs|, Queued(a.sender, if a.Pulse? then 0 else a.rcvid, 0));
      arrived := arrived + [a];
      if a.Pulse? {
        var found, n := queued.GetRecord(Queued(a.sender, 0, 0));
        IndexIs(queued.recs, Queued(a.sender, 0, 0), n);
        if found.Some? {
          queued.recs := queued.recs[n := found.value.(count := found.value.count + 1)];
          return;
        }
      }
      var k := queued.AddRecord(Queued(a.sender, if a.Pulse? then 0 else a.rcvid, 0));
      assert queued.recs == old(queued.recs) + [Queued(a.sender, if a.Pulse? then 0 else a.rcvid, 0)];
    }

    /** get_queued_msg */
    method GetQueuedMsg(pid: int) returns (got: Option<Arrival>)
      requires Valid() && pid >= 0
      modifies this`delivered, queued, received`recs
      ensures Valid()
      ensures var st := old(AsState()); var i := if pid > 0 then IndexOf(st.queued, pid) else 0;
              if i < |st.queued|
              then got == Some(First(st.queued[i])) &&
                   AsState() == Deliver(st.(queued := Dequeue(st.queued, i)), got.value)
              else got == None && AsState() == st
    {
      hide Order, Sorted, Place;
      var found, n := None, -1;
      if pid > 0 {
        found, n := queued.GetRecord(Queued(pid, 0, 0));
        IndexIs(queued.recs, Queued(pid, 0, 0), n);
      } else {
        found, n := queued.GetNextRecord(true, Reset);
        found, n := queued.GetNextRecord(true, Next);
      }
      if found.None? {
        return None;
      }
      var a := First(found.value);
      ProcessMsg(a);
      if found.value.count == 0 {
        var ok, i := queued.DeleteRecord(None, n);
      } else {
        queued.recs := queued.recs[n := found.value.(count := found.value.count - 1)];
      }
      got := Some(a);
    }

    /** Receivemx. `inbox` is what MsgReceive will deliver, in order; the call stops there if it is not enough. */
    method Receivemx(pid: int, inbox: seq<Arrival>) returns (got: Option<Arrival>, used: nat)
      requires Valid()
      modifies this, queued, received
      ensures Valid() && Answer(AsState(), got, used) == Receive(old(AsState()), pid, inbox)
    {
      hide Order, Sorted, Place, Deliver, Enqueue, Dequeue;
      if pid < 0 {
        return None, 0;
      }
      got := GetQueuedMsg(pid);
      if got.Some? {
        return got, 0;
      }
      used := 0;
      ghost var st := AsState();
      assert inbox[0..] == inbox;
      while used < |inbox|
        invariant Valid() && used <= |inbox|
        invariant var r := Wait(AsState(), pid, inbox[used..]); r.(used := r.used + used) == Wait(st, pid, inbox)
      {
        var a := inbox[used];
        assert inbox[used..][0] == a && inbox[used..][1..] == inbox[used + 1..];
        used := used + 1;
        if a.Unexpected? {
          arrived := arrived + [a];
          UnexpectedIgnored(queued.recs);
        } else if pid == 0 || pid == a.sender {
          arrived := arrived + [a];
          ProcessMsg(a);
          return Some(a), used;
        } else {
          PutQueuedMsg(a);
        }
      }
    }

    /** get_rcvid_from_pid: the receive id to reply to, or -1 if nobody of that id waits. */
    method GetRcvidFromPid(pid: int, remove: bool) returns (rcvid: int)
      requires Valid()
      modifies received, this`replied
      ensures Valid() && (rcvid == -1 || Received(pid, rcvid) in old(AsState()).open)
      ensures AsState() == if rcvid != -1 && remove then After(old(AsState()), Reply(pid, rcvid)) else old(AsState())
      ensures (forall r :: r in old(received.recs) ==> r.rcvid != -1) ==>
                (rcvid == -1 <==> forall r :: r in old(received.recs) ==> r.sender != pid)
    {
      hide Order, Sorted, Place;
      rcvid := -1;
      var found, n := received.GetRecord(Received(pid, 0));
      if found.Some? {
        rcvid := found.value.rcvid;
        assert found.value in received.recs;
        if remove && rcvid != -1 {
          RemoveMultiset(received.recs, n);
          var ok, i := received.DeleteRecord(None, n);
          replied := replied + multiset{found.value};
        }
      }
    }
  }

  /** Lfind on the queue finds a sender's first record. */
  lemma IndexIs(qs: seq<Queued>, key: Queued, n: int)
    requires -1 <= n < |qs| && (n >= 0 ==> CompareQueued(key, qs[n]) == 0)
    requires n >= 0 ==> forall i :: 0 <= i < n ==> CompareQueued(key, qs[i]) != 0
    requires n < 0 ==> forall i :: 0 <= i < |qs| ==> CompareQueued(key, qs[i]) != 0
    ensures IndexOf(qs, key.sender) == if n >= 0 then n else |qs|
  {
    assert forall i :: 0 <= i < |qs| ==> (CompareQueued(key, qs[i]) == 0 <==> qs[i].sender == key.sender);
  }

  lemma UnexpectedIgnored(qs: seq<Queued>)
    ensures Enqueue(qs, Unexpected) == qs
  {
  }

  lemma InsertMultiset(s: seq<Received>, k: nat, x: Received)
    requires k <= |s|
    ensures multiset(InsertAt(s, k, x)) == multiset(s) + multiset{x}
  {
    assert s == s[..k] + s[k..];
  }

  lemma RemoveMultiset(s: seq<Received>, k: nat)
    requires k < |s|
    ensures multiset(RemoveAt(s, k)) == multiset(s) - multiset{s[k]}
  {
    assert s == s[..k] + [s[k]] + s[k + 1..];
  }
}
