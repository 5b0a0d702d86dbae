/** asyncsendto.c: datagrams that wait for their time, or for their socket, before they are sent. */
module AsyncSend {
  import opened Net

  /** struct timeval */
  datatype Timeval = Timeval(sec: int, usec: int)

  function Micros(t: Timeval): int { t.sec * 1000000 + t.usec }

  /** What the clock returns. */
  predicate Normal(t: Timeval) { 0 <= t.usec < 1000000 }

  /** The comparison of the C code, field by field. */
  predicate Before(a: Timeval, b: Timeval) {
    a.sec < b.sec || (a.sec == b.sec && a.usec < b.usec)
  }

  datatype SendState = Scheduled | WaitReady | SendNow

  /** struct scheduled_send; `id` tells one packet from another, `due` is when it may be sent, in microseconds. */
  datatype Packet = Packet(id: nat, ts: Timeval, state: SendState, sock: nat, len: nat, due: int)

  /** What sendto() answers: bytes sent, EINTR, EAGAIN or EWOULDBLOCK, or any other error. */
  datatype Outcome = Sent(n: nat) | Interrupted | WouldBlock | Failed

  predicate Final(o: Outcome) { o.Sent? || o.Failed? }

  /** The history of a packet: each time it is given to the socket, or its loss for want of a clock or of memory. */
  datatype Event = Attempt(id: nat, sock: nat, len: nat, due: int, at: int, outcome: Outcome) | Dropped(id: nat)

  predicate Ends(e: Event) { e.Dropped? || Final(e.outcome) }

  /** The queue, the number of packets so far, the time in microseconds, and the history. */
  datatype Queue = Queue(list: seq<Packet>, calls: nat, clock: int, log: seq<Event>)

  // ---- the three operations ----

  /** When a packet delayed by `delay` milliseconds is to be sent. */
  function SendTime(tv: Timeval, delay: U32): Timeval {
    var sec, usec := tv.sec + delay / 1000, tv.usec + delay % 1000 * 1000;
    if usec > 1000000 then Timeval(sec + 1, usec - 1000000) else Timeval(sec, usec)
  }

  /** A call to sendto_schedule2(): the packet, the time of the call, the answer to the attempt to send at
      once, the clock as read afterwards, if it can be read, and whether there is memory. */
  datatype Call = Call(sock: nat, len: nat, delay: U32, called: int, first: Outcome, tv: Option<Timeval>, memory: bool)

  predicate MustQueue(c: Call) {
    c.delay != 0 || c.first.WouldBlock? || c.first.Interrupted?
  }

  function FirstState(c: Call): SendState {
    if c.delay != 0 then Scheduled else if c.first.WouldBlock? then WaitReady else SendNow
  }

  predicate Queued(c: Call) {
    MustQueue(c) && c.tv.Some? && c.memory
  }

  /** The history that the call adds for its packet. */
  function Recorded(id: nat, c: Call): seq<Event> {
    (if c.delay == 0 then [Attempt(id, c.sock, c.len, c.called, c.called, c.first)] else [])
    + (if MustQueue(c) && !Queued(c) then [Dropped(id)] else [])
  }

  function NewPacket(id: nat, c: Call): Packet
    requires Queued(c)
  {
    Packet(id, SendTime(c.tv.value, c.delay), FirstState(c), c.sock, c.len, Micros(c.tv.value) + c.delay * 1000)
  }

  /** sendto_schedule2() */
  function Schedule(q: Queue, c: Call): Queue {
    if Queued(c) then Queue([NewPacket(q.calls, c)] + q.list, q.calls + 1, Micros(c.tv.value), q.log + Recorded(q.calls, c))
    else Queue(q.list, q.calls + 1, c.called, q.log + Recorded(q.calls, c))
  }

  function MarkDue(p: Packet, now: Timeval): Packet {
    if p.state != WaitReady && !Before(now, p.ts) then p.(state := SendNow) else p
  }

  /** What get_sendto_fds() leaves. */
  function Marked(list: seq<Packet>, now: Timeval): (r: seq<Packet>)
    ensures |r| == |list| && forall i | 0 <= i < |list| :: r[i] == MarkDue(list[i], now)
  {
    if list == [] then [] else [MarkDue(list[0], now)] + Marked(list[1..], now)
  }

  /** Counted by get_sendto_fds(): waiting for its socket, or due. */
  predicate Countable(p: Packet, now: Timeval) {
    p.state == WaitReady || !Before(now, p.ts)
  }

  function CountCountable(list: seq<Packet>, now: Timeval): nat {
    if list == [] then 0
    else CountCountable(list[..|list| - 1], now) + if Countable(list[|list| - 1], now) then 1 else 0
  }

  /** The sockets that packets wait for. */
  function Waiting(list: seq<Packet>): set<nat> {
    set p | p in list && p.state == WaitReady :: p.sock
  }

  predicate Ready(p: Packet, writable: set<nat>) {
    p.state == SendNow || (p.state == WaitReady && p.sock in writable)
  }

  /** What one turn of try_sendto() leaves of a packet, and what it records. */
  function TryOne(p: Packet, writable: set<nat>, answer: nat -> Outcome): seq<Packet> {
    if !Ready(p, writable) then [p]
    else match answer(p.id)
      case Interrupted => [p.(state := SendNow)]
      case WouldBlock => [p.(state := WaitReady)]
      case Sent(_) => []
      case Failed => []
  }

  function Tried(list: seq<Packet>, writable: set<nat>, answer: nat -> Outcome): seq<Packet> {
    if list == [] then [] else TryOne(list[0], writable, answer) + Tried(list[1..], writable, answer)
  }

  function AttemptOne(p: Packet, writable: set<nat>, answer: nat -> Outcome, at: int): seq<Event> {
    if Ready(p, writable) then [Attempt(p.id, p.sock, p.len, p.due, at, answer(p.id))] else []
  }

  function Attempts(list: seq<Packet>, writable: set<nat>, answer: nat -> Outcome, at: int): seq<Event> {
    if list == [] then [] else AttemptOne(list[0], writable, answer, at) + Attempts(list[1..], writable, answer, at)
  }

  /** What sendto_schedule2(), get_sendto_fds() and try_sendto() are called with, and time passing. */
  datatype Step =
    | DoSchedule(call: Call)
    | DoMark(now: Timeval)
    | DoTry(at: int, writable: set<nat>, answer: nat -> Outcome)
    | Wait(at: int)

  /** The clock does not run backwards; get_sendto_fds() may be given an earlier reading of it. */
  predicate Possible(q: Queue, s: Step) {
    match s
    case DoSchedule(c) => q.clock <= c.called && (c.tv.Some? ==> Normal(c.tv.value) && c.called <= Micros(c.tv.value))
    case DoMark(now) => Normal(now) && Micros(now) <= q.clock
    case DoTry(at, _, _) => q.clock <= at
    case Wait(at) => q.clock <= at
  }

  function Next(q: Queue, s: Step): Queue {
    match s
    case DoSchedule(c) => Schedule(q, c)
    case DoMark(now) => q.(list := Marked(q.list, now))
    case DoTry(at, writable, answer) =>
      Queue(Tried(q.list, writable, answer), q.calls, at, q.log + Attempts(q.list, writable, answer, at))
    case Wait(at) => q.(clock := at)
  }

  // ---- exact time in spite of tv_usec == 1000000 ----

  /** The time stored is exact, but it is not always normal. */
  lemma SendTimeIsExact(tv: Timeval, delay: U32)
    requires Normal(tv)
    ensures Micros(SendTime(tv, delay)) == Micros(tv) + delay * 1000
    ensures 0 <= SendTime(tv, delay).usec <= 1000000
    ensures Normal(SendTime(tv, delay)) <==> tv.usec + delay % 1000 * 1000 != 1000000
  {
    assert delay == delay / 1000 * 1000 + delay % 1000;
  }

  /** Comparing field by field agrees with exact time as long as one side is normal. */
  lemma BeforeIsExact(a: Timeval, b: Timeval)
    requires Normal(a) && 0 <= b.usec <= 1000000
    ensures Before(a, b) <==> Micros(a) < Micros(b)
  {}

  lemma NotBeforeIsExact(a: Timeval, b: Timeval)
    requires 0 <= a.usec <= 1000000 && 0 <= b.usec <= 1000000
    ensures !Before(b, a) ==> Micros(a) <= Micros(b)
  {}

  // ---- what every step keeps ----

  ghost predicate Distinct(list: seq<Packet>) {
    forall i, j | 0 <= i < j < |list| :: list[i].id != list[j].id
  }

  ghost predicate Listed(list: seq<Packet>, id: nat) {
    exists p :: p in list && p.id == id
  }

  ghost predicate Ended(log: seq<Event>, id: nat) {
    exists e :: e in log && e.id == id && Ends(e)
  }

  /** A packet's stored time is its due time, and only a packet that is due has left the state Scheduled. */
  predicate Timed(p: Packet, clock: int) {
    Micros(p.ts) == p.due && 0 <= p.ts.usec <= 1000000 && (p.state != Scheduled ==> p.due <= clock)
  }

  /** Packets in the queue are exactly those given to the module whose history has not ended, each once. */
  ghost predicate Accounted(q: Queue) {
    && Distinct(q.list)
    && (forall p | p in q.list :: p.id < q.calls)
    && (forall id: nat | id < q.calls :: Listed(q.list, id) <==> !Ended(q.log, id))
    && (forall e | e in q.log :: e.id < q.calls)
  }

  /** Nothing happens to a packet after its history has ended. */
  ghost predicate EndsOnce(log: seq<Event>) {
    forall i, j | 0 <= i < j < |log| && Ends(log[i]) :: log[i].id != log[j].id
  }

  /** No packet was given to the socket before it was due. */
  ghost predicate NeverEarly(log: seq<Event>) {
    forall e | e in log && e.Attempt? :: e.due <= e.at
  }

  ghost predicate Good(q: Queue) {
    && Accounted(q)
    && EndsOnce(q.log)
    && NeverEarly(q.log)
    && (forall p | p in q.list :: Timed(p, q.clock))
  }

  /** What becomes of packet `p` is decided by this attempt. */
  predicate Leaves(p: Packet, writable: set<nat>, answer: nat -> Outcome) {
    Ready(p, writable) && Final(answer(p.id))
  }

  /** The same packet, possibly in another state. */
  predicate SamePacket(p: Packet, r: Packet) {
    r == p.(state := r.state)
  }

  /** The state diagram of the source. */
  predicate Edge(a: SendState, b: SendState) {
    a == b || (a.Scheduled? && b.SendNow?) || (a.SendNow? && b.WaitReady?) || (a.WaitReady? && b.SendNow?)
  }

  lemma {:induction false} TriedFrom(list: seq<Packet>, writable: set<nat>, answer: nat -> Outcome, r: Packet)
    requires r in Tried(list, writable, answer)
    ensures exists p :: p in list && SamePacket(p, r) && !Leaves(p, writable, answer)
                     && if Ready(p, writable) then r.state != Scheduled && Edge(p.state, r.state) else r == p
  {
    if r in TryOne(list[0], writable, answer) {
      var p := list[0];
      assert p in list && SamePacket(p, r);
    } else {
      TriedFrom(list[1..], writable, answer, r);
    }
  }

  lemma {:induction false} TriedKeeps(list: seq<Packet>, writable: set<nat>, answer: nat -> Outcome, p: Packet)
    requires p in list && !Leaves(p, writable, answer)
    ensures Listed(Tried(list, writable, answer), p.id)
  {
    if p == list[0] {
      var r := TryOne(p, writable, answer)[0];
      assert r in Tried(list, writable, answer) && r.id == p.id;
    } else {
      TriedKeeps(list[1..], writable, answer, p);
    }
  }

  lemma {:induction false} AttemptsFrom(list: seq<Packet>, writable: set<nat>, answer: nat -> Outcome, at: int, e: Event)
    requires e in Attempts(list, writable, answer, at)
    ensures exists p :: p in list && Ready(p, writable) && e == Attempt(p.id, p.sock, p.len, p.due, at, answer(p.id))
  {
    if e in AttemptOne(list[0], writable, answer, at) {
      assert list[0] in list;
    } else {
      AttemptsFrom(list[1..], writable, answer, at, e);
    }
  }

  lemma {:induction false} AttemptsHave(list: seq<Packet>, writable: set<nat>, answer: nat -> Outcome, at: int, p: Packet)
    requires p in list && Ready(p, writable)
    ensures Attempt(p.id, p.sock, p.len, p.due, at, answer(p.id)) in Attempts(list, writable, answer, at)
  {
    if p != list[0] {
      AttemptsHave(list[1..], writable, answer, at, p);
    }
  }

  ghost predicate DistinctEvents(log: seq<Event>) {
    forall i, j | 0 <= i < j < |log| :: log[i].id != log[j].id
  }

  lemma {:induction false} TriedDistinct(list: seq<Packet>, writable: set<nat>, answer: nat -> Outcome, at: int)
    requires Distinct(list)
    ensures Distinct(Tried(list, writable, answer))
    ensures DistinctEvents(Attempts(list, writable, answer, at))
  {
    if list != [] {
      var p, rest := list[0], list[1..];
      assert Distinct(rest);
      TriedDistinct(rest, writable, answer, at);
      var t, a := Tried(rest, writable, answer), Attempts(rest, writable, answer, at);
      forall i | 0 <= i < |t| ensures t[i].id != p.id {
        TriedFrom(rest, writable, answer, t[i]);
      }
      forall i | 0 <= i < |a| ensures a[i].id != p.id {
        AttemptsFrom(rest, writable, answer, at, a[i]);
      }
      assert |TryOne(p, writable, answer)| <= 1 && forall r | r in TryOne(p, writable, answer) :: r.id == p.id;
      assert |AttemptOne(p, writable, answer, at)| <= 1;
    }
  }

  /** A packet that left the queue had its history ended by this step, and only such a packet. */
  lemma SameIdSamePacket(q: Queue)
    requires Accounted(q)
    ensures forall p, p' | p in q.list && p' in q.list && p.id == p'.id :: p == p'
  {}

  lemma TriedAccounted(q: Queue, writable: set<nat>, answer: nat -> Outcome, at: int, id: nat)
    requires Accounted(q) && id < q.calls
    ensures Listed(Tried(q.list, writable, answer), id)
       <==> !Ended(q.log + Attempts(q.list, writable, answer, at), id)
  {
    hide Ready, Final, Tried, Attempts, Distinct;
    SameIdSamePacket(q);
    var list, more := Tried(q.list, writable, answer), Attempts(q.list, writable, answer, at);
    if Listed(list, id) {
      var r :| r in list && r.id == id;
      TriedFrom(q.list, writable, answer, r);
      var p :| p in q.list && SamePacket(p, r) && !Leaves(p, writable, answer);
      assert Listed(q.list, id);
      forall e | e in more && e.id == id ensures !Ends(e) {
        AttemptsFrom(q.list, writable, answer, at, e);
        var p' :| p' in q.list && Ready(p', writable) && e == Attempt(p'.id, p'.sock, p'.len, p'.due, at, answer(p'.id));
        assert p' == p;
      }
    } else if Listed(q.list, id) {
      var p :| p in q.list && p.id == id;
      if !Leaves(p, writable, answer) {
        TriedKeeps(q.list, writable, answer, p);
        assert false;
      }
      AttemptsHave(q.list, writable, answer, at, p);
      var e := Attempt(p.id, p.sock, p.len, p.due, at, answer(p.id));
      assert e in q.log + more && Ends(e);
    } else {
      var e :| e in q.log && e.id == id && Ends(e);
      assert e in q.log + more;
    }
  }

  lemma TryKeepsAccounted(q: Queue, at: int, writable: set<nat>, answer: nat -> Outcome)
    requires Accounted(q)
    ensures Accounted(Next(q, DoTry(at, writable, answer)))
  {
    hide Listed, Ended, Ready;
    var q' := Next(q, DoTry(at, writable, answer));
    TriedDistinct(q.list, writable, answer, at);
    forall r | r in q'.list ensures r.id < q.calls {
      TriedFrom(q.list, writable, answer, r);
    }
    forall id: nat | id < q.calls ensures Listed(q'.list, id) <==> !Ended(q'.log, id) {
      TriedAccounted(q, writable, answer, at, id);
    }
    forall e | e in q'.log ensures e.id < q.calls {
      if e !in q.log {
        AttemptsFrom(q.list, writable, answer, at, e);
      }
    }
  }

  lemma EndsOnceAppend(log: seq<Event>, more: seq<Event>)
    requires EndsOnce(log) && EndsOnce(more)
    requires forall e | e in more :: !Ended(log, e.id)
    ensures EndsOnce(log + more)
  {
    var all := log + more;
    forall i, j | 0 <= i < j < |all| && Ends(all[i]) ensures all[i].id != all[j].id {
      if i < |log| <= j {
        assert all[j] in more && all[i] in log;
      }
    }
  }

  lemma TryKeepsHistory(q: Queue, at: int, writable: set<nat>, answer: nat -> Outcome)
    requires Good(q) && q.clock <= at
    ensures EndsOnce(Next(q, DoTry(at, writable, answer)).log)
    ensures NeverEarly(Next(q, DoTry(at, writable, answer)).log)
  {
    var more := Attempts(q.list, writable, answer, at);
    TriedDistinct(q.list, writable, answer, at);
    forall e | e in more ensures e.Attempt? && e.due <= e.at && !Ended(q.log, e.id) {
      AttemptsFrom(q.list, writable, answer, at, e);
      var p :| p in q.list && Ready(p, writable) && e == Attempt(p.id, p.sock, p.len, p.due, at, answer(p.id));
      assert Timed(p, q.clock) && Listed(q.list, p.id);
    }
    EndsOnceAppend(q.log, more);
  }

  lemma TryKeeps(q: Queue, at: int, writable: set<nat>, answer: nat -> Outcome)
    requires Good(q) && q.clock <= at
    ensures Good(Next(q, DoTry(at, writable, answer)))
  {
    TryKeepsAccounted(q, at, writable, answer);
    TryKeepsHistory(q, at, writable, answer);
    forall r | r in Tried(q.list, writable, answer) ensures Timed(r, at) {
      TriedFrom(q.list, writable, answer, r);
      var p :| p in q.list && SamePacket(p, r) && !Leaves(p, writable, answer)
            && if Ready(p, writable) then r.state != Scheduled && Edge(p.state, r.state) else r == p;
      assert Timed(p, q.clock);
    }
  }

  lemma MarkedListed(list: seq<Packet>, now: Timeval, id: nat)
    ensures Listed(Marked(list, now), id) <==> Listed(list, id)
  {
    if Listed(list, id) {
      var i :| 0 <= i < |list| && list[i].id == id;
      assert Marked(list, now)[i] in Marked(list, now);
    }
    if Listed(Marked(list, now), id) {
      var i :| 0 <= i < |list| && Marked(list, now)[i].id == id;
      assert list[i] in list;
    }
  }

  lemma MarkKeeps(q: Queue, now: Timeval)
    requires Good(q) && Normal(now) && Micros(now) <= q.clock
    ensures Good(Next(q, DoMark(now)))
  {
    hide Marked, Listed, Ended, EndsOnce, NeverEarly;
    var list := Marked(q.list, now);
    forall i | 0 <= i < |list| ensures Timed(list[i], q.clock) && list[i].id < q.calls {
      assert q.list[i] in q.list;
      BeforeIsExact(now, q.list[i].ts);
    }
    forall id: nat ensures Listed(list, id) <==> Listed(q.list, id) {
      MarkedListed(q.list, now, id);
    }
  }

  /** What is recorded for a new packet. */
  lemma RecordedIs(id: nat, c: Call)
    ensures var tried, dropped := Attempt(id, c.sock, c.len, c.called, c.called, c.first), Dropped(id);
            Recorded(id, c) == if c.delay == 0 then (if MustQueue(c) && !Queued(c) then [tried, dropped] else [tried])
                               else if Queued(c) then [] else [dropped]
  {}

  /** The history of a new packet ends at once, or the packet is queued. */
  lemma RecordedEnds(id: nat, c: Call)
    ensures forall e | e in Recorded(id, c) :: e.id == id && (e.Attempt? ==> e.due == e.at)
    ensures EndsOnce(Recorded(id, c))
    ensures Ended(Recorded(id, c), id) <==> !Queued(c)
  {
    hide Recorded;
    RecordedIs(id, c);
    var r := Recorded(id, c);
    if r != [] {
      assert r[0] in r && r[|r| - 1] in r;
    }
  }

  lemma CountsOne(e: Event)
    ensures CountSent([e]) == if e.Attempt? && e.outcome.Sent? then 1 else 0
    ensures CountLost([e]) == if e.Dropped? || e.outcome.Failed? then 1 else 0
  {
    assert [e][1..] == [];
  }

  lemma RecordedCounts(id: nat, c: Call)
    ensures CountSent(Recorded(id, c)) + CountLost(Recorded(id, c)) == if Queued(c) then 0 else 1
  {
    hide Recorded;
    RecordedIs(id, c);
    var r := Recorded(id, c);
    if |r| == 2 {
      assert r == [r[0]] + [r[1]];
      CountsAdd([r[0]], [r[1]]);
      CountsOne(r[0]);
      CountsOne(r[1]);
    } else if |r| == 1 {
      CountsOne(r[0]);
    }
  }

  lemma ScheduleKeepsHistory(q: Queue, c: Call)
    requires Good(q)
    ensures EndsOnce(Schedule(q, c).log) && NeverEarly(Schedule(q, c).log)
  {
    hide Recorded;
    var more := Recorded(q.calls, c);
    RecordedEnds(q.calls, c);
    EndsOnceAppend(q.log, more);
  }

  lemma ScheduleKeepsAccounted(q: Queue, c: Call)
    requires Accounted(q)
    ensures Accounted(Schedule(q, c))
  {
    hide Recorded, NewPacket, SendTime;
    var q' := Schedule(q, c);
    var more := Recorded(q.calls, c);
    RecordedEnds(q.calls, c);
    NewPacketIs(q.calls, c);
    forall id: nat | id < q'.calls ensures Listed(q'.list, id) <==> !Ended(q'.log, id) {
      ListedAfter(q, c, id);
      if Ended(q.log, id) {
        var e :| e in q.log && e.id == id && Ends(e);
        assert e in q'.log;
      } else if Ended(more, id) {
        var e :| e in more && e.id == id && Ends(e);
        assert e in q'.log;
      }
    }
  }

  lemma NewPacketIs(id: nat, c: Call)
    ensures Queued(c) ==> NewPacket(id, c).id == id
  {}

  lemma ListedAfter(q: Queue, c: Call, id: nat)
    requires Accounted(q) && id <= q.calls
    ensures Listed(Schedule(q, c).list, id) <==> (Queued(c) && id == q.calls) || Listed(q.list, id)
  {
    hide Recorded, NewPacket, SendTime;
    NewPacketIs(q.calls, c);
    var list := Schedule(q, c).list;
    if Queued(c) {
      assert list[0].id == q.calls && list[0] in list;
      if Listed(q.list, id) {
        var p :| p in q.list && p.id == id;
        assert p in list;
      }
    }
  }

  lemma ScheduleKeeps(q: Queue, c: Call)
    requires Good(q) && Possible(q, DoSchedule(c))
    ensures Good(Schedule(q, c))
  {
    ScheduleKeepsHistory(q, c);
    ScheduleKeepsAccounted(q, c);
    hide Accounted, EndsOnce, NeverEarly, Recorded;
    if Queued(c) {
      SendTimeIsExact(c.tv.value, c.delay);
    }
  }

  /** Every step keeps the queue good. */
  lemma StepKeeps(q: Queue, s: Step)
    requires Good(q) && Possible(q, s)
    ensures Good(Next(q, s))
  {
    match s
    case DoSchedule(c) => ScheduleKeeps(q, c);
    case DoMark(now) => MarkKeeps(q, now);
    case DoTry(at, writable, answer) => TryKeeps(q, at, writable, answer);
    case Wait(at) =>
  }

  // ---- whole runs ----

  const EMPTY := Queue([], 0, 0, [])

  function After(steps: seq<Step>): Queue {
    if steps == [] then EMPTY else Next(After(steps[..|steps| - 1]), steps[|steps| - 1])
  }

  /** A run in which the clock does not run backwards. */
  predicate Run(steps: seq<Step>) {
    steps == [] || (Run(steps[..|steps| - 1]) && Possible(After(steps[..|steps| - 1]), steps[|steps| - 1]))
  }

  /** In every run no packet is given to the socket before its time, no packet is given to it again once it
      was sent or has failed, and the queue holds exactly the packets whose history has not ended. */
  lemma {:induction false} RunsAreGood(steps: seq<Step>)
    requires Run(steps)
    ensures Good(After(steps))
  {
    if steps != [] {
      RunsAreGood(steps[..|steps| - 1]);
      StepKeeps(After(steps[..|steps| - 1]), steps[|steps| - 1]);
    }
  }

  function CountSent(log: seq<Event>): nat {
    if log == [] then 0
    else CountSent(log[1..]) + if log[0].Attempt? && log[0].outcome.Sent? then 1 else 0
  }

  function CountLost(log: seq<Event>): nat {
    if log == [] then 0
    else CountLost(log[1..]) + if log[0].Dropped? || log[0].outcome.Failed? then 1 else 0
  }

  lemma {:induction false} CountsAdd(a: seq<Event>, b: seq<Event>)
    ensures CountSent(a + b) == CountSent(a) + CountSent(b)
    ensures CountLost(a + b) == CountLost(a) + CountLost(b)
  {
    if a == [] {
      assert a + b == b;
    } else {
      assert (a + b)[1..] == a[1..] + b;
      CountsAdd(a[1..], b);
    }
  }

  lemma {:induction false} TryCounts(list: seq<Packet>, writable: set<nat>, answer: nat -> Outcome, at: int)
    ensures var log := Attempts(list, writable, answer, at);
            |Tried(list, writable, answer)| + CountSent(log) + CountLost(log) == |list|
  {
    if list != [] {
      TryCounts(list[1..], writable, answer, at);
      CountsAdd(AttemptOne(list[0], writable, answer, at), Attempts(list[1..], writable, answer, at));
    }
  }

  /** Conservation: what is queued is what was accepted less what was sent and what failed. */
  lemma {:induction false} QueuedIsAcceptedLessEnded(steps: seq<Step>)
    ensures |After(steps).list| == After(steps).calls - CountSent(After(steps).log) - CountLost(After(steps).log)
  {
    hide Next, CountSent, CountLost;
    if steps == [] {
      NothingCounted();
    } else {
      QueuedIsAcceptedLessEnded(steps[..|steps| - 1]);
      StepCounts(After(steps[..|steps| - 1]), steps[|steps| - 1]);
    }
  }

  lemma NothingCounted()
    ensures CountSent([]) == 0 && CountLost([]) == 0
  {}

  lemma StepCounts(q: Queue, s: Step)
    ensures var q' := Next(q, s);
            q'.calls - |q'.list| - CountSent(q'.log) - CountLost(q'.log) == q.calls - |q.list| - CountSent(q.log) - CountLost(q.log)
  {
    hide Recorded, Tried, Attempts, CountSent, CountLost, NewPacket;
    match s
    case DoSchedule(c) =>
      RecordedCounts(q.calls, c);
      CountsAdd(q.log, Recorded(q.calls, c));
    case DoMark(now) =>
    case DoTry(at, writable, answer) =>
      TryCounts(q.list, writable, answer, at);
      CountsAdd(q.log, Attempts(q.list, writable, answer, at));
    case Wait(at) =>
  }

  /** A packet in the queue after a step is new, or was in the queue and moved along an edge of the state diagram. */
  lemma StatesFollowDiagram(q: Queue, s: Step, r: Packet)
    requires r in Next(q, s).list
    ensures (r.id == q.calls && s.DoSchedule?)
         || exists p :: p in q.list && SamePacket(p, r) && Edge(p.state, r.state)
  {
    match s
    case DoSchedule(c) =>
      if r in q.list {
        assert SamePacket(r, r) && Edge(r.state, r.state);
      }
    case DoMark(now) =>
      var i :| 0 <= i < |q.list| && Marked(q.list, now)[i] == r;
      assert q.list[i] in q.list && SamePacket(q.list[i], r) && Edge(q.list[i].state, r.state);
    case DoTry(at, writable, answer) =>
      TriedFrom(q.list, writable, answer, r);
    case Wait(at) =>
      assert SamePacket(r, r) && Edge(r.state, r.state);
  }

  // ---- the packet that was given is the packet that is sent ----

  /** The calls of sendto_schedule2() in a run. */
  function CallsOf(steps: seq<Step>): seq<Call> {
    if steps == [] then []
    else
      var last := steps[|steps| - 1];
      CallsOf(steps[..|steps| - 1]) + if last.DoSchedule? then [last.call] else []
  }

  /** The socket and length are those of the call. */
  predicate OfCall(id: nat, sock: nat, len: nat, calls: seq<Call>) {
    id < |calls| && sock == calls[id].sock && len == calls[id].len
  }

  ghost predicate Delivers(q: Queue, calls: seq<Call>) {
    && q.calls == |calls|
    && (forall p | p in q.list ::
          && OfCall(p.id, p.sock, p.len, calls)
          && calls[p.id].tv.Some? && p.due == Micros(calls[p.id].tv.value) + calls[p.id].delay * 1000)
    && (forall e | e in q.log && e.Attempt? :: OfCall(e.id, e.sock, e.len, calls))
  }

  lemma StepDelivers(q: Queue, calls: seq<Call>, s: Step)
    requires Delivers(q, calls)
    ensures Delivers(Next(q, s), calls + if s.DoSchedule? then [s.call] else [])
  {
    match s
    case DoSchedule(c) =>
      var more := Recorded(q.calls, c);
      assert forall e | e in more && e.Attempt? :: e.id == q.calls && e.sock == c.sock && e.len == c.len;
    case DoMark(now) =>
      forall r | r in Marked(q.list, now)
        ensures OfCall(r.id, r.sock, r.len, calls)
             && calls[r.id].tv.Some? && r.due == Micros(calls[r.id].tv.value) + calls[r.id].delay * 1000
      {
        var i :| 0 <= i < |q.list| && Marked(q.list, now)[i] == r;
        assert q.list[i] in q.list;
      }
    case DoTry(at, writable, answer) =>
      forall r | r in Tried(q.list, writable, answer)
        ensures OfCall(r.id, r.sock, r.len, calls)
             && calls[r.id].tv.Some? && r.due == Micros(calls[r.id].tv.value) + calls[r.id].delay * 1000
      {
        TriedFrom(q.list, writable, answer, r);
      }
      forall e | e in Attempts(q.list, writable, answer, at) ensures e.Attempt? && OfCall(e.id, e.sock, e.len, calls) {
        AttemptsFrom(q.list, writable, answer, at, e);
      }
    case Wait(at) =>
  }

  /** In every run each packet, in the queue or given to a socket, goes to the socket it was scheduled for,
      with its own length, and is due its own delay after the clock was read. */
  lemma {:induction false} RunsDeliver(steps: seq<Step>)
    ensures Delivers(After(steps), CallsOf(steps))
  {
    if steps != [] {
      var front := steps[..|steps| - 1];
      RunsDeliver(front);
      StepDelivers(After(front), CallsOf(front), steps[|steps| - 1]);
    }
  }

  // ---- what the state of a packet says ----

  /** What the socket answered when the packet was last given to it. */
  function LastOutcome(log: seq<Event>, id: nat): Option<Outcome> {
    if log == [] then None
    else
      var e := log[|log| - 1];
      if e.Attempt? && e.id == id then Some(e.outcome) else LastOutcome(log[..|log| - 1], id)
  }

  lemma {:induction false} LastOutcomeAppend(log: seq<Event>, more: seq<Event>, id: nat)
    ensures LastOutcome(log + more, id) == if LastOutcome(more, id).Some? then LastOutcome(more, id) else LastOutcome(log, id)
    decreases |more|
  {
    if more == [] {
      assert log + more == log;
    } else {
      assert (log + more)[..|log + more| - 1] == log + more[..|more| - 1];
      LastOutcomeAppend(log, more[..|more| - 1], id);
    }
  }

  lemma {:induction false} LastOutcomeNone(log: seq<Event>, id: nat)
    requires forall e | e in log :: e.id != id
    ensures LastOutcome(log, id) == None
  {
    if log != [] {
      LastOutcomeNone(log[..|log| - 1], id);
    }
  }

  lemma LastOutcomeOne(e: Event)
    ensures LastOutcome([e], e.id) == if e.Attempt? then Some(e.outcome) else None
  {
    assert [e][..0] == [];
  }

  lemma {:induction false} AttemptsOutcome(list: seq<Packet>, writable: set<nat>, answer: nat -> Outcome, at: int, p: Packet)
    requires Distinct(list) && p in list
    ensures LastOutcome(Attempts(list, writable, answer, at), p.id) == if Ready(p, writable) then Some(answer(p.id)) else None
  {
    hide LastOutcome, Ready;
    var one, more := AttemptOne(list[0], writable, answer, at), Attempts(list[1..], writable, answer, at);
    LastOutcomeAppend(one, more, p.id);
    forall e | e in more ensures exists x :: x in list[1..] && e.id == x.id {
      AttemptsFrom(list[1..], writable, answer, at, e);
    }
    if p == list[0] {
      LastOutcomeNone(more, p.id);
      if Ready(p, writable) {
        LastOutcomeOne(one[0]);
      } else {
        LastOutcomeNone(one, p.id);
      }
    } else {
      var i :| 0 < i < |list| && list[i] == p;
      assert list[1..][i - 1] == p;
      AttemptsOutcome(list[1..], writable, answer, at, p);
      LastOutcomeNone(one, p.id);
    }
  }

  /** A packet waits for its socket exactly if its last attempt would have blocked, and as long as it is only
      scheduled there was none. */
  predicate StateTells(p: Packet, log: seq<Event>) {
    var last := LastOutcome(log, p.id);
    (p.state == WaitReady <==> last == Some(WouldBlock)) && (p.state == Scheduled ==> last == None)
  }

  lemma {:induction false} TriedIsTry(list: seq<Packet>, writable: set<nat>, answer: nat -> Outcome, r: Packet)
    requires r in Tried(list, writable, answer)
    ensures exists p :: p in list && r in TryOne(p, writable, answer)
  {
    if r !in TryOne(list[0], writable, answer) {
      TriedIsTry(list[1..], writable, answer, r);
    }
  }

  lemma ScheduleTells(q: Queue, c: Call, p: Packet)
    requires Accounted(q) && (forall x | x in q.list :: StateTells(x, q.log)) && p in Schedule(q, c).list
    ensures StateTells(p, Schedule(q, c).log)
  {
    hide LastOutcome, Accounted, Recorded, NewPacket;
    AccountedIs(q);
    RecordedEnds(q.calls, c);
    LastOutcomeAppend(q.log, Recorded(q.calls, c), p.id);
    if p in q.list {
      LastOutcomeNone(Recorded(q.calls, c), p.id);
    } else {
      NewPacketTells(q.log, q.calls, c);
    }
  }

  lemma MarkTells(q: Queue, now: Timeval, r: Packet)
    requires (forall x | x in q.list :: StateTells(x, q.log)) && r in Marked(q.list, now)
    ensures StateTells(r, q.log)
  {
    hide LastOutcome;
    var i :| 0 <= i < |q.list| && Marked(q.list, now)[i] == r;
    assert q.list[i] in q.list;
  }

  lemma TryTells(q: Queue, at: int, writable: set<nat>, answer: nat -> Outcome, r: Packet)
    requires Accounted(q) && (forall x | x in q.list :: StateTells(x, q.log)) && r in Tried(q.list, writable, answer)
    ensures StateTells(r, q.log + Attempts(q.list, writable, answer, at))
  {
    hide LastOutcome, Accounted, Tried, Attempts;
    AccountedIs(q);
    TriedIsTry(q.list, writable, answer, r);
    var p :| p in q.list && r in TryOne(p, writable, answer);
    assert r.id == p.id;
    AttemptsOutcome(q.list, writable, answer, at, p);
    LastOutcomeAppend(q.log, Attempts(q.list, writable, answer, at), p.id);
  }

  lemma StatesTellStep(q: Queue, s: Step)
    requires Accounted(q) && forall p | p in q.list :: StateTells(p, q.log)
    ensures forall p | p in Next(q, s).list :: StateTells(p, Next(q, s).log)
  {
    hide StateTells, Accounted, Tried, Attempts, Schedule;
    forall r | r in Next(q, s).list ensures StateTells(r, Next(q, s).log) {
      match s
      case DoSchedule(c) => ScheduleTells(q, c, r);
      case DoMark(now) => MarkTells(q, now, r);
      case DoTry(at, writable, answer) => TryTells(q, at, writable, answer, r);
      case Wait(at) =>
    }
  }

  lemma AccountedIs(q: Queue)
    requires Accounted(q)
    ensures Distinct(q.list) && (forall p | p in q.list :: p.id < q.calls) && forall e | e in q.log :: e.id < q.calls
  {}

  lemma NewPacketTells(log: seq<Event>, id: nat, c: Call)
    requires Queued(c) && forall e | e in log :: e.id < id
    ensures StateTells(NewPacket(id, c), log + Recorded(id, c))
  {
    var e := Attempt(id, c.sock, c.len, c.called, c.called, c.first);
    LastOutcomeAppend(log, Recorded(id, c), id);
    LastOutcomeNone(log, id);
    if c.delay == 0 {
      assert Recorded(id, c) == [e];
      LastOutcomeOne(e);
    } else {
      LastOutcomeNone([], id);
    }
  }

  lemma {:induction false} StatesTell(steps: seq<Step>)
    requires Run(steps)
    ensures forall p | p in After(steps).list :: StateTells(p, After(steps).log)
  {
    if steps != [] {
      var front := steps[..|steps| - 1];
      StatesTell(front);
      RunsAreGood(front);
      StatesTellStep(After(front), steps[|steps| - 1]);
    }
  }

  /** The sockets that get_sendto_fds() asks select() to watch are exactly those of the packets whose last
      attempt would have blocked. */
  lemma WatchedAreBlocked(steps: seq<Step>, sock: nat)
    requires Run(steps)
    ensures sock in Waiting(After(steps).list) <==>
            exists p :: p in After(steps).list && p.sock == sock && LastOutcome(After(steps).log, p.id) == Some(WouldBlock)
  {
    hide After, LastOutcome, Run;
    StatesTell(steps);
    forall p | p in After(steps).list ensures StateTells(p, After(steps).log) {}
  }

  lemma MarkedIsReady(p: Packet, clock: int, now: Timeval, writable: set<nat>)
    requires Timed(p, clock) && Normal(now)
    ensures Ready(MarkDue(p, now), writable)
       <==> if p.state == WaitReady then p.sock in writable else p.state == SendNow || p.due <= Micros(now)
  {
    BeforeIsExact(now, p.ts);
  }

  lemma AttemptIff(list: seq<Packet>, writable: set<nat>, answer: nat -> Outcome, at: int, p: Packet)
    requires Distinct(list) && p in list
    ensures (exists e :: e in Attempts(list, writable, answer, at) && e.id == p.id && e.Attempt?) <==> Ready(p, writable)
  {
    hide Ready, Attempts;
    var more := Attempts(list, writable, answer, at);
    if Ready(p, writable) {
      AttemptsHave(list, writable, answer, at, p);
      assert Attempt(p.id, p.sock, p.len, p.due, at, answer(p.id)) in more;
    }
    forall e | e in more && e.id == p.id ensures Ready(p, writable) {
      AttemptsFrom(list, writable, answer, at, e);
      var x :| x in list && Ready(x, writable) && e.id == x.id;
      assert x == p;
    }
  }

  /** A packet is given to its socket in the next round, that is by get_sendto_fds() and then try_sendto(),
      exactly if it waits for the socket and that can be written to, or does not wait for it and is due by the
      time that get_sendto_fds() was given, or had become due before. */
  lemma DueIsTried(q: Queue, p: Packet, now: Timeval, at: int, writable: set<nat>, answer: nat -> Outcome)
    requires Good(q) && p in q.list && Normal(now)
    ensures var after := Next(Next(q, DoMark(now)), DoTry(at, writable, answer));
            (exists e :: e in after.log[|q.log|..] && e.id == p.id && e.Attempt?)
            <==> if p.state == WaitReady then p.sock in writable else p.state == SendNow || p.due <= Micros(now)
  {
    hide Attempts, Ready, MarkDue, Listed, Ended, EndsOnce, NeverEarly;
    var list := Marked(q.list, now);
    var i :| 0 <= i < |q.list| && q.list[i] == p;
    assert list[i] in list && Timed(p, q.clock);
    MarkedIsReady(p, q.clock, now, writable);
    MarkedDistinct(q.list, now);
    MarkedId(p, now);
    AttemptIff(list, writable, answer, at, MarkDue(p, now));
    assert Next(Next(q, DoMark(now)), DoTry(at, writable, answer)).log[|q.log|..] == Attempts(list, writable, answer, at);
  }

  lemma MarkedId(p: Packet, now: Timeval)
    ensures MarkDue(p, now).id == p.id
  {}

  lemma MarkedDistinct(list: seq<Packet>, now: Timeval)
    requires Distinct(list)
    ensures Distinct(Marked(list, now))
  {}

  // ---- the module itself ----

  class SendQueue {
    var list: seq<Packet>
    var calls: nat
    ghost var clock: int
    ghost var log: seq<Event>

    ghost function State(): Queue
      reads this
    {
      Queue(list, calls, clock, log)
    }

    constructor ()
      ensures State() == EMPTY
    {
      list, calls, clock, log := [], 0, 0, [];
    }

    /** Time passes until the clock is read again. */
    ghost method Tick(at: int)
      modifies this`clock
      ensures State() == Next(old(State()), Wait(at))
    {
      clock := at;
    }

    /** sendto_schedule2(); `first` is what sendto() answers now, `tv` what the clock reads. */
    method SendtoSchedule2(sock: nat, len: nat, delay: U32, ghost called: int, first: Outcome,
                           tv: Option<Timeval>, memory: bool) returns (n: int)
      modifies this
      ensures State() == Schedule(old(State()), Call(sock, len, delay, called, first, tv, memory))
      ensures n >= 0 <==> (delay == 0 && first.Sent?) || |list| == |old(list)| + 1
      ensures n > 0 ==> delay == 0 && first == Sent(n)
    {
      var id, state := calls, Scheduled;
      calls, clock := calls + 1, called;
      if delay == 0 {
        log := log + [Attempt(id, sock, len, called, called, first)];
        match first {
          case Sent(k) => return k;
          case WouldBlock => state := WaitReady;
          case Interrupted => state := SendNow;
          case Failed => return -1;
        }
      }
      if tv.None? {
        log := log + [Dropped(id)];
        return -1;
      }
      if !memory {
        log := log + [Dropped(id)];
        return -1;
      }
      var ts := Timeval(tv.value.sec + delay / 1000, tv.value.usec + delay % 1000 * 1000);
      if ts.usec > 1000000 {
        ts := Timeval(ts.sec + 1, ts.usec - 1000000);
      }
      clock := Micros(tv.value);
      list := [Packet(id, ts, state, sock, len, Micros(tv.value) + delay * 1000)] + list;
      return 0;
    }

    /** get_next_scheduled_send(): the number of packets, and the earliest of their times. */
    method GetNextScheduledSend() returns (n: nat, nextSend: Timeval)
      ensures n == |list|
      ensures n > 0 ==> exists p :: p in list && p.ts == nextSend
      ensures n > 0 ==> forall p | p in list :: !Before(p.ts, nextSend)
    {
      n, nextSend := 0, Timeval(0, 0);
      while n < |list|
        invariant n <= |list|
        invariant n > 0 ==> exists i :: 0 <= i < n && list[i].ts == nextSend
        invariant forall i | 0 <= i < n :: !Before(list[i].ts, nextSend)
      {
        if n == 0 || Before(list[n].ts, nextSend) {
          nextSend := list[n].ts;
        }
        n := n + 1;
      }
    }

    /** get_sendto_fds() */
    method GetSendtoFds(writefds: set<nat>, maxFd: int, now: Timeval) returns (n: nat, writefds': set<nat>, maxFd': int)
      modifies this`list
      ensures State() == Next(old(State()), DoMark(now))
      ensures n == CountCountable(old(list), now)
      ensures writefds' == writefds + Waiting(old(list))
      ensures maxFd' >= maxFd && (forall fd | fd in Waiting(old(list)) :: fd <= maxFd') && (maxFd' == maxFd || maxFd' in writefds')
    {
      hide CountCountable, Waiting, Marked;
      ghost var was := list;
      n, writefds', maxFd' := 0, writefds, maxFd;
      var i := 0;
      NothingCountable(now);
      assert was[..0] == [];
      while i < |list|
        invariant i <= |list| == |was|
        invariant list == Marked(was[..i], now) + was[i..]
        invariant n == CountCountable(was[..i], now)
        invariant writefds' == writefds + Waiting(was[..i])
        invariant maxFd' >= maxFd && (forall fd | fd in Waiting(was[..i]) :: fd <= maxFd') && (maxFd' == maxFd || maxFd' in writefds')
      {
        MarkStep(was, i, now);
        var elt := list[i];
        if elt.state == WaitReady {
          writefds' := writefds' + {elt.sock};
          if elt.sock > maxFd' {
            maxFd' := elt.sock;
          }
          n := n + 1;
        } else if elt.ts.sec < now.sec || (elt.ts.sec == now.sec && elt.ts.usec <= now.usec) {
          list := list[i := elt.(state := SendNow)];
          n := n + 1;
        }
        i := i + 1;
      }
      assert was[..i] == was;
    }

    /** One turn of the loop of try_sendto(). */
    method TryElement(i: nat, writefds: set<nat>, ghost at: int, answer: nat -> Outcome) returns (removed: bool, error: bool)
      requires i < |list|
      modifies this`list, this`log
      ensures list == old(list)[..i] + (TryOne(old(list)[i], writefds, answer) + old(list)[i + 1..])
      ensures log == old(log) + AttemptOne(old(list)[i], writefds, answer, at)
      ensures removed <==> Leaves(old(list)[i], writefds, answer)
      ensures error <==> Ready(old(list)[i], writefds) && answer(old(list)[i].id).Failed?
    {
      var elt := list[i];
      removed, error := false, false;
      if elt.state == SendNow || (elt.state == WaitReady && elt.sock in writefds) {
        log := log + [Attempt(elt.id, elt.sock, elt.len, elt.due, at, answer(elt.id))];
        match answer(elt.id) {
          case Interrupted => list := list[i := elt.(state := SendNow)];
          case WouldBlock => list := list[i := elt.(state := WaitReady)];
          case Failed =>
            list := list[..i] + list[i + 1..];
            removed, error := true, true;
          case Sent(n) =>
            list := list[..i] + list[i + 1..];
            removed := true;
        }
      }
    }

    /** try_sendto(); the socket answers packet `id` with `answer(id)`. */
    method TrySendto(writefds: set<nat>, ghost at: int, answer: nat -> Outcome) returns (ret: int)
      modifies this
      ensures State() == Next(old(State()), DoTry(at, writefds, answer))
      ensures -ret == CountLost(Attempts(old(list), writefds, answer, at))
    {
      hide Tried, Attempts, CountLost, CountSent, TryOne, AttemptOne, Leaves, Ready;
      ghost var was, log0 := list, log;
      NothingTried(writefds, answer, at);
      assert was[..0] == [];
      ret := 0;
      var i := 0;
      ghost var k := 0;
      while i < |list|
        invariant k <= |was| && i == |Tried(was[..k], writefds, answer)|
        invariant list == Tried(was[..k], writefds, answer) + was[k..]
        invariant log == log0 + Attempts(was[..k], writefds, answer, at)
        invariant -ret == CountLost(Attempts(was[..k], writefds, answer, at))
        invariant calls == old(calls)
        decreases |was| - k
      {
        TryStep(was, k, writefds, answer, at);
        assert list[i] == was[k] && list[..i] == Tried(was[..k], writefds, answer) && list[i + 1..] == was[k + 1..];
        var removed, error := TryElement(i, writefds, at, answer);
        if error {
          ret := ret - 1;
        }
        if !removed {
          i := i + 1;
        }
        k := k + 1;
      }
      assert was[..k] == was;
      clock := at;
    }
  }

  /** What one more turn of the loop does. */
  lemma TryStep(was: seq<Packet>, k: nat, writable: set<nat>, answer: nat -> Outcome, at: int)
    requires k < |was|
    ensures Tried(was[..k + 1], writable, answer) == Tried(was[..k], writable, answer) + TryOne(was[k], writable, answer)
    ensures Attempts(was[..k + 1], writable, answer, at)
         == Attempts(was[..k], writable, answer, at) + AttemptOne(was[k], writable, answer, at)
    ensures CountLost(Attempts(was[..k + 1], writable, answer, at)) == CountLost(Attempts(was[..k], writable, answer, at))
              + if Ready(was[k], writable) && answer(was[k].id).Failed? then 1 else 0
    ensures |TryOne(was[k], writable, answer)| == if Leaves(was[k], writable, answer) then 0 else 1
  {
    hide Tried, Attempts, CountLost, TryOne, AttemptOne, Leaves, Ready;
    assert was[..k + 1] == was[..k] + [was[k]];
    TriedAppend(was[..k], was[k], writable, answer, at);
    LostAppend(was[..k], was[k], writable, answer, at);
    OneOrNone(was[k], writable, answer);
  }

  lemma OneOrNone(p: Packet, writable: set<nat>, answer: nat -> Outcome)
    ensures |TryOne(p, writable, answer)| == if Leaves(p, writable, answer) then 0 else 1
  {}

  lemma {:induction false} TriedAppend(list: seq<Packet>, p: Packet, writable: set<nat>, answer: nat -> Outcome, at: int)
    ensures Tried(list + [p], writable, answer) == Tried(list, writable, answer) + TryOne(p, writable, answer)
    ensures Attempts(list + [p], writable, answer, at)
         == Attempts(list, writable, answer, at) + AttemptOne(p, writable, answer, at)
  {
    if list != [] {
      assert (list + [p])[1..] == list[1..] + [p];
      TriedAppend(list[1..], p, writable, answer, at);
    }
  }

  lemma NothingTried(writable: set<nat>, answer: nat -> Outcome, at: int)
    ensures Tried([], writable, answer) == [] && Attempts([], writable, answer, at) == [] && CountLost([]) == 0
  {}

  lemma LostAppend(list: seq<Packet>, p: Packet, writable: set<nat>, answer: nat -> Outcome, at: int)
    ensures CountLost(Attempts(list + [p], writable, answer, at))
         == CountLost(Attempts(list, writable, answer, at)) + if Ready(p, writable) && answer(p.id).Failed? then 1 else 0
  {
    hide Attempts;
    TriedAppend(list, p, writable, answer, at);
    CountsAdd(Attempts(list, writable, answer, at), AttemptOne(p, writable, answer, at));
  }

  /** The earliest time found field by field is a true minimum, even where tv_usec is 1000000. */
  lemma EarliestIsExact(q: Queue, next: Timeval, p: Packet)
    requires Good(q) && p in q.list && (forall x | x in q.list :: !Before(x.ts, next))
    requires exists x :: x in q.list && x.ts == next
    ensures Micros(next) <= p.due
  {
    var x :| x in q.list && x.ts == next;
    assert Timed(x, q.clock) && Timed(p, q.clock);
    NotBeforeIsExact(next, p.ts);
  }

  /** Once the earliest packet is due, get_sendto_fds() counts at least one packet. */
  lemma DueIsCounted(q: Queue, next: Timeval, now: Timeval)
    requires exists x :: x in q.list && x.ts == next
    requires !Before(now, next)
    ensures CountCountable(q.list, now) > 0
  {
    var x :| x in q.list && x.ts == next;
    CountedIn(q.list, now, x);
  }

  lemma {:induction false} CountedIn(list: seq<Packet>, now: Timeval, p: Packet)
    requires p in list && Countable(p, now)
    ensures CountCountable(list, now) > 0
  {
    if p != list[|list| - 1] {
      CountedIn(list[..|list| - 1], now, p);
    }
  }

  lemma NothingCountable(now: Timeval)
    ensures CountCountable([], now) == 0 && Waiting([]) == {} && Marked([], now) == []
  {}

  /** One more element of the loop of get_sendto_fds(). */
  lemma MarkStep(was: seq<Packet>, i: nat, now: Timeval)
    requires i < |was|
    ensures var list := Marked(was[..i], now) + was[i..];
            list[i] == was[i] && list[i := MarkDue(was[i], now)] == Marked(was[..i + 1], now) + was[i + 1..]
    ensures CountCountable(was[..i + 1], now) == CountCountable(was[..i], now) + if Countable(was[i], now) then 1 else 0
    ensures Waiting(was[..i + 1]) == Waiting(was[..i]) + if was[i].state == WaitReady then {was[i].sock} else {}
  {
    assert was[..i + 1][..i] == was[..i];
    assert was[..i + 1] == was[..i] + [was[i]];
  }
}
