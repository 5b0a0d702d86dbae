/** miniupnpd.c, main loop: how long select() may sleep. Three deadlines bound it: the next SSDP
    announcement, the next lease to expire and the earliest queued datagram. */
module MainLoop {
  import opened Net
  import opened MappingTable
  import opened Redirect
  import MappingRuns
  import opened AsyncSend

  const SECOND := 1000000

  // ---- the deadlines in exact microseconds ----

  predicate AnnounceDue(tod: Timeval, last: Timeval, interval: nat) {
    tod.sec >= last.sec + interval
  }

  /** Time left until the next announcement, counted from `tod`, or from the last announcement if it is not due. */
  function UntilAnnounce(tod: Timeval, last: Timeval, interval: nat): int {
    if AnnounceDue(tod, last, interval) then interval * SECOND
    else Micros(last) + interval * SECOND - Micros(tod)
  }

  /** The readings of the clock at which announcements are sent, `last` being the time of the last one before. */
  function Announced(readings: seq<Timeval>, last: Timeval, interval: nat): seq<Timeval>
    decreases |readings|
  {
    if readings == [] then []
    else if AnnounceDue(readings[0], last, interval) then
      [readings[0]] + Announced(readings[1..], readings[0], interval)
    else Announced(readings[1..], last, interval)
  }

  /** The time of the last announcement sent. */
  function LastOf(last: Timeval, sent: seq<Timeval>): Timeval {
    if sent == [] then last else sent[|sent| - 1]
  }

  /** Times that are readings of the clock, but for the first, and are at least the interval apart. */
  ghost predicate Spaced(all: seq<Timeval>, readings: seq<Timeval>, interval: nat) {
    forall i | 0 < i < |all| :: all[i] in readings && all[i].sec - all[i - 1].sec >= interval
  }

  /** However often the loop turns: two announcements are never less than the interval apart, in whole
      seconds, and after no turn is the last one that old. */
  lemma {:induction false} AnnouncementsSpaced(readings: seq<Timeval>, last: Timeval, interval: nat)
    requires interval > 0
    ensures var all := [last] + Announced(readings, last, interval);
            && Spaced(all, readings, interval)
            && forall n | 0 < n <= |readings| ::
                 readings[n - 1].sec < LastOf(last, Announced(readings[..n], last, interval)).sec + interval
    decreases |readings|
  {
    if readings != [] {
      var r, rest := readings[0], readings[1..];
      var due := AnnounceDue(r, last, interval);
      var prev := if due then r else last;
      AnnouncementsSpaced(rest, prev, interval);
      var inner := [prev] + Announced(rest, prev, interval);
      var all := [last] + Announced(readings, last, interval);
      assert all == if due then [last] + inner else inner;
      assert Spaced(inner, rest, interval);
      forall i | 0 < i < |all| ensures all[i] in readings && all[i].sec - all[i - 1].sec >= interval {
        var k := if due then i - 1 else i;
        if k > 0 {
          assert all[i] == inner[k] && all[i - 1] == inner[k - 1] && inner[k] in rest;
        }
      }
      forall n | 0 < n <= |readings|
        ensures readings[n - 1].sec < LastOf(last, Announced(readings[..n], last, interval)).sec + interval
      {
        assert readings[..n][1..] == rest[..n - 1] && readings[..n][0] == r;
        if n > 1 {
          assert readings[n - 1] == rest[n - 2];
        }
      }
    }
  }

  /** Sleeping until the next announcement ends exactly one interval after the last, and then it is due. */
  lemma WakesForAnnouncement(tod: Timeval, last: Timeval, interval: nat, wake: Timeval)
    requires Normal(tod) && Normal(last) && Normal(wake) && tod.sec < last.sec + interval
    requires Micros(wake) == Micros(tod) + UntilAnnounce(tod, last, interval)
    ensures wake == Timeval(last.sec + interval, last.usec) && AnnounceDue(wake, last, interval)
  {}

  /** Whole seconds left until the next lease ends; they replace a timeout that is not shorter in whole seconds. */
  function UntilLease(t: int, cell: U32, tod: Timeval): int {
    if cell != 0 && t / SECOND >= cell - tod.sec then (cell - tod.sec) * SECOND else t
  }

  function MinDue(list: seq<Packet>): (r: int)
    requires list != []
    ensures (exists p :: p in list && p.due == r) && forall p | p in list :: r <= p.due
  {
    if |list| == 1 then
      assert list[0] in list;
      list[0].due
    else
      var r := MinDue(list[1..]);
      assert list[0] in list && forall p | p in list :: p == list[0] || p in list[1..];
      if list[0].due < r then list[0].due else r
  }

  function UntilSend(t: int, list: seq<Packet>, tod: Timeval): int {
    if list == [] then t
    else
      var left := MinDue(list) - Micros(tod);
      if left <= 0 then 0 else if left <= t then left else t
  }

  /** The timeout in microseconds, if `announce` are left until the next announcement. */
  function Timeout(announce: int, tod: Timeval, cell: U32, list: seq<Packet>): int {
    UntilSend(UntilLease(announce, cell, tod), list, tod)
  }

  // ---- what the timeout respects ----

  ghost predicate AllTimed(q: Queue) {
    forall p | p in q.list :: Timed(p, q.clock)
  }

  lemma WholeSeconds(t: int, n: int)
    requires t >= 0
    ensures t / SECOND >= n <==> t >= n * SECOND
  {}

  /** The timeout is not negative; it passes neither the next announcement nor the due time of any queued
      packet (it is 0 if one is due), and the end of no lease by a second or more. */
  lemma TimeoutRespectsDeadlines(announce: nat, tod: Timeval, s: State, list: seq<Packet>)
    requires Normal(tod) && 0 <= tod.sec
    requires s.nextToClean == 0 || tod.sec < s.nextToClean
    ensures var t := Timeout(announce, tod, s.nextToClean, list);
            && 0 <= t <= announce
            && (forall p | p in list :: if p.due <= Micros(tod) then t == 0 else t <= p.due - Micros(tod))
            && (MappingRuns.Covered(s) ==>
                forall m | m in s.table && m.timestamp > 0 :: t < m.timestamp * SECOND - Micros(tod) + SECOND)
  {
    WholeSeconds(announce, s.nextToClean - tod.sec);
  }

  /** The timeout passes the exact end of the next lease if and only if the clock is not at a whole second
      and neither of the other two deadlines comes by then. */
  lemma LeaseOvershootIff(announce: nat, tod: Timeval, cell: U32, list: seq<Packet>)
    requires Normal(tod) && 0 <= tod.sec < cell
    ensures var end := cell * SECOND - Micros(tod);
            Timeout(announce, tod, cell, list) > end <==>
            tod.usec > 0 && announce > end && (list == [] || MinDue(list) - Micros(tod) > end)
  {
    WholeSeconds(announce, cell - tod.sec);
  }

  /** Half a second before a lease ends, with nothing else to do, the daemon sleeps half a second too long. */
  lemma LeaseOvershoots()
    ensures Timeout(UntilAnnounce(Timeval(100, 500000), Timeval(90, 0), 900), Timeval(100, 500000), 101, []) == SECOND
    ensures 101 * SECOND - Micros(Timeval(100, 500000)) == SECOND / 2
  {}

  /** If the clock is at a whole second the timeout is exactly the nearest of the deadlines. */
  lemma TimeoutIsNearest(announce: nat, tod: Timeval, cell: U32, list: seq<Packet>)
    requires Normal(tod) && tod.usec == 0 && 0 <= tod.sec < cell && list != []
    ensures var t := Timeout(announce, tod, cell, list);
            var end, due := cell * SECOND - Micros(tod), MinDue(list) - Micros(tod);
            if due <= 0 then t == 0
            else t <= announce && t <= end && t <= due && (t == announce || t == end || t == due)
  {
    assert cell * SECOND - Micros(tod) == (cell - tod.sec) * SECOND;
    WholeSeconds(announce, cell - tod.sec);
    var t := UntilLease(announce, cell, tod);
    assert t <= announce && t <= cell * SECOND - Micros(tod);
  }

  // ---- the code ----

  /** The time found field by field, as get_next_scheduled_send() finds it. */
  ghost predicate IsEarliest(list: seq<Packet>, t: Timeval) {
    (exists p :: p in list && p.ts == t) && forall p | p in list :: !Before(p.ts, t)
  }

  lemma EarliestIsMinDue(q: Queue, next: Timeval)
    requires AllTimed(q) && IsEarliest(q.list, next)
    ensures q.list != [] && Micros(next) == MinDue(q.list) && 0 <= next.usec <= SECOND
  {
    var x :| x in q.list && x.ts == next;
    assert Timed(x, q.clock);
    assert MinDue(q.list) <= x.due;
    var p :| p in q.list && p.due == MinDue(q.list);
    assert Timed(p, q.clock) && !Before(p.ts, next);
    NotBeforeIsExact(next, p.ts);
  }

  lemma EarliestIsUnique(list: seq<Packet>, t: Timeval)
    requires IsEarliest(list, t)
    ensures forall s :: IsEarliest(list, Timeval(s, SECOND)) <==> t == Timeval(s, SECOND)
  {
    forall s | IsEarliest(list, Timeval(s, SECOND)) ensures t == Timeval(s, SECOND) {
      var a :| a in list && a.ts == t;
      var b :| b in list && b.ts == Timeval(s, SECOND);
      assert !Before(a.ts, b.ts) && !Before(b.ts, a.ts);
    }
  }

  /** The timeout given to select() has tv_usec == 1000000: the clock is at a whole second, the earliest
      packet is stored with such a tv_usec, is not due, and does not come after a timeout of `t`. */
  ghost predicate Unnormal(list: seq<Packet>, tod: Timeval, t: int) {
    tod.usec == 0 && list != [] && (exists s :: IsEarliest(list, Timeval(s, SECOND)))
    && 0 < MinDue(list) - Micros(tod) <= t
  }

  /** It does happen: a packet scheduled half a second past the fifth second for 1500 ms later, and a
      clock read at the sixth. */
  lemma UnnormalHappens()
    ensures var c := Call(3, 100, 1500, 5500000, Failed, Some(Timeval(5, 500000)), true);
            var q := After([DoSchedule(c)]);
            Run([DoSchedule(c)]) && Unnormal(q.list, Timeval(6, 0), 900 * SECOND)
            && UntilSend(900 * SECOND, q.list, Timeval(6, 0)) == SECOND
  {
    var c := Call(3, 100, 1500, 5500000, Failed, Some(Timeval(5, 500000)), true);
    var p := NewPacket(0, c);
    assert [DoSchedule(c)][..0] == [];
    assert After([]) == EMPTY && Run([]);
    assert After([DoSchedule(c)]) == Schedule(EMPTY, c) && [p] + [] == [p];
    assert p.ts == Timeval(6, SECOND) && p.due == 7 * SECOND;
    assert p in [p] && IsEarliest([p], Timeval(6, SECOND));
    assert MinDue([p]) == p.due;
  }

  /** Notifications handed to the send queue, one after the other. */
  function ScheduleAll(q: Queue, calls: seq<Call>): Queue {
    if calls == [] then q
    else Next(ScheduleAll(q, calls[..|calls| - 1]), DoSchedule(calls[|calls| - 1]))
  }

  ghost predicate PossibleAll(q: Queue, calls: seq<Call>) {
    forall i | 0 <= i < |calls| :: Possible(ScheduleAll(q, calls[..i]), DoSchedule(calls[i]))
  }

  lemma {:induction false} ScheduleAllKeeps(q: Queue, calls: seq<Call>)
    requires Good(q) && PossibleAll(q, calls)
    ensures Good(ScheduleAll(q, calls)) && q.clock <= ScheduleAll(q, calls).clock
  {
    hide Good;
    if calls != [] {
      var front, n := calls[..|calls| - 1], |calls| - 1;
      assert forall i | 0 <= i < |front| :: front[..i] == calls[..i];
      ScheduleAllKeeps(q, front);
      assert Possible(ScheduleAll(q, calls[..n]), DoSchedule(calls[n]));
      StepKeeps(ScheduleAll(q, front), DoSchedule(calls[n]));
    }
  }

  class Daemon {
    const redirector: Redirector
    const queue: SendQueue
    const notifyInterval: nat
    var timeofday: Timeval
    var lasttimeofday: Timeval

    ghost predicate Valid()
      reads this, redirector, redirector.backend, queue
    {
      && redirector.Valid()
      && (queue as object) != redirector && (queue as object) != redirector.backend
      && Normal(timeofday) && Normal(lasttimeofday)
      && Micros(timeofday) <= queue.clock && Good(queue.State())
    }

    constructor (redirector: Redirector, queue: SendQueue, notifyInterval: nat)
      requires redirector.Valid() && (queue as object) != redirector && (queue as object) != redirector.backend
      requires Good(queue.State()) && queue.clock >= 0
      ensures Valid() && this.redirector == redirector && this.queue == queue && this.notifyInterval == notifyInterval
    {
      this.redirector, this.queue, this.notifyInterval := redirector, queue, notifyInterval;
      timeofday, lasttimeofday := Timeval(0, 0), Timeval(0, 0);
    }

    /** SendSSDPNotifies2(), as far as the send queue sees it. */
    method SendNotifies(notifies: seq<Call>)
      modifies queue
      ensures queue.State() == ScheduleAll(old(queue.State()), notifies)
    {
      hide Schedule;
      var i := 0;
      while i < |notifies|
        invariant i <= |notifies| && queue.State() == ScheduleAll(old(queue.State()), notifies[..i])
      {
        var c := notifies[i];
        var _ := queue.SendtoSchedule2(c.sock, c.len, c.delay, c.called, c.first, c.tv, c.memory);
        assert notifies[..i + 1][..i] == notifies[..i];
        i := i + 1;
      }
      assert notifies[..i] == notifies;
    }

    /** Microseconds until the next announcement; a whole interval if the clock cannot be read. */
    ghost function Announce(tod: Option<Timeval>): int
      reads this
    {
      if tod.Some? then UntilAnnounce(tod.value, lasttimeofday, notifyInterval) else notifyInterval * SECOND
    }

    predicate Announces(tod: Option<Timeval>)
      reads this
    {
      tod.Some? && AnnounceDue(tod.value, lasttimeofday, notifyInterval)
    }

    /** The send queue once the clock was read and any notifications were handed to it. */
    ghost function Notified(tod: Option<Timeval>, notifies: seq<Call>): Queue
      reads this, queue
    {
      var q := if tod.Some? then Next(queue.State(), Wait(Micros(tod.value))) else queue.State();
      if Announces(tod) then ScheduleAll(q, notifies) else q
    }

    /** The clock goes forward, and the notifications are sent after it was read. */
    ghost predicate Timely(tod: Option<Timeval>, notifies: seq<Call>)
      reads this, queue
    {
      tod.Some? ==> Normal(tod.value) && queue.clock <= Micros(tod.value)
                    && PossibleAll(Next(queue.State(), Wait(Micros(tod.value))), notifies)
    }

    /** The announcement and the timeout until the next one; `tod` is None if the clock cannot be read. */
    method CheckAnnounce(tod: Option<Timeval>, notifies: seq<Call>) returns (timeout: Timeval)
      requires Valid() && Timely(tod, notifies)
      modifies this, queue
      ensures Valid() && Normal(timeout) && timeout.sec >= 0
      ensures Micros(timeout) == old(Announce(tod))
      ensures timeofday == if tod.Some? then tod.value else old(timeofday)
      ensures lasttimeofday == if old(Announces(tod)) then tod.value else old(lasttimeofday)
      ensures queue.State() == old(Notified(tod, notifies))
    {
      hide Redirector.Valid, Good, Next, PossibleAll;
      if tod.None? {
        return Timeval(notifyInterval, 0);
      }
      ghost var q := Next(queue.State(), Wait(Micros(tod.value)));
      StepKeeps(queue.State(), Wait(Micros(tod.value)));
      queue.Tick(Micros(tod.value));
      TickIs(old(queue.State()), Micros(tod.value));
      timeofday := tod.value;
      if timeofday.sec >= lasttimeofday.sec + notifyInterval {
        ScheduleAllKeeps(q, notifies);
        SendNotifies(notifies);
        lasttimeofday := timeofday;
        return Timeval(notifyInterval, 0);
      }
      var sec := lasttimeofday.sec + notifyInterval - timeofday.sec;
      if timeofday.usec > lasttimeofday.usec {
        timeout := Timeval(sec - 1, SECOND + lasttimeofday.usec - timeofday.usec);
      } else {
        timeout := Timeval(sec, lasttimeofday.usec - timeofday.usec);
      }
    }

    /** The cleaning of expired leases and the timeout until the next one ends. */
    method CheckLeases(timeout0: Timeval, now: U32, removable: (Port, Proto) -> bool) returns (timeout: Timeval)
      requires Valid() && Normal(timeout0) && timeout0.sec >= 0 && 0 <= timeofday.sec <= now
      modifies redirector, redirector.backend
      ensures Valid()
      ensures redirector.S() == MappingRuns.MainLoopCheck(old(redirector.S()), timeofday.sec, now, removable)
      ensures redirector.nextToClean == 0 || timeofday.sec < redirector.nextToClean
      ensures Normal(timeout) && timeout.sec >= 0
      ensures Micros(timeout) == UntilLease(Micros(timeout0), redirector.nextToClean, timeofday)
    {
      hide Redirector.Valid, Good;
      timeout := timeout0;
      if redirector.nextToClean != 0 && timeofday.sec >= redirector.nextToClean {
        var _ := redirector.RulesStateList(0, now, removable);
      }
      assert Micros(timeout) / SECOND == timeout.sec;
      if redirector.nextToClean != 0 && timeout.sec >= redirector.nextToClean - timeofday.sec {
        timeout := Timeval(redirector.nextToClean - timeofday.sec, 0);
      }
    }

    /** The queued datagrams: those due are marked, and the timeout goes down to the earliest of the others. */
    method CheckQueue(timeout0: Timeval, writefds: set<nat>, maxFd: int)
      returns (timeout: Timeval, writefds': set<nat>, maxFd': int)
      requires Normal(timeout0) && timeout0.sec >= 0 && Normal(timeofday)
      requires AllTimed(queue.State())
      modifies queue`list
      ensures queue.State() == Next(old(queue.State()), DoMark(timeofday))
      ensures timeout.sec >= 0 && 0 <= timeout.usec <= SECOND
      ensures Micros(timeout) == UntilSend(Micros(timeout0), old(queue.list), timeofday)
      ensures !Normal(timeout) <==> Unnormal(old(queue.list), timeofday, Micros(timeout0))
    {
      hide Next, MinDue;
      timeout, writefds', maxFd' := timeout0, writefds, maxFd;
      var i, nextSend := queue.GetNextScheduledSend();
      if i > 0 {
        EarliestIsMinDue(queue.State(), nextSend);
        assert IsEarliest(queue.list, nextSend);
        if !Before(timeofday, nextSend) {
          DueIsCounted(queue.State(), nextSend, timeofday);
        }
        BeforeIsExact(timeofday, nextSend);
        i, writefds', maxFd' := queue.GetSendtoFds(writefds, maxFd, timeofday);
        EarliestIsUnique(old(queue.list), nextSend);
        if timeofday.sec > nextSend.sec || (timeofday.sec == nextSend.sec && timeofday.usec >= nextSend.usec) {
          if i > 0 {
            timeout := Timeval(0, 0);
          }
        } else {
          var tmp := Timeval(nextSend.sec - timeofday.sec, nextSend.usec - timeofday.usec);
          if tmp.usec < 0 {
            tmp := Timeval(tmp.sec - 1, tmp.usec + SECOND);
          }
          if timeout.sec > tmp.sec || (timeout.sec == tmp.sec && timeout.usec > tmp.usec) {
            timeout := tmp;
          }
        }
      } else {
        NothingToMark(queue.State(), timeofday);
      }
    }

    /** All of it, up to the call of select(). */
    method PrepareSelect(tod: Option<Timeval>, notifies: seq<Call>, now: U32, removable: (Port, Proto) -> bool,
                         writefds: set<nat>, maxFd: int)
      returns (timeout: Timeval, writefds': set<nat>, maxFd': int)
      requires Valid() && Timely(tod, notifies)
      requires 0 <= (if tod.Some? then tod.value else timeofday).sec <= now
      modifies this, queue, redirector, redirector.backend
      ensures Valid()
      ensures timeofday == if tod.Some? then tod.value else old(timeofday)
      ensures redirector.S() == MappingRuns.MainLoopCheck(old(redirector.S()), timeofday.sec, now, removable)
      ensures queue.State() == Next(old(Notified(tod, notifies)), DoMark(timeofday))
      ensures timeout.sec >= 0 && 0 <= timeout.usec <= SECOND
      ensures Micros(timeout)
           == Timeout(old(Announce(tod)), timeofday, redirector.nextToClean, old(Notified(tod, notifies)).list)
      ensures !Normal(timeout) <==>
              Unnormal(old(Notified(tod, notifies)).list, timeofday,
                       UntilLease(old(Announce(tod)), redirector.nextToClean, timeofday))
      ensures 0 <= Micros(timeout) <= old(Announce(tod))
      ensures forall p | p in old(Notified(tod, notifies)).list ::
                if p.due <= Micros(timeofday) then Micros(timeout) == 0 else Micros(timeout) <= p.due - Micros(timeofday)
      ensures MappingRuns.Covered(redirector.S()) ==>
                forall m | m in redirector.S().table && m.timestamp > 0 ::
                  Micros(timeout) < m.timestamp * SECOND - Micros(timeofday) + SECOND
    {
      hide Redirector.Valid, Good, Next, Notified, Timely, Announce, Announces, UntilLease, UntilSend, Unnormal;
      timeout := CheckAnnounce(tod, notifies);
      assert old(Announce(tod)) >= 0;
      timeout := CheckLeases(timeout, now, removable);
      GoodIsTimed(queue.State());
      MarkIsGood(queue.State(), timeofday);
      timeout, writefds', maxFd' := CheckQueue(timeout, writefds, maxFd);
      TimeoutRespectsDeadlines(old(Announce(tod)), timeofday, redirector.S(), old(Notified(tod, notifies)).list);
    }
  }

  lemma TickIs(q: Queue, at: int)
    ensures Next(q, Wait(at)).clock == at
  {}

  lemma GoodIsTimed(q: Queue)
    requires Good(q)
    ensures AllTimed(q)
  {}

  lemma MarkIsGood(q: Queue, now: Timeval)
    requires Good(q) && Normal(now) && Micros(now) <= q.clock
    ensures Good(Next(q, DoMark(now))) && Next(q, DoMark(now)).clock == q.clock
  {
    StepKeeps(q, DoMark(now));
  }

  lemma NothingToMark(q: Queue, now: Timeval)
    requires q.list == []
    ensures Next(q, DoMark(now)) == q
  {}
}
