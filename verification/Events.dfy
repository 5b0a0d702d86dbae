/** upnpevents.c: GENA eventing. Subscribers and notifications in flight point at each other and
    are freed from several places; every subscriber has a SEQ counter of its own
    (UPnP Device Architecture 1.1, section 4). */
module Events {
  import opened Net

  datatype Service = EWanCFG | EWanIPC | EL3F | E6FC | EDP

  datatype NotifyState = ECreated | EConnecting | ESending | EWaitingForResponse | EFinished | EError

  /** A pointer into the callback URL of a subscriber. */
  datatype Path = Nowhere | Into(owner: Subscriber, offset: nat)

  /** The message of a notification: where it goes, whom it is for and its number. */
  datatype Message = NoMessage | NotifyMessage(path: string, host: string, sid: string, seqNumber: U32)

  /** What the network does for one notification in one round. */
  datatype Outcome = Outcome(socketError: bool, prepared: bool, length: nat, sent: SendResult, received: RecvResult)
  datatype SendResult = SendFailed | SendWouldBlock | Sent(n: nat)
  datatype RecvResult = RecvFailed | RecvWouldBlock | Received

  class Subscriber {
    const service: Service
    const uuid: string
    const callback: string
    var notify: Notify?
    var timeout: nat
    var seqNumber: U32
    /** Every SEQ put into a message for this subscriber so far. */
    ghost var emitted: seq<U32>

    constructor (service: Service, uuid: string, callback: string, timeout: nat)
      ensures this.service == service && this.uuid == uuid && this.callback == callback
      ensures this.timeout == timeout && notify == null && seqNumber == 0 && emitted == []
    {
      this.service := service;
      this.uuid := uuid;
      this.callback := callback;
      this.timeout := timeout;
      notify := null;
      seqNumber := 0;
      emitted := [];
    }
  }

  class Notify {
    var open: bool
    var state: NotifyState
    var sub: Subscriber?
    var path: Path
    var addrstr: string
    var portstr: string
    var msg: Message
    var tosend: nat
    var sent: nat

    constructor (sub: Subscriber)
      ensures this.sub == sub && state == ECreated && open && path == Nowhere && msg == NoMessage
      ensures addrstr == portstr == "" && sent == tosend == 0
    {
      this.sub := sub;
      state := ECreated;
      open := true;
      path, addrstr, portstr := Nowhere, "", "";
      msg := NoMessage;
      sent, tosend := 0, 0;
    }
  }

  ghost predicate Distinct<T>(s: seq<T>) {
    forall i, j | 0 <= i < j < |s| :: s[i] != s[j]
  }

  /** The number of a message, the first one being 0. */
  function Number(n: nat): U32 { n % 0x1_0000_0000 }

  /** 0, 1, 2, ... modulo 2^32, without gap or repeat. */
  ghost predicate Counting(s: seq<U32>) {
    forall i | 0 <= i < |s| :: s[i] == Number(i)
  }

  lemma CountOn(n: nat)
    requires n > 0
    ensures Add32(Number(n - 1), 1) == Number(n)
  {}

  /** LIST_REMOVE */
  function Without<T(==)>(s: seq<T>, x: T): seq<T> {
    if s == [] then [] else if s[0] == x then s[1..] else [s[0]] + Without(s[1..], x)
  }

  lemma {:induction false} WithoutMembers<T>(s: seq<T>, x: T)
    requires Distinct(s)
    ensures Distinct(Without(s, x))
    ensures forall y :: y in Without(s, x) <==> y in s && y != x
  {
    if s != [] {
      WithoutMembers(s[1..], x);
      assert forall i | 0 < i < |s| :: s[i] == s[1..][i - 1];
      if s[0] != x {
        var rest := Without(s[1..], x);
        forall j | 0 <= j < |rest| ensures s[0] != rest[j] {
          assert rest[j] in rest;
        }
      }
    }
  }

  // ---- callback URLs ----

  const HOST_SIZE := 16

  /** Where the host of a callback URL ends, "http://" taken for granted: at a '/', at a ':', at the end of
      the URL, or when the buffer is full. */
  function HostEnd(url: string, p: nat): (r: nat)
    requires 7 <= p
    ensures p <= r && (p <= |url| ==> r <= |url|)
    decreases |url| - p
  {
    if p < |url| && url[p] != '/' && url[p] != ':' && p - 7 < HOST_SIZE - 1 then HostEnd(url, p + 1) else p
  }

  function PortEnd(url: string, p: nat): (r: nat)
    ensures p <= r && (p <= |url| ==> r <= |url|)
    decreases |url| - p
  {
    if p < |url| && url[p] != '/' then PortEnd(url, p + 1) else p
  }

  /** Where the path begins: behind host and port. */
  function PathOffset(url: string): (r: nat)
    requires |url| >= 7
    ensures r <= |url|
  {
    var p := HostEnd(url, 7);
    if p < |url| && url[p] == ':' then PortEnd(url, p) else p
  }

  /** The text for the Host header, the port cut to its buffer. */
  function HostText(url: string): string
    requires |url| >= 7
  {
    var p := HostEnd(url, 7);
    url[7..p] + CutPort(url[p..PathOffset(url)])
  }

  function CutPort(port: string): string {
    if |port| <= 7 then port else port[..7]
  }

  lemma NoPort()
    ensures CutPort("") == "" && CutPort(":") == ":"
  {}

  lemma CutPortStep(port: string, c: char)
    ensures CutPort(port + [c]) == if |CutPort(port)| < 7 then CutPort(port) + [c] else CutPort(port)
  {}

  function TargetPath(url: string): string
    requires |url| >= 7
  {
    if PathOffset(url) < |url| then url[PathOffset(url)..] else "/"
  }

  /** The loop over the host meets its end before the end of the URL is passed. */
  predicate Terminated(url: string) {
    |url| >= 7 && (|url| >= 7 + HOST_SIZE - 1 || '/' in url[7..] || ':' in url[7..])
  }

  lemma {:induction false} HostEndIs(url: string, p: nat, r: nat)
    requires 7 <= p <= r <= |url| && r - 7 < HOST_SIZE
    requires forall k | p <= k < r :: url[k] != '/' && url[k] != ':'
    requires r < |url| && r - 7 < HOST_SIZE - 1 ==> url[r] == '/' || url[r] == ':'
    ensures HostEnd(url, p) == r
    decreases r - p
  {
    if p < r {
      HostEndIs(url, p + 1, r);
    }
  }

  lemma {:induction false} PortEndIs(url: string, p: nat, r: nat)
    requires p <= r <= |url| && (forall k | p <= k < r :: url[k] != '/') && (r < |url| ==> url[r] == '/')
    ensures PortEnd(url, p) == r
    decreases r - p
  {
    if p < r {
      PortEndIs(url, p + 1, r);
    }
  }

  /** The messages for a callback "http://host:port/path" go to exactly that path, or to "/" if there is none,
      and name that host and port. */
  lemma CallbackParts(host: string, port: string, path: string)
    requires |host| <= 15 && '/' !in host && ':' !in host
    requires port == "" || (port[0] == ':' && '/' !in port && |port| <= 7)
    requires path == "" || path[0] == '/'
    ensures var url := "http://" + host + port + path;
            && TargetPath(url) == (if path == "" then "/" else path)
            && HostText(url) == host + port
            && (Terminated(url) <==> port != "" || path != "" || |host| == 15)
  {
    var url := "http://" + host + port + path;
    var p, q := 7 + |host|, 7 + |host| + |port|;
    assert url[7..p] == host && url[p..q] == port && url[q..] == path && url[7..] == host + port + path;
    assert forall k | 7 <= k < p :: url[k] == host[k - 7] && url[k] in host;
    assert forall k | p <= k < q :: url[k] == port[k - p] && url[k] in port;
    if p < |url| {
      assert url[p] == if port != "" then port[0] else path[0];
    }
    HostEndIs(url, 7, p);
    if port != "" {
      if q < |url| {
        assert url[q] == path[0];
      }
      PortEndIs(url, p, q);
    }
    assert PathOffset(url) == q;
  }

  ghost function SubOf(obj: Notify): set<Subscriber>
    reads obj
  {
    if obj.sub == null then {} else {obj.sub}
  }

  /** A notification whose message does not exist yet: it will report the latest values. */
  predicate Unprepared(state: NotifyState) {
    state == ECreated || state == EConnecting
  }

  /** The notification knows host, port and path of the subscriber's callback. */
  ghost predicate Addressed(obj: Notify, sub: Subscriber)
    reads obj`path, obj`addrstr, obj`portstr
    requires |sub.callback| >= 7
  {
    obj.path == Into(sub, PathOffset(sub.callback)) && obj.addrstr + obj.portstr == HostText(sub.callback)
  }

  /** What is written to a subscriber: the path of its callback, its host and port, its SID and a number. */
  function MessageTo(sub: Subscriber, seqNumber: U32): Message
    requires |sub.callback| >= 7
  {
    NotifyMessage(TargetPath(sub.callback), HostText(sub.callback), sub.uuid, seqNumber)
  }

  class EventManager {
    var subscribers: seq<Subscriber>
    var notifies: seq<Notify>
    /** Every subscriber there has ever been, freed ones included. */
    ghost var known: set<Subscriber>

    ghost function NotifyOf(sub: Subscriber): set<Notify>
      reads sub`notify
    {
      if sub.notify == null then {} else {sub.notify}
    }

    /** The SEQ counter against the numbers already given out. */
    ghost predicate InStep(sub: Subscriber)
      reads sub`notify, sub`seqNumber, sub`emitted, NotifyOf(sub)`state
    {
      if sub.notify == null then sub.seqNumber == Number(|sub.emitted|)
      else match sub.notify.state
        case ECreated | EConnecting | EFinished => sub.seqNumber == Number(|sub.emitted|)
        case ESending | EWaitingForResponse =>
          |sub.emitted| > 0 && sub.seqNumber == Number(|sub.emitted| - 1)
        case EError => true
    }

    ghost predicate SubLinked(sub: Subscriber)
      reads this`notifies, sub`notify, notifies`sub
    {
      sub.notify != null ==> sub.notify in notifies && sub.notify.sub == sub
    }

    /** What a notification knows of its subscriber. */
    ghost predicate Links(obj: Notify, sub: Subscriber)
      reads this`subscribers, obj, sub`notify, sub`seqNumber
    {
      && sub in subscribers && sub.notify == obj && Terminated(sub.callback)
      && (obj.state == EConnecting ==> Addressed(obj, sub))
      && (obj.state in {ESending, EWaitingForResponse} ==> obj.msg == MessageTo(sub, sub.seqNumber))
    }

    ghost predicate NotifyLinked(obj: Notify)
      reads this`subscribers, obj, SubOf(obj)`notify, SubOf(obj)`seqNumber
    {
      obj.sub != null ==> Links(obj, obj.sub)
    }

    /** A subscriber and its notification in flight point at each other, both are on their lists, and
        the numbers given out count up from 0 for every subscriber there has been. */
    ghost predicate Valid()
      reads this, subscribers, notifies, known
    {
      && Distinct(subscribers) && Distinct(notifies)
      && (forall sub | sub in subscribers :: sub in known && SubLinked(sub) && InStep(sub) && Terminated(sub.callback))
      && (forall obj | obj in notifies ::
            (obj.sub != null ==> obj.sub in subscribers) && NotifyLinked(obj) && obj.sent <= obj.tosend)
      && (forall sub | sub in known :: Counting(sub.emitted))
    }

    constructor ()
      ensures Valid() && subscribers == [] && notifies == []
    {
      subscribers := [];
      notifies := [];
      known := {};
    }

    /** upnp_event_create_notify(): `socketOk` tells whether a socket could be made. */
    method CreateNotify(sub: Subscriber, socketOk: bool)
      requires Valid() && sub in subscribers && sub.notify == null
      modifies this`notifies, sub`notify
      ensures Valid()
      ensures if socketOk then
                && sub.notify != null && fresh(sub.notify) && notifies == [sub.notify] + old(notifies)
                && sub.notify.state == ECreated && sub.notify.sub == sub && sub.notify.open
              else sub.notify == null && notifies == old(notifies)
    {
      if !socketOk {
        return;
      }
      var obj := new Notify(sub);
      sub.notify := obj;
      notifies := [obj] + notifies;
    }

    /** upnpevents_addSubscriber(), for a known event URL and a callback whose host has an end. */
    method AddSubscriber(service: Service, uuid: string, callback: string, timeout: nat, now: nat, socketOk: bool)
      returns (sub: Subscriber)
      requires Valid() && Terminated(callback)
      modifies this
      ensures Valid() && fresh(sub) && subscribers == [sub] + old(subscribers)
      ensures sub.service == service && sub.uuid == uuid && sub.callback == callback && sub.emitted == []
      ensures sub.timeout == if timeout != 0 then now + timeout else 0
      ensures known == old(known) + {sub}
      ensures if socketOk then sub.notify != null && notifies == [sub.notify] + old(notifies)
              else sub.notify == null && notifies == old(notifies)
    {
      sub := new Subscriber(service, uuid, callback, if timeout != 0 then now + timeout else 0);
      subscribers := [sub] + subscribers;
      known := known + {sub};
      CreateNotify(sub, socketOk);
    }

    /** The walk over the subscriber list for a SID: the first match, or null. */
    method FindSubscriber(sid: string) returns (found: Subscriber?)
      ensures found != null ==> found in subscribers && found.uuid == sid && |sid| == 41
      ensures found == null ==> |sid| != 41 || forall sub | sub in subscribers :: sub.uuid != sid
    {
      var i := 0;
      while i < |subscribers|
        invariant 0 <= i <= |subscribers|
        invariant |sid| == 41 ==> forall k | 0 <= k < i :: subscribers[k].uuid != sid
      {
        if |sid| == 41 && sid == subscribers[i].uuid {
          return subscribers[i];
        }
        i := i + 1;
      }
      return null;
    }

    /** upnpevents_renewSubscription() */
    method RenewSubscription(sid: string, timeout: nat, now: nat) returns (found: Subscriber?)
      requires Valid()
      modifies subscribers
      ensures Valid()
      ensures found == null ==> |sid| != 41 || forall sub | sub in subscribers :: sub.uuid != sid
      ensures found != null ==> found in subscribers && found.uuid == sid
      ensures found != null ==> found.timeout == if timeout != 0 then now + timeout else 0
      ensures forall sub | sub in subscribers && sub != found :: sub.timeout == old(sub.timeout)
      ensures forall sub | sub in subscribers ::
                sub.notify == old(sub.notify) && sub.seqNumber == old(sub.seqNumber) && sub.emitted == old(sub.emitted)
    {
      hide Distinct, Counting, Number, HostText, TargetPath, PathOffset, Terminated, Addressed, MessageTo;
      found := FindSubscriber(sid);
      if found != null {
        found.timeout := if timeout != 0 then now + timeout else 0;
      }
    }

    /** Unlinks and frees a subscriber that no notification refers to any more. */
    method FreeSubscriber(sub: Subscriber)
      requires Valid() && sub in subscribers && sub.notify == null
      modifies this`subscribers
      ensures Valid() && subscribers == Without<Subscriber>(old(subscribers), sub)
    {
      WithoutMembers<Subscriber>(subscribers, sub);
      subscribers := Without<Subscriber>(subscribers, sub);
    }

    /** upnpevents_removeSubscriber(): a notification in flight is left behind without a subscriber. */
    method RemoveSubscriber(sid: string) returns (r: int)
      requires Valid()
      modifies this`subscribers, subscribers, notifies
      ensures Valid()
      ensures r == 0 || r == -1
      ensures r == -1 <==> |sid| != 41 || forall sub | sub in old(subscribers) :: sub.uuid != sid
      ensures r == -1 ==> subscribers == old(subscribers)
      ensures r == 0 ==>
                exists sub: Subscriber | sub in old(subscribers) ::
                  && sub.uuid == sid && subscribers == Without<Subscriber>(old(subscribers), sub)
                  && (old(sub.notify) != null ==> old(sub.notify).sub == null)
    {
      hide Counting, Number, HostText, TargetPath, PathOffset, Terminated, Addressed, MessageTo, Without;
      var sub := FindSubscriber(sid);
      if sub == null {
        return -1;
      }
      Unlink(sub);
      return 0;
    }

    /** The subscriber leaves its list; its notification, if there is one, stays behind. */
    method Unlink(sub: Subscriber)
      requires Valid() && sub in subscribers
      modifies this`subscribers, notifies`sub
      ensures Valid() && subscribers == Without<Subscriber>(old(subscribers), sub)
      ensures sub.notify != null ==> sub.notify.sub == null
    {
      hide Counting, Number, HostText, TargetPath, PathOffset, Terminated, Addressed, MessageTo, Without;
      if sub.notify != null {
        sub.notify.sub := null;
      }
      WithoutMembers<Subscriber>(subscribers, sub);
      subscribers := Without<Subscriber>(subscribers, sub);
    }

    /** upnp_event_var_change_notify(). Afterwards a subscriber of the service has a message still to
        be written, which will report the change, exactly if it had one before, or had nothing in
        flight and got a socket: with a message already written, the change goes unreported. */
    method VarChangeNotify(service: Service, socketOk: Subscriber -> bool)
      requires Valid()
      modifies this`notifies, subscribers`notify
      ensures Valid()
      ensures forall sub | sub in subscribers :: old(sub.notify) != null ==> sub.notify == old(sub.notify)
      ensures forall sub | sub in subscribers ::
                sub.notify != old(sub.notify) ==> fresh(sub.notify) && sub.service == service
      ensures forall sub | sub in subscribers && sub.service == service ::
                (sub.notify != null && Unprepared(sub.notify.state)
                 <==> if old(sub.notify) == null then socketOk(sub) else Unprepared(old(sub.notify.state)))
    {
      var i := 0;
      while i < |subscribers|
        invariant Valid() && 0 <= i <= |subscribers|
        invariant forall k | i <= k < |subscribers| :: subscribers[k].notify == old(subscribers[k].notify)
        invariant forall k | 0 <= k < i && old(subscribers[k].notify) != null ::
                    subscribers[k].notify == old(subscribers[k].notify)
        invariant forall k | 0 <= k < i && old(subscribers[k].notify) == null ::
                    var sub := subscribers[k];
                    if sub.service == service && socketOk(sub)
                    then sub.notify != null && fresh(sub.notify) && sub.notify.state == ECreated
                    else sub.notify == null
      {
        var sub := subscribers[i];
        if sub.service == service && sub.notify == null {
          CreateNotify(sub, socketOk(sub));
        }
        i := i + 1;
      }
    }

    /** upnp_event_notify_connect(): host and port are taken from the subscriber's callback, and the path is a
        pointer into it. */
    method NotifyConnect(obj: Notify, connected: bool)
      requires Valid() && obj in notifies && obj.state == ECreated
      modifies obj`state, obj`path, obj`addrstr, obj`portstr
      ensures Valid()
      ensures obj.state == if obj.sub != null && connected then EConnecting else EError
      ensures obj.sub != null ==> Addressed(obj, obj.sub)
    {
      hide Distinct, Counting, Number, HostText, TargetPath, PathOffset, Terminated, Addressed, MessageTo;
      if obj.sub == null {
        obj.state := EError;
        return;
      }
      TakeAddress(obj);
      obj.state := if connected then EConnecting else EError;
    }

    /** Host, port and path are taken from the callback. */
    method TakeAddress(obj: Notify)
      requires Valid() && obj in notifies && obj.state == ECreated && obj.sub != null
      modifies obj`path, obj`addrstr, obj`portstr
      ensures Valid() && Addressed(obj, obj.sub)
    {
      hide Distinct, Counting, Number, HostText, TargetPath, PathOffset, Terminated, Addressed, MessageTo;
      TerminatedIsLong(obj.sub.callback);
      var addrstr, portstr, p := ParseCallback(obj.sub.callback);
      SetHost(obj, addrstr, portstr);
      hide NotifyLinked, SubLinked, InStep;
      obj.path := Into(obj.sub, p);
      AddressedNow(obj, obj.sub);
      LinkedBefore(obj);
    }

    method SetHost(obj: Notify, addrstr: string, portstr: string)
      requires Valid() && obj in notifies && obj.state == ECreated && obj.sub != null
      modifies obj`addrstr, obj`portstr
      ensures Valid() && obj.addrstr == addrstr && obj.portstr == portstr
      ensures obj.sub in subscribers && obj.sub.notify == obj && Terminated(obj.sub.callback)
    {
      hide Distinct, Counting, Number, HostText, TargetPath, PathOffset, Terminated, Addressed, MessageTo;
      LinkedIs(obj);
      hide NotifyLinked, SubLinked, InStep;
      obj.addrstr, obj.portstr := addrstr, portstr;
      LinkedBefore(obj);
    }

    lemma LinkedBefore(obj: Notify)
      requires obj.state == ECreated && obj.sub != null
      requires obj.sub in subscribers && obj.sub.notify == obj && Terminated(obj.sub.callback)
      ensures NotifyLinked(obj)
    {}

    lemma LinkedIs(obj: Notify)
      requires NotifyLinked(obj) && obj.sub != null
      ensures Links(obj, obj.sub)
    {}

    lemma LinkedNow(obj: Notify)
      requires obj.sub != null && Links(obj, obj.sub)
      ensures NotifyLinked(obj)
    {}

    /** No other subscriber or notification has to do with these two. */
    lemma OthersApart(obj: Notify, sub: Subscriber)
      requires Valid() && obj in notifies && obj.sub == sub
      ensures sub in subscribers && sub in known && sub.notify == obj && SubLinked(sub) && InStep(sub)
      ensures forall x | x in subscribers && x != sub :: x.notify != obj
      ensures forall o | o in notifies && o != obj :: o.sub != sub
    {
      hide Distinct, Counting, Number, HostText, TargetPath, PathOffset, Terminated, Addressed, MessageTo;
      forall o | o in notifies && o != obj ensures o.sub != sub {
        if o.sub == sub {
          LinkedIs(o);
          LinkedIs(obj);
        }
      }
      LinkedIs(obj);
    }

    /** The two loops over the callback. */
    static method ParseCallback(url: string) returns (addrstr: string, portstr: string, p: nat)
      requires Terminated(url)
      ensures addrstr + portstr == HostText(url) && p == PathOffset(url)
    {
      hide CutPort;
      p, addrstr, portstr := 7, "", "";
      NoPort();
      while |addrstr| < HOST_SIZE - 1 && url[p] != '/' && url[p] != ':'
        invariant p == 7 + |addrstr| <= |url| && |addrstr| < HOST_SIZE && addrstr == url[7..p]
        invariant |addrstr| < HOST_SIZE - 1 ==> p < |url|
        invariant forall k | 7 <= k < p :: url[k] != '/' && url[k] != ':'
        decreases |url| - p
      {
        addrstr := addrstr + [url[p]];
        p := p + 1;
      }
      HostEndIs(url, 7, p);
      NoPort();
      ghost var q := p;
      assert url[q..q] == "";
      if p < |url| && url[p] == ':' {
        portstr, p := ParsePort(url, p);
      }
    }

    /** From the ':' on: at most seven characters of the port are kept. */
    static method ParsePort(url: string, colon: nat) returns (portstr: string, p: nat)
      requires colon < |url| && url[colon] == ':'
      ensures p == PortEnd(url, colon) <= |url| && portstr == CutPort(url[colon..p])
    {
      hide CutPort;
      NoPort();
      p, portstr := colon + 1, ":";
      assert url[colon..p] == ":";
      while p < |url| && url[p] != '/'
        invariant colon < p <= |url| && portstr == CutPort(url[colon..p])
        invariant forall k | colon <= k < p :: url[k] != '/'
      {
        CutPortStep(url[colon..p], url[p]);
        assert url[colon..p + 1] == url[colon..p] + [url[p]];
        if |portstr| < 7 {
          portstr := portstr + [url[p]];
        }
        p := p + 1;
      }
      PortEndIs(url, colon, p);
    }

    /** The text behind a path pointer: only a live subscriber may be read. */
    function PathText(path: Path): string
      requires path.Into? && path.owner in subscribers
      reads this
    {
      var url := path.owner.callback;
      if path.offset < |url| then url[path.offset..] else "/"
    }

    lemma AddressedNow(obj: Notify, sub: Subscriber)
      requires |sub.callback| >= 7
      requires obj.path == Into(sub, PathOffset(sub.callback)) && obj.addrstr + obj.portstr == HostText(sub.callback)
      ensures Addressed(obj, sub)
    {}

    lemma MessageIs(obj: Notify, sub: Subscriber, n: U32)
      requires sub in subscribers && |sub.callback| >= 7 && Addressed(obj, sub)
      ensures obj.path.Into? && obj.path.owner in subscribers
      ensures NotifyMessage(PathText(obj.path), obj.addrstr + obj.portstr, sub.uuid, n) == MessageTo(sub, n)
    {}

    lemma TerminatedIsLong(url: string)
      requires Terminated(url)
      ensures |url| >= 7
    {}

    /** upnp_event_prepare(): the one place where a SEQ is put into a message. */
    method Prepare(obj: Notify, ok: bool, length: nat)
      requires Valid() && obj in notifies && obj.state == EConnecting
      modifies obj, SubOf(obj)`emitted
      ensures Valid()
      ensures obj.sub == old(obj.sub) && obj.open == old(obj.open)
      ensures obj.state == if obj.sub != null && ok then ESending else EError
      ensures obj.state == ESending ==> obj.sent == 0 && obj.tosend == length
      ensures obj.sub != null ==>
                obj.sub.emitted == old(obj.sub.emitted) + if ok then [obj.sub.seqNumber] else []
    {
      hide Distinct, Number, HostText, TargetPath, PathOffset, Terminated, Addressed, MessageTo;
      if obj.sub == null {
        obj.state := EError;
        return;
      }
      if !ok {
        obj.state := EError;
        return;
      }
      WriteMessage(obj, length);
    }

    /** The message is formatted, and is ready to be sent. */
    method WriteMessage(obj: Notify, length: nat)
      requires Valid() && obj in notifies && obj.state == EConnecting && obj.sub != null
      modifies obj, obj.sub`emitted
      ensures Valid()
      ensures obj.sub == old(obj.sub) && obj.open == old(obj.open)
      ensures obj.state == ESending && obj.sent == 0 && obj.tosend == length
      ensures obj.sub.emitted == old(obj.sub.emitted) + [obj.sub.seqNumber]
    {
      hide Distinct, Number, HostText, TargetPath, PathOffset, Terminated, Addressed, MessageTo;
      Format(obj, length);
      Emit(obj);
    }

    /** The text of the message. */
    method Format(obj: Notify, length: nat)
      requires Valid() && obj in notifies && obj.state == EConnecting && obj.sub != null
      modifies obj`msg, obj`sent, obj`tosend
      ensures Valid() && obj.sent == 0 && obj.tosend == length
      ensures |obj.sub.callback| >= 7 && obj.msg == MessageTo(obj.sub, obj.sub.seqNumber)
    {
      hide Distinct, Number, HostText, TargetPath, PathOffset, Terminated, Addressed, MessageTo;
      LinkedIs(obj);
      TerminatedIsLong(obj.sub.callback);
      MessageIs(obj, obj.sub, obj.sub.seqNumber);
      hide NotifyLinked, SubLinked, InStep;
      obj.msg := NotifyMessage(PathText(obj.path), obj.addrstr + obj.portstr, obj.sub.uuid, obj.sub.seqNumber);
      obj.sent, obj.tosend := 0, length;
      LinkedNow(obj);
    }

    /** From now on its number counts as given out. */
    method Emit(obj: Notify)
      requires Valid() && obj in notifies && obj.state == EConnecting && obj.sub != null
      requires |obj.sub.callback| >= 7 && obj.msg == MessageTo(obj.sub, obj.sub.seqNumber)
      modifies obj`state, obj.sub`emitted
      ensures Valid() && obj.state == ESending
      ensures obj.sub.emitted == old(obj.sub.emitted) + [obj.sub.seqNumber]
    {
      hide Distinct, Number, HostText, TargetPath, PathOffset, Terminated, Addressed, MessageTo;
      LinkedIs(obj);
      OthersApart(obj, obj.sub);
      assert obj.sub.seqNumber == Number(|obj.sub.emitted|);
      hide NotifyLinked, SubLinked, InStep;
      obj.sub.emitted := obj.sub.emitted + [obj.sub.seqNumber];
      obj.state := ESending;
      LinkedNow(obj);
      InStepNow(obj.sub);
    }

    lemma InStepNow(sub: Subscriber)
      requires sub.notify != null
      requires match sub.notify.state
        case ECreated | EConnecting | EFinished => sub.seqNumber == Number(|sub.emitted|)
        case ESending | EWaitingForResponse => |sub.emitted| > 0 && sub.seqNumber == Number(|sub.emitted| - 1)
        case EError => true
      ensures InStep(sub)
    {}

    lemma InStepIs(sub: Subscriber)
      requires InStep(sub) && sub.notify != null && sub.notify.state in {ESending, EWaitingForResponse}
      ensures |sub.emitted| > 0 && sub.seqNumber == Number(|sub.emitted| - 1)
    {}

    /** upnp_event_send(): the kernel takes at most what is offered. */
    method Send(obj: Notify, result: SendResult)
      requires Valid() && obj in notifies && obj.state == ESending
      modifies obj`state, obj`sent
      ensures Valid()
      ensures (obj.state, obj.sent) == AfterSend(old(obj.sent), obj.tosend, result)
    {
      hide Distinct, Counting, Number, HostText, TargetPath, PathOffset, Terminated, Addressed, MessageTo;
      var n := 0;
      match result {
        case SendFailed =>
          obj.state := EError;
          return;
        case SendWouldBlock =>
        case Sent(m) =>
          n := if m <= obj.tosend - obj.sent then m else obj.tosend - obj.sent;
      }
      Advance(obj, n);
    }

    /** `n` more bytes are sent. */
    method Advance(obj: Notify, n: nat)
      requires Valid() && obj in notifies && obj.state == ESending && obj.sent + n <= obj.tosend
      modifies obj`state, obj`sent
      ensures Valid() && obj.sent == old(obj.sent) + n
      ensures obj.state == if obj.sent == obj.tosend then EWaitingForResponse else ESending
    {
      hide Distinct, Counting, Number, HostText, TargetPath, PathOffset, Terminated, Addressed, MessageTo;
      obj.sent := obj.sent + n;
      if obj.sent == obj.tosend {
        obj.state := EWaitingForResponse;
      }
    }

    /** upnp_event_recv(): a response, whatever it says, confirms the number. */
    method Recv(obj: Notify, result: RecvResult)
      requires Valid() && obj in notifies && obj.state == EWaitingForResponse
      modifies obj`state, SubOf(obj)`seqNumber
      ensures Valid()
      ensures obj.state == AfterRecv(result)
      ensures obj.sub != null ==>
                obj.sub.seqNumber == if result.Received? then Add32(old(obj.sub.seqNumber), 1) else old(obj.sub.seqNumber)
    {
      hide Distinct, Counting, Add32, Number, HostText, TargetPath, PathOffset, Terminated, Addressed, MessageTo;
      if result.RecvFailed? {
        obj.state := EError;
        return;
      }
      if result.RecvWouldBlock? {
        return;
      }
      Finish(obj);
    }

    /** The response has come: the number is confirmed. */
    method Finish(obj: Notify)
      requires Valid() && obj in notifies && obj.state == EWaitingForResponse
      modifies obj`state, SubOf(obj)`seqNumber
      ensures Valid() && obj.state == EFinished
      ensures obj.sub != null ==> obj.sub.seqNumber == Add32(old(obj.sub.seqNumber), 1)
    {
      hide Distinct, Counting, Add32, Number, HostText, TargetPath, PathOffset, Terminated, Addressed, MessageTo;
      if obj.sub == null {
        obj.state := EFinished;
        return;
      }
      LinkedIs(obj);
      OthersApart(obj, obj.sub);
      InStepIs(obj.sub);
      CountOn(|obj.sub.emitted|);
      hide NotifyLinked, SubLinked, InStep;
      obj.state := EFinished;
      obj.sub.seqNumber := Add32(obj.sub.seqNumber, 1);
      LinkedNow(obj);
      InStepNow(obj.sub);
    }

    method Fail(obj: Notify)
      requires Valid() && obj in notifies
      modifies obj`state
      ensures Valid() && obj.state == EError
    {
      hide Distinct, Counting, Number, HostText, TargetPath, PathOffset, Terminated, Addressed, MessageTo;
      obj.state := EError;
    }

    method Close(obj: Notify)
      requires Valid() && obj in notifies
      modifies obj`open
      ensures Valid() && !obj.open
    {
      hide Distinct, Counting, Number, HostText, TargetPath, PathOffset, Terminated, Addressed, MessageTo;
      obj.open := false;
    }

    /** upnp_event_process_notify() */
    method ProcessNotify(obj: Notify, out: Outcome)
      requires Valid() && obj in notifies
      modifies obj, SubOf(obj)`emitted, SubOf(obj)`seqNumber
      ensures Valid()
      ensures obj.sub == old(obj.sub)
      ensures obj.state == Next(old(obj.state), old(obj.sub) != null, old(obj.sent), old(obj.tosend), out)
      ensures obj.sub != null && obj.sub.emitted != old(obj.sub.emitted) ==> old(obj.state) == EConnecting
    {
      hide Distinct, Counting, Number, Terminated, Addressed, MessageTo, InStep, SubLinked, NotifyLinked;
      match obj.state {
        case EConnecting =>
          if out.socketError {
            Fail(obj);
            return;
          }
          Prepare(obj, out.prepared, out.length);
          if obj.state == ESending {
            Send(obj, out.sent);
          }
        case ESending =>
          Send(obj, out.sent);
        case EWaitingForResponse =>
          Recv(obj, out.received);
        case EFinished =>
          Close(obj);
        case ECreated =>
        case EError =>
      }
    }

    /** upnpevents_selectfds(): new notifications connect; the result tells which ones wait to write
        and which to read. */
    method SelectFds(connected: Notify -> bool) returns (writers: set<Notify>, readers: set<Notify>)
      requires Valid()
      modifies notifies
      ensures Valid() && writers + readers <= (set obj | obj in notifies)
      ensures forall obj | obj in notifies ::
                && obj.sub == old(obj.sub) && obj.open == old(obj.open)
                && obj.state == if obj.open && old(obj.state) == ECreated
                                then (if obj.sub != null && connected(obj) then EConnecting else EError)
                                else old(obj.state)
      ensures forall obj | obj in notifies ::
                && (obj in writers <==> obj.open && obj.state in {EConnecting, ESending})
                && (obj in readers <==> obj.open && obj.state == EWaitingForResponse)
    {
      writers, readers := {}, {};
      var i := 0;
      while i < |notifies|
        invariant Valid() && 0 <= i <= |notifies|
        invariant forall obj | obj in notifies :: obj.sub == old(obj.sub) && obj.open == old(obj.open)
        invariant forall k | i <= k < |notifies| :: notifies[k].state == old(notifies[k].state)
        invariant forall k | 0 <= k < i ::
                    var obj := notifies[k];
                    && obj.state == (if obj.open && old(obj.state) == ECreated
                                     then (if obj.sub != null && connected(obj) then EConnecting else EError)
                                     else old(obj.state))
                    && (obj in writers <==> obj.open && obj.state in {EConnecting, ESending})
                    && (obj in readers <==> obj.open && obj.state == EWaitingForResponse)
        invariant forall obj | obj in writers + readers :: obj in notifies[..i]
      {
        var obj := notifies[i];
        assert notifies[..i + 1] == notifies[..i] + [obj];
        assert obj !in notifies[..i];
        if obj.open {
          if obj.state == ECreated {
            NotifyConnect(obj, connected(obj));
          }
          if obj.state == EConnecting || obj.state == ESending {
            writers := writers + {obj};
          } else if obj.state == EWaitingForResponse {
            readers := readers + {obj};
          }
        }
        i := i + 1;
      }
    }

    /** The first loop of upnpevents_processfds(). */
    method ProcessReady(ready: set<Notify>, outcome: Notify -> Outcome)
      requires Valid()
      modifies notifies, subscribers`emitted, subscribers`seqNumber
      ensures Valid()
      ensures forall obj | obj in notifies :: obj.sub == old(obj.sub)
      ensures forall obj | obj in notifies ::
                obj.state == if old(obj.open) && obj in ready
                             then Next(old(obj.state), obj.sub != null, old(obj.sent), old(obj.tosend), outcome(obj))
                             else old(obj.state)
    {
      var i := 0;
      while i < |notifies|
        invariant Valid() && 0 <= i <= |notifies|
        invariant forall obj | obj in notifies :: obj.sub == old(obj.sub)
        invariant forall k | i <= k < |notifies| ::
                    var obj := notifies[k];
                    && obj.open == old(obj.open) && obj.state == old(obj.state)
                    && obj.sent == old(obj.sent) && obj.tosend == old(obj.tosend)
        invariant forall k | 0 <= k < i ::
                    var obj := notifies[k];
                    obj.state == if old(obj.open) && obj in ready
                                 then Next(old(obj.state), obj.sub != null, old(obj.sent), old(obj.tosend), outcome(obj))
                                 else old(obj.state)
      {
        var obj := notifies[i];
        if obj.open && obj in ready {
          ProcessNotify(obj, outcome(obj));
        }
        i := i + 1;
      }
    }

    /** The end of one notification: it leaves its list, and after an error its subscriber goes too. */
    method Retire(obj: Notify)
      requires Valid() && obj in notifies && obj.state in {EError, EFinished}
      modifies this`notifies, this`subscribers, SubOf(obj)`notify
      ensures Valid() && notifies == Without<Notify>(old(notifies), obj)
      ensures obj.sub != null ==> obj.sub.notify == null
      ensures forall o | o in notifies :: o in old(notifies) && o != obj
      ensures forall o | o in old(notifies) && o != obj :: o in notifies
      ensures forall sub | sub in subscribers :: sub in old(subscribers)
      ensures forall sub | sub in old(subscribers) :: (sub in subscribers <==> !(obj.state == EError && sub == obj.sub))
      ensures subscribers == if obj.state == EError && obj.sub != null then Without<Subscriber>(old(subscribers), obj.sub)
                             else old(subscribers)
    {
      hide Counting, Without, Number, HostText, TargetPath, PathOffset, Terminated, Addressed, MessageTo;
      WithoutMembers<Notify>(notifies, obj);
      var sub := obj.sub;
      if sub != null {
        sub.notify := null;
      }
      if obj.state == EError && sub != null {
        WithoutMembers<Subscriber>(subscribers, sub);
        subscribers := Without<Subscriber>(subscribers, sub);
      }
      notifies := Without<Notify>(notifies, obj);
    }

    /** The second loop of upnpevents_processfds(): notifications that are done are retired. */
    method RetireDone()
      requires Valid()
      modifies this`notifies, this`subscribers, subscribers`notify
      ensures Valid()
      ensures forall obj | obj in notifies :: obj in old(notifies)
      ensures forall obj | obj in old(notifies) :: (obj in notifies <==> !Done(obj.state))
      ensures forall sub | sub in subscribers :: sub in old(subscribers)
      ensures forall sub | sub in old(subscribers) ::
                (sub in subscribers <==> !(old(sub.notify) != null && old(sub.notify).state == EError))
      ensures forall sub | sub in old(subscribers) ::
                sub.notify == if old(sub.notify) != null && Done(old(sub.notify).state) then null else old(sub.notify)
    {
      hide Counting, Without, Number, HostText, TargetPath, PathOffset, Terminated, Addressed, MessageTo;
      var list, i := notifies, 0;
      while i < |list|
        invariant Valid() && 0 <= i <= |list|
        invariant forall obj | obj in notifies :: obj in list
        invariant forall k | 0 <= k < i :: (list[k] in notifies <==> !Done(list[k].state))
        invariant forall k | i <= k < |list| :: list[k] in notifies
        invariant forall sub | sub in subscribers :: sub in old(subscribers)
        invariant forall sub | sub in old(subscribers) ::
                    if old(sub.notify) != null && old(sub.notify) !in notifies
                    then sub.notify == null && (sub in subscribers <==> old(sub.notify).state != EError)
                    else sub.notify == old(sub.notify) && sub in subscribers
      {
        var obj := list[i];
        if Done(obj.state) {
          Retire(obj);
        }
        i := i + 1;
      }
    }

    /** The third loop: subscriptions that ran out, unless a notification is still in flight. */
    method DropTimedOut(now: nat)
      requires Valid()
      modifies this`subscribers
      ensures Valid()
      ensures forall sub | sub in subscribers :: sub in old(subscribers)
      ensures forall sub | sub in old(subscribers) ::
                (sub in subscribers <==> !(sub.timeout != 0 && now > sub.timeout && sub.notify == null))
    {
      hide Counting, Without, Number, HostText, TargetPath, PathOffset, Terminated, Addressed, MessageTo;
      var list, i := subscribers, 0;
      while i < |list|
        invariant Valid() && 0 <= i <= |list|
        invariant forall sub | sub in subscribers :: sub in old(subscribers)
        invariant forall k | 0 <= k < i :: (list[k] in subscribers <==> !(list[k].timeout != 0 && now > list[k].timeout && list[k].notify == null))
        invariant forall k | i <= k < |list| :: list[k] in subscribers
      {
        var sub := list[i];
        if sub.timeout != 0 && now > sub.timeout && sub.notify == null {
          WithoutMembers<Subscriber>(subscribers, sub);
          FreeSubscriber(sub);
        }
        i := i + 1;
      }
    }

    /** upnpevents_processfds(): who stays. A subscriber leaves exactly if its notification failed, or
        if its subscription ran out and nothing is in flight any more. */
    method ProcessFds(ready: set<Notify>, outcome: Notify -> Outcome, now: nat)
      requires Valid()
      modifies this`notifies, this`subscribers, notifies, subscribers`emitted, subscribers`seqNumber, subscribers`notify
      ensures Valid()
      ensures forall obj | obj in notifies :: obj in old(notifies) && !Done(obj.state)
      ensures forall obj | obj in old(notifies) ::
                (obj in notifies <==> !Done(old(RoundState(obj, ready, outcome))))
      ensures forall sub | sub in old(subscribers) ::
                (sub in subscribers <==>
                 && !(old(sub.notify) != null && old(RoundState(sub.notify, ready, outcome)) == EError)
                 && !(sub.timeout != 0 && now > sub.timeout && (old(sub.notify) == null || Done(old(RoundState(sub.notify, ready, outcome))))))
    {
      ProcessReady(ready, outcome);
      RetireDone();
      DropTimedOut(now);
    }

    /** The state of a notification once the round has dealt with it. */
    ghost function RoundState(obj: Notify, ready: set<Notify>, outcome: Notify -> Outcome): NotifyState
      reads this, obj, notifies
      requires obj in notifies && obj.sent <= obj.tosend
    {
      if obj.open && obj in ready then Next(obj.state, obj.sub != null, obj.sent, obj.tosend, outcome(obj)) else obj.state
    }
  }

  /** At most one notification in flight for each subscriber, and both ends know of each other. */
  lemma OneInFlight(events: EventManager, a: Notify, b: Notify)
    requires events.Valid() && a in events.notifies && b in events.notifies
    requires a.sub != null && a.sub == b.sub
    ensures a == b && a.sub in events.subscribers && a.sub.notify == a
  {}

  predicate Done(state: NotifyState) {
    state == EError || state == EFinished
  }

  /** upnp_event_send() on values. */
  function AfterSend(sent: nat, tosend: nat, result: SendResult): (NotifyState, nat)
    requires sent <= tosend
  {
    match result
    case SendFailed => (EError, sent)
    case SendWouldBlock => (if sent == tosend then EWaitingForResponse else ESending, sent)
    case Sent(n) =>
      var sent' := if n <= tosend - sent then sent + n else tosend;
      (if sent' == tosend then EWaitingForResponse else ESending, sent')
  }

  function AfterRecv(result: RecvResult): NotifyState {
    match result
    case RecvFailed => EError
    case RecvWouldBlock => EWaitingForResponse
    case Received => EFinished
  }

  /** What one round makes of the state of a notification. */
  function Next(state: NotifyState, hasSub: bool, sent: nat, tosend: nat, out: Outcome): (next: NotifyState)
    requires sent <= tosend
    ensures state == EConnecting ==> next in {ESending, EWaitingForResponse, EError}
    ensures state == ESending ==> next in {ESending, EWaitingForResponse, EError}
    ensures state == EWaitingForResponse ==> next in {EWaitingForResponse, EFinished, EError}
    ensures !hasSub && state == EConnecting ==> next == EError
  {
    match state
    case EConnecting =>
      if out.socketError || !hasSub || !out.prepared then EError else AfterSend(0, out.length, out.sent).0
    case ESending => AfterSend(sent, tosend, out.sent).0
    case EWaitingForResponse => AfterRecv(out.received)
    case _ => state
  }

  /** What brings a notification into each state, in one round: it is sent once a connection stands and a
      message could be written; EAGAIN, EWOULDBLOCK and EINTR change nothing; a response ends it; and every
      other failure is an error. */
  lemma NextIsExact(state: NotifyState, hasSub: bool, sent: nat, tosend: nat, out: Outcome)
    requires sent <= tosend
    ensures var next, ready := Next(state, hasSub, sent, tosend, out), !out.socketError && hasSub && out.prepared;
            match state
            case EConnecting =>
              && (next == EError <==> !ready || out.sent.SendFailed?)
              && (next == EWaitingForResponse <==>
                  ready && ((out.sent.SendWouldBlock? && out.length == 0) || (out.sent.Sent? && out.sent.n >= out.length)))
              && (next == ESending <==>
                  ready && ((out.sent.SendWouldBlock? && out.length > 0) || (out.sent.Sent? && out.sent.n < out.length)))
            case ESending =>
              && (next == EError <==> out.sent.SendFailed?)
              && (next == EWaitingForResponse <==>
                  (out.sent.SendWouldBlock? && sent == tosend) || (out.sent.Sent? && out.sent.n >= tosend - sent))
              && (next == EError || next == EWaitingForResponse || next == ESending)
            case EWaitingForResponse =>
              && (next == EFinished <==> out.received.Received?)
              && (next == EError <==> out.received.RecvFailed?)
              && (next == EWaitingForResponse <==> out.received.RecvWouldBlock?)
            case _ => next == state
  {}
}
