/** upnphttp.c: one HTTP connection. The request arrives in pieces of any size, the SOAP action is
    executed once its body is complete, and the response leaves in pieces of any size. */
module Http {
  import opened Net
  import opened HttpHeaders

  /** enum httpStates */
  datatype HttpState = WaitingForRequest | WaitingForContent | SendingContinue | SendingAndClosing | ToDelete

  /** What recv() returns, what it fails with, and the close of the other end. */
  datatype Recv = Data(bytes: string) | TryAgain | Broken | Closed

  /** What send() returns: a number of bytes, or EINTR, EAGAIN or EWOULDBLOCK, or any other error. */
  datatype Answer = Accepted(n: nat) | Interrupted | WouldBlock | Failure

  /** What ExecuteSoapAction() is handed: the header block, the SOAPAction value, and the body. */
  datatype Handed = Handed(headers: string, action: string, body: string)

  /** The responses: to a SOAP action, to a POST without SOAPAction, to everything else, and the 100 Continue. */
  datatype Site = Site(soap: Handed -> string, badRequest: string, other: string -> string, goOn: string -> string)

  /** The connection: its request buffer, what the headers said, the response buffer and how much of it was
      sent, and whether it holds the final response; the actions executed, and what send() has accepted so
      far, of a 100 Continue and in all. */
  datatype Conn = Conn(state: HttpState, buf: string, contentOff: nat, contentLen: nat, headers: Headers,
                       res: string, sent: nat, answered: bool, handed: seq<Handed>, interim: string, wire: string)

  const NEW := Conn(WaitingForRequest, "", 0, 0, NO_HEADERS, "", 0, false, [], "", "")

  const RECV_SIZE := 2048

  // ---- sending ----

  function Min(a: nat, b: nat): nat { if a < b then a else b }

  /** Bytes accepted out of `left`, and whether the connection is then closed. */
  function Sending(left: nat, answers: seq<Answer>): (r: (nat, bool))
    ensures r.0 <= left
  {
    if left == 0 then (0, true)
    else if answers == [] then (0, false)
    else match answers[0]
      case Accepted(n) =>
        if n == 0 then (0, true)
        else
          var rest := Sending(left - Min(n, left), answers[1..]);
          (Min(n, left) + rest.0, rest.1)
      case Interrupted => Sending(left, answers[1..])
      case WouldBlock => (0, false)
      case Failure => (0, true)
  }

  /** What send() has accepted is what it accepted of a 100 Continue, and then the beginning of the final
      response; no 100 Continue is sent unless it is asked for, and none before the headers are complete. */
  predicate Sound(c: Conn) {
    && c.sent <= |c.res|
    && c.wire == c.interim + (if c.answered then c.res[..c.sent] else "")
    && (!c.answered ==> c.interim == c.res[..c.sent])
    && (c.interim != "" ==> c.headers.wantsContinue)
    && match c.state
       case WaitingForRequest => !c.answered && c.interim == ""
       case WaitingForContent => !c.answered
       case SendingContinue => !c.answered && c.headers.wantsContinue
       case SendingAndClosing => c.answered
       case ToDelete => true
  }

  /** The loop shared by SendResp_upnphttp() and SendRespAndClose_upnphttp(): what is sent. */
  function Transfer(c: Conn, n: nat): Conn
    requires c.sent + n <= |c.res|
  {
    c.(sent := c.sent + n, wire := c.wire + c.res[c.sent..c.sent + n])
  }

  /** SendRespAndClose_upnphttp() */
  function Send(c: Conn, answers: seq<Answer>): Conn
    requires c.sent <= |c.res|
  {
    var (n, close) := Sending(|c.res| - c.sent, answers);
    Transfer(c, n).(state := if close then ToDelete else SendingAndClosing)
  }

  /** SendResp_upnphttp() for a 100 Continue; it is taken for sent even after an error. */
  function SendContinue(c: Conn, answers: seq<Answer>): Conn
    requires c.sent <= |c.res|
  {
    var (n, finished) := Sending(|c.res| - c.sent, answers);
    Transfer(c, n).(state := if finished then WaitingForContent else SendingContinue,
                    interim := c.interim + c.res[c.sent..c.sent + n])
  }

  /** How many answers of send() come before one that stops the loop. */
  function Smooth(answers: seq<Answer>): (n: nat)
    ensures n <= |answers|
  {
    if answers != [] && (answers[0].Interrupted? || (answers[0].Accepted? && answers[0].n > 0)) then 1 + Smooth(answers[1..]) else 0
  }

  /** What they would accept if there were enough to send. */
  function Capacity(answers: seq<Answer>): nat {
    if answers == [] then 0 else (if answers[0].Accepted? then answers[0].n else 0) + Capacity(answers[1..])
  }

  /** As much is sent as is accepted before an answer stops the loop; the loop ends with everything sent or
      with an error, and goes on later if there are no more answers or send() would block. */
  lemma {:induction false} SendingIsExact(left: nat, answers: seq<Answer>)
    ensures var smooth, (n, finished) := Smooth(answers), Sending(left, answers);
            var capacity := Capacity(answers[..smooth]);
            && n == (if capacity < left then capacity else left)
            && (finished <==> capacity >= left || (smooth < |answers| && !answers[smooth].WouldBlock?))
  {
    if answers != [] && Smooth(answers) > 0 {
      var left' := if answers[0].Accepted? then left - Min(answers[0].n, left) else left;
      SendingIsExact(left', answers[1..]);
      assert answers[..Smooth(answers)][1..] == answers[1..][..Smooth(answers) - 1];
    }
  }

  // ---- receiving ----

  function Respond(c: Conn, response: string, answers: seq<Answer>): Conn {
    Send(c.(res := response, sent := 0, answered := true), answers)
  }

  predicate Shaped(c: Conn) {
    c.contentOff <= |c.buf| && InBounds(c.buf, c.headers)
  }

  /** The value of the SOAPAction header. */
  function ActionOf(s: string, h: Headers): string
    requires InBounds(s, h) && h.soapAction.Some?
  {
    var (off, len) := h.soapAction.value;
    if len < 0 then "" else s[off..off + len]
  }

  function HandedBy(c: Conn): Handed
    requires Shaped(c) && c.headers.soapAction.Some? && c.contentOff + c.contentLen <= |c.buf|
  {
    Handed(c.buf[..c.contentOff], ActionOf(c.buf, c.headers), c.buf[c.contentOff..c.contentOff + c.contentLen])
  }

  /** ProcessHTTPPOST_upnphttp() */
  function Post(site: Site, c: Conn, answers: seq<Answer>): Conn
    requires Shaped(c)
  {
    if |c.buf| - c.contentOff >= c.contentLen then
      if c.headers.soapAction.Some? then
        Respond(c.(handed := c.handed + [HandedBy(c)]), site.soap(HandedBy(c)), answers)
      else Respond(c, site.badRequest, answers)
    else if c.headers.wantsContinue then SendContinue(c.(res := site.goOn(c.buf[..c.contentOff]), sent := 0), answers)
    else c.(state := WaitingForContent)
  }

  /** The command is POST. */
  predicate IsPost(s: string) {
    |s| > 4 && s[..4] == "POST" && (s[4] == ' ' || s[4] == '\r')
  }

  predicate AddressChar(c: char) { c == ':' || c == '.' || IsDigit(c) }

  /** A Host that is no address is refused. */
  predicate HostRefused(s: string, host: Option<(nat, nat)>)
    requires host.Some? ==> host.value.0 + host.value.1 <= |s|
  {
    match host
    case None => false
    case Some((off, len)) =>
      off > 0 && len > 0
      && if s[off] == '[' then ']' !in s[off + 1..off + len] else exists i :: off <= i < off + len && !AddressChar(s[i])
  }

  /** ProcessHttpQuery_upnphttp() */
  function Query(site: Site, c: Conn, off: nat, answers: seq<Answer>): Conn
    requires Shaped(c) && off <= |c.buf|
  {
    var h := Parsed(c.buf, off);
    ParsedInBounds(c.buf, off);
    var c1 := c.(contentOff := off, headers := h, contentLen := Length(c.buf, h));
    if HostRefused(c.buf, h.host) || !IsPost(c.buf) then Respond(c1, site.other(c.buf[..off]), answers)
    else Post(site, c1, answers)
  }

  /** Where the first CR LF CR LF is. */
  function EndOf(s: string, i: nat): (r: Option<nat>)
    requires forall j: nat | j < i :: !EndHere(s, j)
    ensures r.Some? ==> FirstEnd(s, r.value)
    ensures r.None? ==> NoEnd(s)
    decreases |s| - i
  {
    if EndHere(s, i) then Some(i) else if i + 4 >= |s| then None else EndOf(s, i + 1)
  }

  /** An event on the socket: what recv() gives, and how send() then answers. */
  datatype Event = Event(recv: Recv, answers: seq<Answer>)

  /** Process_upnphttp() */
  function Next(site: Site, c: Conn, ev: Event): Conn
    requires Shaped(c) && Sound(c)
  {
    match c.state
    case WaitingForRequest =>
      (match ev.recv
       case Data(bytes) =>
         var c1 := c.(buf := c.buf + bytes);
         var end := EndOf(c1.buf, 0);
         if end.Some? then Query(site, c1, end.value + 4, ev.answers) else c1
       case TryAgain => c
       case Broken => c.(state := ToDelete)
       case Closed => c.(state := ToDelete))
    case WaitingForContent =>
      (match ev.recv
       case Data(bytes) =>
         var c1 := c.(buf := c.buf + bytes);
         if |c1.buf| - c1.contentOff >= c1.contentLen then Post(site, c1, ev.answers) else c1
       case TryAgain => c
       case Broken => c.(state := ToDelete)
       case Closed => c.(state := ToDelete))
    case SendingContinue => SendContinue(c, ev.answers)
    case SendingAndClosing => Send(c, ev.answers)
    case ToDelete => c
  }

  lemma BoundsGrow(s: string, t: string, h: Headers)
    requires InBounds(s, h)
    ensures InBounds(s + t, h)
  {}

  lemma TransferJoins(c: Conn, n: nat)
    requires c.sent + n <= |c.res|
    ensures c.res[..c.sent] + c.res[c.sent..c.sent + n] == c.res[..c.sent + n]
  {}

  lemma SendKeeps(c: Conn, answers: seq<Answer>)
    requires Sound(c) && c.answered
    ensures Sound(Send(c, answers))
  {
    hide Sending;
    var (n, close) := Sending(|c.res| - c.sent, answers);
    TransferJoins(c, n);
    assert c.interim + c.res[..c.sent] + c.res[c.sent..c.sent + n] == c.interim + (c.res[..c.sent] + c.res[c.sent..c.sent + n]);
  }

  lemma ContinueKeeps(c: Conn, answers: seq<Answer>)
    requires Sound(c) && !c.answered && c.headers.wantsContinue
    ensures Sound(SendContinue(c, answers))
  {
    hide Sending;
    var (n, finished) := Sending(|c.res| - c.sent, answers);
    TransferJoins(c, n);
    assert c.interim + "" == c.interim;
  }

  /** A final response can be built once, and only it is sent then. */
  lemma RespondKeeps(c: Conn, response: string, answers: seq<Answer>)
    requires Sound(c) && !c.answered
    ensures Sound(Respond(c, response, answers))
  {
    hide Send;
    var c1 := c.(state := SendingAndClosing, res := response, sent := 0, answered := true);
    assert c.interim + response[..0] == c.interim + "";
    SendKeeps(c1, answers);
    SendFromState(c.(res := response, sent := 0, answered := true), SendingAndClosing, answers);
  }

  lemma SendFromState(c: Conn, state: HttpState, answers: seq<Answer>)
    requires c.sent <= |c.res|
    ensures Send(c.(state := state), answers) == Send(c, answers)
  {}

  lemma ContinueFromState(c: Conn, state: HttpState, answers: seq<Answer>)
    requires c.sent <= |c.res|
    ensures SendContinue(c.(state := state), answers) == SendContinue(c, answers)
  {}

  lemma PostKeeps(site: Site, c: Conn, answers: seq<Answer>)
    requires Shaped(c) && Sound(c) && !c.answered
    requires |c.buf| - c.contentOff >= c.contentLen || c.interim == ""
    ensures Shaped(Post(site, c, answers)) && Sound(Post(site, c, answers))
  {
    hide InBounds, ActionOf, Send, SendContinue;
    if |c.buf| - c.contentOff >= c.contentLen {
      RespondKeeps(c, site.badRequest, answers);
      SendShape(c.(res := site.badRequest, sent := 0, answered := true), answers);
      if c.headers.soapAction.Some? {
        var c1 := c.(handed := c.handed + [HandedBy(c)]);
        RespondKeeps(c1, site.soap(HandedBy(c)), answers);
        SendShape(c1.(res := site.soap(HandedBy(c)), sent := 0, answered := true), answers);
      }
    } else if c.headers.wantsContinue {
      var c1 := c.(res := site.goOn(c.buf[..c.contentOff]), sent := 0);
      ContinueFromState(c1, SendingContinue, answers);
      ContinueKeeps(c1.(state := SendingContinue), answers);
      ContinueShape(c1, answers);
    }
  }

  lemma QueryKeeps(site: Site, c: Conn, off: nat, answers: seq<Answer>)
    requires Shaped(c) && Sound(c) && c.state.WaitingForRequest? && off <= |c.buf|
    ensures Shaped(Query(site, c, off, answers)) && Sound(Query(site, c, off, answers))
  {
    hide InBounds, Parsed, Length, HostRefused, IsPost, Send, Post;
    var h := Parsed(c.buf, off);
    ParsedInBounds(c.buf, off);
    var c1 := c.(contentOff := off, headers := h, contentLen := Length(c.buf, h));
    PostKeeps(site, c1, answers);
    RespondKeeps(c1, site.other(c.buf[..off]), answers);
    SendShape(c1.(res := site.other(c.buf[..off]), sent := 0, answered := true), answers);
  }

  lemma SendShape(c: Conn, answers: seq<Answer>)
    requires c.sent <= |c.res|
    ensures var c' := Send(c, answers);
            c' == c.(state := c'.state, sent := c'.sent, wire := c'.wire) && (c'.state.ToDelete? || c'.state.SendingAndClosing?)
  {}

  lemma ContinueShape(c: Conn, answers: seq<Answer>)
    requires c.sent <= |c.res|
    ensures var c' := SendContinue(c, answers);
            c' == c.(state := c'.state, sent := c'.sent, interim := c'.interim, wire := c'.wire)
            && (c'.state.WaitingForContent? || c'.state.SendingContinue?)
  {}

  lemma NextKeeps(site: Site, c: Conn, ev: Event)
    requires Shaped(c) && Sound(c)
    ensures Shaped(Next(site, c, ev)) && Sound(Next(site, c, ev))
  {
    hide InBounds, Query, Post, Send, SendContinue, EndOf, EndHere;
    if ev.recv.Data? {
      var c1 := c.(buf := c.buf + ev.recv.bytes);
      BoundsGrow(c.buf, ev.recv.bytes, c.headers);
      if c.state.WaitingForRequest? {
        var end := EndOf(c1.buf, 0);
        if end.Some? {
          EndInside(c1.buf, end.value);
          QueryKeeps(site, c1, end.value + 4, ev.answers);
        }
      } else if c.state.WaitingForContent? && |c1.buf| - c1.contentOff >= c1.contentLen {
        PostKeeps(site, c1, ev.answers);
      }
    }
    if c.state.SendingAndClosing? {
      SendKeeps(c, ev.answers);
      SendShape(c, ev.answers);
    } else if c.state.SendingContinue? {
      ContinueKeeps(c, ev.answers);
      ContinueShape(c, ev.answers);
    }
  }

  lemma EndInside(s: string, i: nat)
    requires EndHere(s, i)
    ensures i + 4 <= |s|
  {}

  // ---- the code ----

  /** struct upnphttp */
  class Connection {
    var state: HttpState
    var reqBuf: string
    var contentOff: nat
    var contentLen: nat
    var headers: Headers
    var resBuf: string
    var resSent: nat
    ghost var answered: bool
    ghost var handed: seq<Handed>
    ghost var interim: string
    ghost var wire: string

    ghost function State(): Conn
      reads this
    {
      Conn(state, reqBuf, contentOff, contentLen, headers, resBuf, resSent, answered, handed, interim, wire)
    }

    ghost predicate Valid()
      reads this
    {
      Shaped(State()) && Sound(State())
    }

    /** New_upnphttp() */
    constructor ()
      ensures Valid() && State() == NEW
    {
      state, reqBuf, contentOff, contentLen, headers := WaitingForRequest, "", 0, 0, NO_HEADERS;
      resBuf, resSent, answered, handed, interim, wire := "", 0, false, [], "", "";
    }

    /** The sending loop; the calls of send() answer one after the other, and would block once the answers
        are used up. `finished` is false if it would block. */
    method SendBytes(answers: seq<Answer>) returns (finished: bool)
      requires resSent <= |resBuf|
      modifies this`resSent, this`wire
      ensures var (n, f) := Sending(|resBuf| - old(resSent), answers);
              old(resSent) + n <= |resBuf| && State() == Transfer(old(State()), n) && finished == f
    {
      hide Sending, Min;
      ghost var sent0, wire0 := resSent, wire;
      ghost var all := Sending(|resBuf| - resSent, answers);
      var k := 0;
      assert answers[0..] == answers;
      while resSent < |resBuf|
        invariant k <= |answers| && sent0 <= resSent <= |resBuf|
        invariant wire == wire0 + resBuf[sent0..resSent]
        invariant all.0 == resSent - sent0 + Sending(|resBuf| - resSent, answers[k..]).0
        invariant all.1 == Sending(|resBuf| - resSent, answers[k..]).1
        decreases |answers| - k
      {
        SendingStep(|resBuf| - resSent, answers[k..]);
        if k == |answers| {
          return false;
        }
        var a := answers[k];
        assert answers[k..][0] == a && answers[k..][1..] == answers[k + 1..];
        k := k + 1;
        match a {
          case Accepted(n) =>
            if n == 0 {
              return true;
            }
            Advance(Min(n, |resBuf| - resSent), sent0, wire0);
          case Interrupted =>
          case WouldBlock =>
            return false;
          case Failure =>
            return true;
        }
      }
      SendingStep(|resBuf| - resSent, answers[k..]);
      return true;
    }

    /** send() has accepted `m` more bytes. */
    method Advance(m: nat, ghost sent0: nat, ghost wire0: string)
      requires sent0 <= resSent && resSent + m <= |resBuf| && wire == wire0 + resBuf[sent0..resSent]
      modifies this`resSent, this`wire
      ensures resSent == old(resSent) + m && wire == wire0 + resBuf[sent0..resSent]
    {
      SliceJoin(wire0, resBuf, sent0, resSent, resSent + m);
      wire := wire + resBuf[resSent..resSent + m];
      resSent := resSent + m;
    }

    /** SendRespAndClose_upnphttp() */
    method SendRespAndClose(answers: seq<Answer>)
      requires resSent <= |resBuf|
      modifies this`state, this`resSent, this`wire
      ensures State() == Send(old(State()), answers)
    {
      hide Sending;
      var finished := SendBytes(answers);
      state := if finished then ToDelete else SendingAndClosing;
    }

    /** SendResp_upnphttp(), and what its callers do with the result. */
    method SendResp(answers: seq<Answer>)
      requires resSent <= |resBuf|
      modifies this`state, this`resSent, this`wire, this`interim
      ensures State() == SendContinue(old(State()), answers)
    {
      hide Sending;
      ghost var sent0 := resSent;
      var finished := SendBytes(answers);
      interim := interim + resBuf[sent0..resSent];
      state := if finished then WaitingForContent else SendingContinue;
    }

    /** BuildResp2_upnphttp() and SendRespAndClose_upnphttp() */
    method Answer(response: string, answers: seq<Answer>)
      modifies this`state, this`resBuf, this`resSent, this`wire, this`answered
      ensures State() == Respond(old(State()), response, answers)
    {
      hide Sending, Send;
      resBuf, resSent, answered := response, 0, true;
      SendRespAndClose(answers);
    }

    /** ProcessHTTPPOST_upnphttp() */
    method ProcessHTTPPOST(site: Site, answers: seq<Answer>)
      requires Valid() && !answered && (|reqBuf| - contentOff >= contentLen || interim == "")
      modifies this`state, this`resBuf, this`resSent, this`wire, this`handed, this`answered, this`interim
      ensures Valid() && State() == Post(site, old(State()), answers)
    {
      hide Sending, InBounds, Send, SendContinue, Sound;
      PostKeeps(site, State(), answers);
      if |reqBuf| - contentOff >= contentLen {
        if headers.soapAction.Some? {
          var action := Handed(reqBuf[..contentOff], ActionOf(reqBuf, headers), reqBuf[contentOff..contentOff + contentLen]);
          handed := handed + [action];
          Answer(site.soap(action), answers);
        } else {
          Answer(site.badRequest, answers);
        }
      } else if headers.wantsContinue {
        resBuf, resSent := site.goOn(reqBuf[..contentOff]), 0;
        SendResp(answers);
      } else {
        state := WaitingForContent;
      }
    }

    /** ProcessHttpQuery_upnphttp() */
    method ProcessHttpQuery(site: Site, answers: seq<Answer>)
      requires Valid() && state.WaitingForRequest? && 4 <= contentOff && FirstEnd(reqBuf, contentOff - 4)
      modifies this
      ensures Valid() && State() == Query(site, old(State()), old(contentOff), answers)
    {
      hide Sending, InBounds, Send, Parsed, Length, HostRefused, IsPost, EndHere;
      QueryKeeps(site, State(), contentOff, answers);
      headers := ParseHttpHeaders(reqBuf, contentOff);
      ParsedInBounds(reqBuf, contentOff);
      contentLen := Length(reqBuf, headers);
      BoundsGiveHost(reqBuf, headers);
      if HostRefused(reqBuf, headers.host) || !IsPost(reqBuf) {
        Answer(site.other(reqBuf[..contentOff]), answers);
      } else {
        ProcessHTTPPOST(site, answers);
      }
    }

    /** Process_upnphttp(); `ev` holds what recv() and send() do. */
    method Process(site: Site, ev: Event)
      requires Valid()
      modifies this
      ensures Valid() && State() == Next(site, old(State()), ev)
    {
      hide Sending, InBounds, Send, Query, Post, EndHere;
      NextKeeps(site, State(), ev);
      match state {
        case WaitingForRequest =>
          match ev.recv {
            case TryAgain =>
            case Broken => state := ToDelete;
            case Closed => state := ToDelete;
            case Data(bytes) =>
              BoundsGrow(reqBuf, bytes, headers);
              reqBuf := reqBuf + bytes;
              var endHeaders := FindEndHeaders(reqBuf);
              EndIsUnique(reqBuf, endHeaders);
              if endHeaders.Some? {
                EndInside(reqBuf, endHeaders.value);
                QueryIgnoresOffset(site, State(), endHeaders.value + 4, ev.answers);
                contentOff := endHeaders.value + 4;
                ProcessHttpQuery(site, ev.answers);
              }
          }
        case WaitingForContent =>
          match ev.recv {
            case TryAgain =>
            case Broken => state := ToDelete;
            case Closed => state := ToDelete;
            case Data(bytes) =>
              BoundsGrow(reqBuf, bytes, headers);
              reqBuf := reqBuf + bytes;
              if |reqBuf| - contentOff >= contentLen {
                ProcessHTTPPOST(site, ev.answers);
              }
          }
        case SendingContinue => SendResp(ev.answers);
        case SendingAndClosing => SendRespAndClose(ev.answers);
        case ToDelete =>
      }
    }
  }

  lemma BoundsGiveHost(s: string, h: Headers)
    requires InBounds(s, h)
    ensures h.host.Some? ==> h.host.value.0 + h.host.value.1 <= |s|
  {}

  /** One turn of the sending loop. */
  lemma SendingStep(left: nat, answers: seq<Answer>)
    ensures left == 0 ==> Sending(left, answers) == (0, true)
    ensures left > 0 && answers == [] ==> Sending(left, answers) == (0, false)
    ensures left > 0 && answers != [] ==>
              match answers[0]
              case Interrupted => Sending(left, answers) == Sending(left, answers[1..])
              case WouldBlock => Sending(left, answers) == (0, false)
              case Failure => Sending(left, answers) == (0, true)
              case Accepted(n) =>
                if n == 0 then Sending(left, answers) == (0, true)
                else
                  var rest := Sending(left - Min(n, left), answers[1..]);
                  Sending(left, answers) == (Min(n, left) + rest.0, rest.1)
  {}

  lemma SliceJoin(w: string, s: string, i: nat, j: nat, k: nat)
    requires i <= j <= k <= |s|
    ensures w + s[i..j] + s[j..k] == w + s[i..k]
  {
    assert s[i..j] + s[j..k] == s[i..k];
    assert w + s[i..j] + s[j..k] == w + (s[i..j] + s[j..k]);
  }

  lemma EndIsUnique(s: string, r: Option<nat>)
    requires (r.Some? ==> FirstEnd(s, r.value)) && (r.None? ==> NoEnd(s))
    ensures EndOf(s, 0) == r
  {
    hide EndHere;
    var e := EndOf(s, 0);
    if e.Some? && r.Some? {
      assert EndHere(s, e.value) && EndHere(s, r.value);
    }
  }

  lemma QueryIgnoresOffset(site: Site, c: Conn, off: nat, answers: seq<Answer>)
    requires Shaped(c) && off <= |c.buf|
    ensures Query(site, c.(contentOff := off), off, answers) == Query(site, c, off, answers)
  {}

  // ---- whole connections ----

  function After(site: Site, evs: seq<Event>): (c: Conn)
    ensures Shaped(c) && Sound(c)
  {
    if evs == [] then NEW
    else
      var c0 := After(site, evs[..|evs| - 1]);
      NextKeeps(site, c0, evs[|evs| - 1]);
      Next(site, c0, evs[|evs| - 1])
  }

  /** The other end neither closes the connection nor breaks it; a read gives at most 2048 bytes. */
  predicate Reads(ev: Event) {
    ev.recv.TryAgain? || (ev.recv.Data? && 1 <= |ev.recv.bytes| <= RECV_SIZE)
  }

  ghost predicate AllRead(evs: seq<Event>) {
    forall ev | ev in evs :: Reads(ev)
  }

  function BytesOf(ev: Event): string {
    if ev.recv.Data? then ev.recv.bytes else ""
  }

  /** The bytes that arrived. */
  function Stream(evs: seq<Event>): string {
    if evs == [] then "" else Stream(evs[..|evs| - 1]) + BytesOf(evs[|evs| - 1])
  }

  /** A POST with a SOAPAction, to an address. */
  ghost predicate SoapRequest(b: string) {
    && Block(b) && IsPost(b)
    && InBounds(b, Parsed(b, |b|))
    && !HostRefused(b, Parsed(b, |b|).host)
    && Parsed(b, |b|).soapAction.Some?
  }

  /** If the request asks for a 100 Continue, send() does not block on it. */
  predicate GoesOn(site: Site, b: string, answers: seq<Answer>) {
    Parsed(b, |b|).wantsContinue ==> Sending(|site.goOn(b)|, answers).1
  }

  ghost predicate AllGoOn(site: Site, b: string, evs: seq<Event>) {
    forall ev | ev in evs :: GoesOn(site, b, ev.answers)
  }

  /** The length of the body as the header block gives it. */
  function BodyLength(b: string): nat {
    Length(b, Parsed(b, |b|))
  }

  function SoapCall(b: string, body: string): Handed
    requires InBounds(b, Parsed(b, |b|)) && Parsed(b, |b|).soapAction.Some?
  {
    Handed(b, ActionOf(b, Parsed(b, |b|)), body)
  }

  /** The header block `b` and then `t` have arrived, and the body was taken to be `n` bytes long. */
  ghost predicate Past(site: Site, c: Conn, b: string, t: string, n: nat)
    requires SoapRequest(b)
  {
    if |t| >= n then
      var call := SoapCall(b, t[..n]);
      c.handed == [call] && c.res == site.soap(call) && c.answered && (c.state.SendingAndClosing? || c.state.ToDelete?)
    else
      c.handed == [] && c.state.WaitingForContent? && c.buf == b + t
      && c.contentOff == |b| && c.contentLen == n && c.headers == Parsed(b, |b|)
  }

  lemma NoEndBefore(s: string, t: string)
    requires NoEnd(s + t)
    ensures NoEnd(s)
  {
    forall j: nat ensures !EndHere(s, j) {
      assert !EndHere(s + t, j);
    }
  }

  /** Until the headers are complete the bytes are collected. */
  lemma {:induction false} StillReading(site: Site, evs: seq<Event>)
    requires AllRead(evs) && NoEnd(Stream(evs))
    ensures After(site, evs) == NEW.(buf := Stream(evs))
  {
    hide NoEnd, Query, EndHere;
    if evs != [] {
      var front, ev := evs[..|evs| - 1], evs[|evs| - 1];
      assert ev in evs && AllRead(front);
      NoEndBefore(Stream(front), BytesOf(ev));
      StillReading(site, front);
      if ev.recv.Data? {
        EndIsUnique(Stream(evs), None);
      } else {
        assert Stream(evs) == Stream(front);
      }
    }
  }

  lemma SameAction(b: string, t: string, h: Headers)
    requires InBounds(b, h) && h.soapAction.Some?
    ensures InBounds(b + t, h) && ActionOf(b + t, h) == ActionOf(b, h)
  {
    var (off, len) := h.soapAction.value;
    if len >= 0 {
      assert (b + t)[off..off + len] == b[off..off + len];
    }
  }

  /** ProcessHTTPPOST_upnphttp() with the block complete and `t` received. */
  lemma PostPasses(site: Site, c: Conn, b: string, t: string, answers: seq<Answer>)
    requires SoapRequest(b) && Shaped(c) && Sound(c)
    requires c.buf == b + t && c.contentOff == |b| && c.headers == Parsed(b, |b|) && c.handed == []
    requires GoesOn(site, b, answers)
    ensures Past(site, Post(site, c, answers), b, t, c.contentLen)
  {
    hide Parsed, Block, IsPost, HostRefused, Send;
    SameAction(b, t, Parsed(b, |b|));
    if |t| >= c.contentLen {
      assert (b + t)[..|b|] == b && (b + t)[|b|..|b| + c.contentLen] == t[..c.contentLen];
      SendShape(c.(handed := [HandedBy(c)], res := site.soap(HandedBy(c)), sent := 0, answered := true), answers);
      assert [] + [HandedBy(c)] == [HandedBy(c)];
    } else {
      assert c.buf[..|b|] == b;
    }
  }

  lemma SameRequest(b: string, t: string)
    requires SoapRequest(b)
    ensures IsPost(b + t) && InBounds(b + t, Parsed(b, |b|)) && !HostRefused(b + t, Parsed(b, |b|).host)
  {
    hide Parsed;
    var h := Parsed(b, |b|);
    assert (b + t)[..4] == b[..4];
    if h.host.Some? {
      var (off, len) := h.host.value;
      assert forall i | 0 <= i < |b| :: (b + t)[i] == b[i];
      if len > 0 {
        assert (b + t)[off + 1..off + len] == b[off + 1..off + len];
      }
    }
  }

  /** The piece that completes the headers settles the length of the body. */
  lemma HeadersArrive(site: Site, evs: seq<Event>, b: string, t: string)
    requires evs != [] && AllRead(evs) && SoapRequest(b) && AllGoOn(site, b, evs)
    requires Stream(evs) == b + t && NoEnd(Stream(evs[..|evs| - 1]))
    ensures |t| < RECV_SIZE && Past(site, After(site, evs), b, t, Length(b + t, Parsed(b, |b|)))
  {
    hide Query, EndHere, NoEnd, Past, Parsed, IsPost, HostRefused, InBounds, Post, Next, EndOf, GoesOn, Length;
    var front, ev := evs[..|evs| - 1], evs[|evs| - 1];
    assert ev in evs && AllRead(front);
    StillReading(site, front);
    BlockStays(b, t);
    PieceIsLong(Stream(front), BytesOf(ev), b, t);
    EndIsUnique(b + t, Some(|b| - 4));
    NewIsShaped(b + t);
    NewIsShaped(Stream(front));
    RequestCompletes(site, NEW.(buf := Stream(front)), ev, |b| - 4);
    QueryPasses(site, NEW.(buf := b + t), b, t, ev.answers);
  }

  lemma NewIsShaped(s: string)
    ensures Shaped(NEW.(buf := s)) && Sound(NEW.(buf := s))
  {}

  lemma RequestCompletes(site: Site, c: Conn, ev: Event, end: nat)
    requires Shaped(c) && Sound(c) && c.state.WaitingForRequest? && ev.recv.Data?
    requires EndOf(c.buf + ev.recv.bytes, 0) == Some(end)
    ensures end + 4 <= |c.buf + ev.recv.bytes| && Shaped(c.(buf := c.buf + ev.recv.bytes))
    ensures Next(site, c, ev) == Query(site, c.(buf := c.buf + ev.recv.bytes), end + 4, ev.answers)
  {
    hide Query;
    BoundsGrow(c.buf, ev.recv.bytes, c.headers);
    EndInside(c.buf + ev.recv.bytes, end);
  }

  lemma PieceIsLong(front: string, piece: string, b: string, t: string)
    requires Block(b) && front + piece == b + t && NoEnd(front)
    ensures |front| < |b| && |t| < |piece|
  {
    EndWithin(front, piece, b, t);
  }

  lemma EndWithin(front: string, piece: string, b: string, t: string)
    requires Block(b) && front + piece == b + t
    ensures |front| >= |b| ==> EndHere(front, |b| - 4)
  {
    if |front| >= |b| {
      assert front[..|b|] == (front + piece)[..|b|] == b;
      assert forall k | 0 <= k < |b| :: front[k] == front[..|b|][k];
    }
  }

  lemma QueryPasses(site: Site, c: Conn, b: string, t: string, answers: seq<Answer>)
    requires SoapRequest(b) && Shaped(c) && Sound(c) && c.state.WaitingForRequest? && c.buf == b + t && c.handed == []
    requires GoesOn(site, b, answers)
    ensures Past(site, Query(site, c, |b|, answers), b, t, Length(b + t, Parsed(b, |b|)))
  {
    hide Parsed, IsPost, HostRefused, InBounds, Post, Past, Length, GoesOn;
    HeadersAreLocal(b, t);
    SameRequest(b, t);
    var h := Parsed(b, |b|);
    PostPasses(site, c.(contentOff := |b|, headers := h, contentLen := Length(b + t, h)), b, t, answers);
  }

  /** Each further piece is one more part of the body, or comes too late to matter. */
  lemma ContentArrives(site: Site, c: Conn, ev: Event, b: string, t: string, n: nat)
    requires SoapRequest(b) && Shaped(c) && Sound(c) && Reads(ev) && Past(site, c, b, t, n) && GoesOn(site, b, ev.answers)
    ensures Past(site, Next(site, c, ev), b, t + BytesOf(ev), n)
  {
    hide Parsed, IsPost, HostRefused, InBounds, Post, Send, Block;
    if |t| >= n {
      assert (t + BytesOf(ev))[..n] == t[..n];
      SendShape(c, ev.answers);
    } else if ev.recv.Data? {
      BoundsGrow(c.buf, ev.recv.bytes, c.headers);
      var c1 := c.(buf := c.buf + ev.recv.bytes);
      assert c1.buf == b + (t + BytesOf(ev));
      PostPasses(site, c1, b, t + BytesOf(ev), ev.answers);
    } else {
      assert t + BytesOf(ev) == t;
    }
  }

  lemma {:induction false} StreamAppend(a: seq<Event>, b: seq<Event>)
    ensures Stream(a + b) == Stream(a) + Stream(b)
  {
    if b == [] {
      assert a + b == a;
    } else {
      assert (a + b)[..|a + b| - 1] == a + b[..|b| - 1];
      StreamAppend(a, b[..|b| - 1]);
    }
  }

  lemma {:induction false} RestArrives(site: Site, evs: seq<Event>, more: seq<Event>, b: string, t: string, n: nat)
    requires SoapRequest(b) && AllRead(more) && Past(site, After(site, evs), b, t, n) && AllGoOn(site, b, more)
    ensures Past(site, After(site, evs + more), b, t + Stream(more), n)
    decreases |more|
  {
    hide Past, SoapRequest, Next;
    if more == [] {
      assert evs + more == evs && t + Stream(more) == t;
    } else {
      var front, ev := more[..|more| - 1], more[|more| - 1];
      assert ev in more && AllRead(front);
      RestArrives(site, evs, front, b, t, n);
      assert (evs + more)[..|evs + more| - 1] == evs + front;
      ContentArrives(site, After(site, evs + front), ev, b, t + Stream(front), n);
      assert t + Stream(front) + BytesOf(ev) == t + Stream(more);
    }
  }

  // ---- the way the stream is cut ----

  /** The length of the body does not depend on how much of it arrives with the headers: the
      Content-Length has a number, or what is read from the body instead is never more than 0. */
  ghost predicate Steady(b: string, t: string) {
    Spills(b) ==> forall k | 0 <= k <= |t| && k < RECV_SIZE :: NumberAt(t[..k], 0) == 0
  }

  /** However the stream is cut, the same header block and body are handed to ExecuteSoapAction, once, by the
      first piece that completes the body, and what it gives back is the response. */
  lemma {:induction false} SoapActionRunsOnce(site: Site, evs: seq<Event>, b: string, t: string)
    requires AllRead(evs) && AllGoOn(site, b, evs) && SoapRequest(b) && Stream(evs) == b + t && Steady(b, t)
    ensures After(site, evs).handed == if |t| >= BodyLength(b) then [SoapCall(b, t[..BodyLength(b)])] else []
    ensures |t| >= BodyLength(b) ==>
              After(site, evs).answered && After(site, evs).res == site.soap(SoapCall(b, t[..BodyLength(b)]))
  {
    hide Parsed, Steady, SoapRequest, IsPost, HostRefused, NumberAt;
    CutAnywhere(site, evs, b, t);
  }

  lemma {:induction false} CutAnywhere(site: Site, evs: seq<Event>, b: string, t: string)
    requires AllRead(evs) && AllGoOn(site, b, evs) && SoapRequest(b) && Stream(evs) == b + t && Steady(b, t)
    ensures Past(site, After(site, evs), b, t, BodyLength(b))
    decreases |evs|
  {
    hide Past, Parsed, IsPost, HostRefused, NumberAt, Next, InBounds, EndHere, Spills, Length;
    if evs == [] {
      assert false;
    } else {
      var front, ev := evs[..|evs| - 1], evs[|evs| - 1];
      assert ev in evs && AllRead(front);
      var s, piece := Stream(front), BytesOf(ev);
      if |s| < |b| {
        assert s == (b + t)[..|s|] == b[..|s|];
        ShorterHasNoEnd(b, |s|);
        HeadersArrive(site, evs, b, t);
        LengthOf(b, t);
        HeadersAreLocal(b, t);
        assert t[..|t|] == t;
      } else {
        var t0 := s[|b|..];
        assert b == (b + t)[..|b|] == s[..|b|];
        assert s == b + t0 && t == t0 + piece by {
          assert (s + piece)[|b|..] == t0 + piece;
          assert (b + t)[|b|..] == t;
        }
        SteadyBefore(b, t0, piece);
        CutAnywhere(site, front, b, t0);
        ContentArrives(site, After(site, front), ev, b, t0, BodyLength(b));
      }
    }
  }

  lemma SteadyBefore(b: string, t0: string, piece: string)
    requires Steady(b, t0 + piece)
    ensures Steady(b, t0)
  {
    hide NumberAt, Spills;
    forall k | 0 <= k <= |t0| && k < RECV_SIZE && Spills(b) ensures NumberAt(t0[..k], 0) == 0 {
      assert (t0 + piece)[..k] == t0[..k];
    }
  }

  lemma ShorterHasNoEnd(b: string, n: nat)
    requires Block(b) && n < |b|
    ensures NoEnd(b[..n])
  {
    forall j: nat ensures !EndHere(b[..n], j) {
      assert EndHere(b[..n], j) ==> EndHere(b, j) && j < |b| - 4;
    }
  }

  /** When the other end closes the connection, or it breaks, before the request is complete, the connection is
      given up and nothing is run; once it is given up nothing more happens to it. */
  lemma GivenUp(site: Site, c: Conn, ev: Event)
    requires Shaped(c) && Sound(c)
    ensures (c.state.WaitingForRequest? || c.state.WaitingForContent?) && (ev.recv.Broken? || ev.recv.Closed?) ==>
              Next(site, c, ev) == c.(state := ToDelete)
    ensures c.state.ToDelete? || ((c.state.WaitingForRequest? || c.state.WaitingForContent?) && ev.recv.TryAgain?) ==>
              Next(site, c, ev) == c
  {}

  // ---- requests that run nothing ----

  /** A final response was built, and is being sent or has been. */
  predicate AnsweredWith(c: Conn, response: string) {
    c.handed == [] && c.res == response && c.answered && (c.state.SendingAndClosing? || c.state.ToDelete?)
  }

  lemma AnsweredStays(site: Site, c: Conn, ev: Event, response: string)
    requires Shaped(c) && Sound(c) && AnsweredWith(c, response)
    ensures AnsweredWith(Next(site, c, ev), response)
  {
    SendShape(c, ev.answers);
    hide Send;
  }

  /** A complete header block that is no POST, or names a host that is no address, is answered at once, and
      nothing is run. */
  lemma {:induction false} OthersAreAnswered(site: Site, evs: seq<Event>, b: string, t: string)
    requires AllRead(evs) && Block(b) && Stream(evs) == b + t
    requires InBounds(b, Parsed(b, |b|)) && (!IsPost(b) || HostRefused(b, Parsed(b, |b|).host))
    ensures AnsweredWith(After(site, evs), site.other(b))
    decreases |evs|
  {
    hide Parsed, IsPost, HostRefused, Next, InBounds, EndHere, AnsweredWith, Query, Block;
    if evs == [] {
      BlockIsLong(b);
      assert false;
    } else {
      var front, ev := evs[..|evs| - 1], evs[|evs| - 1];
      assert ev in evs && AllRead(front);
      var s, piece := Stream(front), BytesOf(ev);
      if |s| < |b| {
        assert s == (b + t)[..|s|] == b[..|s|];
        ShorterHasNoEnd(b, |s|);
        OtherArrives(site, evs, b, t);
      } else {
        assert b == (b + t)[..|b|] == s[..|b|];
        assert s == b + s[|b|..];
        OthersAreAnswered(site, front, b, s[|b|..]);
        AnsweredStays(site, After(site, front), ev, site.other(b));
      }
    }
  }

  lemma BlockIsLong(b: string)
    requires Block(b)
    ensures |b| >= 4
  {}

  lemma OtherArrives(site: Site, evs: seq<Event>, b: string, t: string)
    requires evs != [] && AllRead(evs) && Block(b)
    requires InBounds(b, Parsed(b, |b|)) && (!IsPost(b) || HostRefused(b, Parsed(b, |b|).host))
    requires Stream(evs) == b + t && NoEnd(Stream(evs[..|evs| - 1]))
    ensures AnsweredWith(After(site, evs), site.other(b))
  {
    hide Query, EndHere, NoEnd, Parsed, IsPost, HostRefused, InBounds, Next, EndOf, AnsweredWith;
    var front, ev := evs[..|evs| - 1], evs[|evs| - 1];
    assert ev in evs && AllRead(front);
    StillReading(site, front);
    BlockStays(b, t);
    PieceIsLong(Stream(front), BytesOf(ev), b, t);
    EndIsUnique(b + t, Some(|b| - 4));
    NewIsShaped(b + t);
    NewIsShaped(Stream(front));
    RequestCompletes(site, NEW.(buf := Stream(front)), ev, |b| - 4);
    QueryRefuses(site, NEW.(buf := b + t), b, t, ev.answers);
  }

  lemma QueryRefuses(site: Site, c: Conn, b: string, t: string, answers: seq<Answer>)
    requires Shaped(c) && c.buf == b + t && c.handed == [] && Block(b)
    requires InBounds(b, Parsed(b, |b|)) && (!IsPost(b) || HostRefused(b, Parsed(b, |b|).host))
    ensures AnsweredWith(Query(site, c, |b|, answers), site.other(b))
  {
    hide Parsed, InBounds, Post, Length, Send, HostRefused, IsPost;
    HeadersAreLocal(b, t);
    var h := Parsed(b, |b|);
    SameOther(b, t, h);
    assert (b + t)[..|b|] == b;
    var c1 := c.(contentOff := |b|, headers := h, contentLen := Length(b + t, h));
    SendShape(c1.(res := site.other(b), sent := 0, answered := true), answers);
  }

  lemma SameOther(b: string, t: string, h: Headers)
    requires Block(b) && InBounds(b, h)
    ensures InBounds(b + t, h) && (IsPost(b + t) <==> IsPost(b)) && (HostRefused(b + t, h.host) <==> HostRefused(b, h.host))
  {
    hide EndHere;
    assert forall i | 0 <= i < |b| :: (b + t)[i] == b[i];
    assert (b + t)[..4] == b[..4];
    if |b| == 4 {
      EndStartsBlock(b);
    }
    if h.host.Some? {
      var (off, len) := h.host.value;
      if len > 0 {
        assert (b + t)[off + 1..off + len] == b[off + 1..off + len];
      }
    }
  }

  lemma EndStartsBlock(b: string)
    requires Block(b) && |b| == 4
    ensures b[0] == '\r' && b[..4] != "POST"
  {
    assert b[..4][0] == '\r';
  }

  // ---- and when it matters ----

  /** Answers under which `n` bytes are accepted. */
  function Accepting(n: nat): seq<Answer> { [Accepted(n + 1)] }

  lemma AcceptingGoesOn(site: Site, b: string)
    ensures GoesOn(site, b, Accepting(|site.goOn(b)|))
  {
    hide Parsed;
    SendingStep(|site.goOn(b)|, Accepting(|site.goOn(b)|));
    SendingStep(0, Accepting(|site.goOn(b)|)[1..]);
  }

  /** One event a byte. */
  function Singles(s: string, answers: seq<Answer>): (evs: seq<Event>)
    ensures forall ev | ev in evs :: Reads(ev) && ev.answers == answers
  {
    if s == "" then [] else Singles(s[..|s| - 1], answers) + [Event(Data([s[|s| - 1]]), answers)]
  }

  lemma StreamSnoc(evs: seq<Event>, ev: Event)
    ensures Stream(evs + [ev]) == Stream(evs) + BytesOf(ev)
  {
    assert (evs + [ev])[..|evs|] == evs;
  }

  lemma {:induction false} SinglesStream(s: string, answers: seq<Answer>)
    ensures Stream(Singles(s, answers)) == s
  {
    hide Stream;
    if s == "" {
      StreamOfNothing();
    } else {
      var n := |s| - 1;
      SinglesStream(s[..n], answers);
      StreamSnoc(Singles(s[..n], answers), Event(Data([s[n]]), answers));
      assert s == s[..n] + [s[n]];
    }
  }

  lemma StreamOfNothing()
    ensures Stream([]) == ""
  {}

  /** A way of cutting the stream into pieces. */
  ghost predicate Cut(site: Site, b: string, evs: seq<Event>, s: string) {
    AllRead(evs) && AllGoOn(site, b, evs) && Stream(evs) == s
  }

  /** A cut at the end of the header block: the body is empty if the Content-Length spills. */
  lemma CutAtHeaders(site: Site, b: string, t: string) returns (evs: seq<Event>)
    requires SoapRequest(b) && Spills(b)
    ensures Cut(site, b, evs, b + t) && After(site, evs).handed == [SoapCall(b, "")]
  {
    hide Spills, SoapRequest, InBounds, NumberAt, After, Singles, Parsed, Length, GoesOn, Accepting;
    var answers := Accepting(|site.goOn(b)|);
    AcceptingGoesOn(site, b);
    SinglesStream(b, answers);
    SinglesStream(t, answers);
    var head, tail := Singles(b, answers), Singles(t, answers);
    evs := head + tail;
    StreamAppend(head, tail);
    LengthOf(b, "") by { SoapBlock(b); }
    NothingIsZero();
    assert b + "" == b;
    assert Steady(b, "");
    CutAnywhere(site, head, b, "");
    RestArrives(site, head, tail, b, "", 0);
    assert "" + t == t && t[..0] == "";
  }

  lemma SoapBlock(b: string)
    requires SoapRequest(b)
    ensures Block(b)
  {}

  /** A cut inside what would be the body: its first bytes are taken for the Content-Length. */
  lemma CutInBody(site: Site, b: string, t: string, k: nat) returns (evs: seq<Event>)
    requires SoapRequest(b) && Spills(b) && k <= |t| && k < RECV_SIZE
    ensures Cut(site, b, evs, b + t) && Past(site, After(site, evs), b, t, NumberAt(t[..k], 0))
  {
    hide Spills, NumberAt, Past, SoapRequest, After, Singles, GoesOn, Accepting;
    var answers := Accepting(|site.goOn(b)|);
    AcceptingGoesOn(site, b);
    var evs1 := PieceAcross(site, b, t[..k]);
    SinglesStream(t[k..], answers);
    var tail := Singles(t[k..], answers);
    evs := evs1 + tail;
    StreamAppend(evs1, tail);
    RestArrives(site, evs1, tail, b, t[..k], NumberAt(t[..k], 0));
    assert t[..k] + t[k..] == t && b + t[..k] + t[k..] == b + t;
  }

  /** The block arrives byte by byte, and its last byte together with `t`. */
  lemma PieceAcross(site: Site, b: string, t: string) returns (evs: seq<Event>)
    requires SoapRequest(b) && Spills(b) && |t| < RECV_SIZE
    ensures Cut(site, b, evs, b + t) && Past(site, After(site, evs), b, t, NumberAt(t, 0))
  {
    hide Spills, NumberAt, Past, SoapRequest, After, Parsed, Length, NoEnd, Singles, EndHere, GoesOn, Accepting;
    SoapBlock(b);
    var answers := Accepting(|site.goOn(b)|);
    AcceptingGoesOn(site, b);
    var n := |b| - 1;
    var head, piece := Singles(b[..n], answers), Event(Data([b[n]] + t), answers);
    SinglesStream(b[..n], answers);
    evs := head + [piece];
    assert evs[..|evs| - 1] == head && b[..n] + ([b[n]] + t) == b + t;
    ShorterHasNoEnd(b, n);
    HeadersArrive(site, evs, b, t);
    LengthOf(b, t);
    HeadersAreLocal(b, t);
  }

  /** What is handed to ExecuteSoapAction is the same for every way of cutting the stream if and only if
      the length of the body is steady. */
  lemma CuttingMattersIff(site: Site, b: string, t: string)
    requires SoapRequest(b)
    ensures (forall e1, e2 | Cut(site, b, e1, b + t) && Cut(site, b, e2, b + t) ::
               After(site, e1).handed == After(site, e2).handed)
       <==> Steady(b, t)
  {
    hide Spills, NumberAt, SoapRequest, After, InBounds, Parsed, Length, AllGoOn;
    if Steady(b, t) {
      forall e1, e2 | Cut(site, b, e1, b + t) && Cut(site, b, e2, b + t)
        ensures After(site, e1).handed == After(site, e2).handed
      {
        SoapActionRunsOnce(site, e1, b, t);
        SoapActionRunsOnce(site, e2, b, t);
      }
    } else {
      var k :| 0 <= k <= |t| && k < RECV_SIZE && NumberAt(t[..k], 0) != 0;
      var e1 := CutAtHeaders(site, b, t);
      var e2 := CutInBody(site, b, t, k);
      var n := NumberAt(t[..k], 0);
      if |t| >= n {
        assert |t[..n]| == n;
      }
      assert After(site, e1).handed != After(site, e2).handed;
    }
  }

  /** A request with an empty Content-Length as its last header. */
  const EMPTY_LENGTH := "POST\r\n" + "soapaction:a\r\n" + "content-length:" + "\r\n\r\n"

  lemma EmptyLengthText()
    ensures |EMPTY_LENGTH| == 39
    ensures forall k | 0 <= k < 4 :: EMPTY_LENGTH[k] == "POST"[k]
    ensures forall k | 6 <= k < 18 :: EMPTY_LENGTH[k] == "soapaction:a"[k - 6]
    ensures forall k | 20 <= k < 35 :: EMPTY_LENGTH[k] == "content-length:"[k - 20]
    ensures EMPTY_LENGTH[4] == EMPTY_LENGTH[18] == EMPTY_LENGTH[35] == EMPTY_LENGTH[37] == '\r'
    ensures EMPTY_LENGTH[5] == EMPTY_LENGTH[19] == EMPTY_LENGTH[36] == EMPTY_LENGTH[38] == '\n'
  {
    var p, q := "POST\r\n", "soapaction:a\r\n";
    assert p == "POST" + "\r\n" && q == "soapaction:a" + "\r\n";
    assert EMPTY_LENGTH[6..20] == q && EMPTY_LENGTH[20..35] == "content-length:";
  }

  lemma EmptyLengthLines(b: string)
    requires b == EMPTY_LENGTH
    ensures |b| == 39 && Block(b)
    ensures LineEnd(b, 0) == 4 && LineEnd(b, 6) == 18 && LineEnd(b, 20) == 35 && LineEnd(b, 37) == 37
  {
    hide EMPTY_LENGTH;
    EmptyLengthText();
    assert '\r' !in "POST" && '\r' !in "soapaction:a" && '\r' !in "content-length:";
    assert forall k | 0 <= k < 35 && k != 4 && k != 18 :: b[k] != '\r';
    LineEndIs(b, 0, 4);
    LineEndIs(b, 6, 18);
    LineEndIs(b, 20, 35);
    LineEndIs(b, 37, 37);
  }

  predicate PlainName(s: string) { ':' !in s && '\r' !in s && '\n' !in s }

  lemma EmptyLengthOthers(b: string, h: Headers)
    requires b == EMPTY_LENGTH
    ensures |b| == 39 && ParseLine(b, 0, h) == h && ParseLine(b, 37, h) == h
  {
    hide EMPTY_LENGTH, Scan, Named, Unquoted;
    EmptyLengthText();
    assert PlainName("POST");
    ScanIs(b, 0, ColonOrEol, 4);
    ScanIs(b, 37, ColonOrEol, 37);
  }

  lemma EmptyLengthAction(b: string, h: Headers)
    requires b == EMPTY_LENGTH
    ensures |b| == 39 && ParseLine(b, 6, h) == h.(soapAction := Some((17, 1)))
  {
    EmptyLengthText();
    hide EMPTY_LENGTH, Scan, Named;
    assert PlainName("soapaction") && "soapaction:a"[..10] == "soapaction";
    assert forall k | 6 <= k < 16 :: b[k] == "soapaction"[k - 6];
    ScanIs(b, 6, ColonOrEol, 16);
    ScanIs(b, 16, NotSeparator, 17);
    ScanIs(b, 17, Unprintable, 18);
    OtherName(b, 6, "content-length:");
    OtherName(b, 6, "host:");
    SameName(b, 6, "soapaction:");
  }

  lemma EmptyLengthLength(b: string, h: Headers)
    requires b == EMPTY_LENGTH
    ensures |b| == 39 && ParseLine(b, 20, h) == h.(lengthAt := Some(35))
  {
    EmptyLengthText();
    hide EMPTY_LENGTH, Scan, Named;
    assert PlainName("content-length") && "content-length:"[..14] == "content-length";
    assert forall k | 20 <= k < 34 :: b[k] == "content-length"[k - 20];
    ScanIs(b, 20, ColonOrEol, 34);
    ScanIs(b, 34, DigitOrEol, 35);
    SameName(b, 20, "content-length:");
  }

  lemma OtherName(b: string, i: nat, name: string)
    requires i < |b| && name != "" && Lower(b[i]) != name[0]
    ensures !Named(b, i, name)
  {
    assert b[i + 0] == b[i];
  }

  lemma SameName(b: string, i: nat, name: string)
    requires i + |name| <= |b| && forall k | 0 <= k < |name| :: b[i + k] == name[k] && !('A' <= name[k] <= 'Z')
    ensures Named(b, i, name)
  {}

  /** An empty Content-Length: the digits at the start of the body are taken for it if they arrive with the headers. */
  lemma EmptyLengthSpills()
    ensures SoapRequest(EMPTY_LENGTH) && Spills(EMPTY_LENGTH) && !Steady(EMPTY_LENGTH, "1")
  {
    var b := EMPTY_LENGTH;
    EmptyLengthText();
    hide EMPTY_LENGTH, Scan, ParseLine, ParseLines, LineEnd, Signed, Block;
    EmptyLengthLines(b);
    var h0, h1 := NO_HEADERS, NO_HEADERS.(soapAction := Some((17, 1)));
    var h2 := h1.(lengthAt := Some(35));
    EmptyLengthOthers(b, h0);
    EmptyLengthAction(b, h0);
    EmptyLengthLength(b, h1);
    EmptyLengthOthers(b, h2);
    FourLines(b, h0, h1, h2);
    ScanOver(b, 35, 39, NotSpace);
    assert b[..4] == "POST";
    OneIsOne();
    assert "1"[..1] == "1";
  }

  lemma FourLines(b: string, h0: Headers, h1: Headers, h2: Headers)
    requires |b| == 39 && Block(b)
    requires LineEnd(b, 0) == 4 && LineEnd(b, 6) == 18 && LineEnd(b, 20) == 35 && LineEnd(b, 37) == 37
    requires ParseLine(b, 0, h0) == h0 && ParseLine(b, 6, h0) == h1 && ParseLine(b, 20, h1) == h2 && ParseLine(b, 37, h2) == h2
    ensures ParseLines(b, 0, 39, h0) == h2
  {
    hide ParseLines, ParseLine, LineEnd;
    ParseStep(b, 0, 39, h0);
    ParseStep(b, 6, 39, h0);
    ParseStep(b, 20, 39, h1);
    ParseStep(b, 37, 39, h2);
    ParseDone(b, 39, 39, h2);
  }

  lemma OneIsOne()
    ensures NumberAt("1", 0) == 1
  {
    ScanIs("1", 0, NotSpace, 0);
    var s := "1";
    assert |s| == 1 && s[0] == '1' && DigitValue('1') == 1;
    assert Digits(s, 1, 1) == 1;
    assert Digits(s, 0, 0) == Digits(s, 1, 1);
  }

  // ---- the response over resumed calls ----

  /** SendRespAndClose_upnphttp() called again until the connection is closed. */
  function Resumed(c: Conn, calls: seq<seq<Answer>>): (r: Conn)
    requires Sound(c) && c.answered
    ensures Sound(r) && r.answered
  {
    if calls == [] then c
    else
      var c0 := Resumed(c, calls[..|calls| - 1]);
      SendKeeps(c0, calls[|calls| - 1]);
      SendShape(c0, calls[|calls| - 1]);
      if c0.state.ToDelete? then c0 else Send(c0, calls[|calls| - 1])
  }

  predicate NoError(answers: seq<Answer>) {
    forall a | a in answers :: a != Failure && a != Accepted(0)
  }

  lemma {:induction false} SentUnlessError(left: nat, answers: seq<Answer>)
    requires NoError(answers)
    ensures Sending(left, answers).1 <==> Sending(left, answers).0 == left
  {
    if left > 0 && answers != [] {
      assert answers[0] in answers;
      assert forall a | a in answers[1..] :: a in answers;
      match answers[0]
      case Accepted(n) => SentUnlessError(left - Min(n, left), answers[1..]);
      case Interrupted => SentUnlessError(left, answers[1..]);
      case WouldBlock =>
      case Failure =>
    }
  }

  /** However often sending is taken up again, what was accepted is, behind any 100 Continue, a prefix of one
      and the same response, and the connection is closed without an error only when all of it was accepted. */
  lemma {:induction false} ResponseArrivesInOrder(c: Conn, calls: seq<seq<Answer>>)
    requires Sound(c) && c.state.SendingAndClosing? && forall answers | answers in calls :: NoError(answers)
    ensures var r := Resumed(c, calls);
            && r.res == c.res && r.interim == c.interim && c.wire <= r.wire <= c.interim + c.res
            && (r.state.ToDelete? ==> r.wire == c.interim + c.res)
            && r.handed == c.handed
  {
    hide NoError;
    if calls == [] {
      SoundIsPrefix(c);
    } else {
      var front, answers := calls[..|calls| - 1], calls[|calls| - 1];
      ResponseArrivesInOrder(c, front);
      assert answers in calls;
      SendArrives(Resumed(c, front), answers);
    }
  }

  lemma SoundIsPrefix(c: Conn)
    requires Sound(c) && c.answered
    ensures c.wire <= c.interim + c.res && (c.sent == |c.res| ==> c.wire == c.interim + c.res)
  {
    assert c.res == c.res[..c.sent] + c.res[c.sent..];
    assert c.interim + c.res == c.wire + c.res[c.sent..];
  }

  lemma SendArrives(c: Conn, answers: seq<Answer>)
    requires Sound(c) && c.answered && NoError(answers)
    ensures var r := Send(c, answers);
            c.wire <= r.wire <= c.interim + c.res && (r.state.ToDelete? ==> r.wire == c.interim + c.res)
  {
    SentUnlessError(|c.res| - c.sent, answers);
    SendKeeps(c, answers);
    SendShape(c, answers);
    SoundIsPrefix(Send(c, answers));
    hide Sending;
  }

  /** "Expect: 100-continue" and a body still to come: the 100 Continue is sent at once, and the connection
      waits for the body exactly when all of it was accepted; otherwise send() would block, and the rest is
      sent when the state is processed again. */
  lemma ContinueIsSent(site: Site, c: Conn, answers: seq<Answer>)
    requires Shaped(c) && Sound(c) && !c.answered && c.interim == "" && NoError(answers)
    requires |c.buf| - c.contentOff < c.contentLen && c.headers.wantsContinue
    ensures var r, text := Post(site, c, answers), site.goOn(c.buf[..c.contentOff]);
            && r.wire == r.interim <= text && r.handed == c.handed
            && (r.state.WaitingForContent? <==> r.wire == text)
            && (r.state.SendingContinue? <==> r.wire != text)
  {
    var text := site.goOn(c.buf[..c.contentOff]);
    SentUnlessError(|text|, answers);
    hide Sending;
    var n := Sending(|text|, answers).0;
    assert "" + text[0..n] == text[..n];
  }
}
