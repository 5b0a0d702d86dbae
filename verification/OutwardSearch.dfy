/** upnpsoap.c, AddAnyPortMapping: when the requested port is refused, its neighbours are tried,
    +1, -1, +2, -2 and so on, skipping the ports that the permission bitmap rules out. */
module OutwardSearch {
  import opened Net
  import opened Permissions
  import opened MappingTable
  import opened Backend
  import opened Redirect

  /** What the world answers when a port is tried: clock, port_in_use() and kernel. */
  datatype Env = Env(clock: Port -> U32, inUse: Port -> bool, kernel: Port -> Kernel)

  const EXHAUSTED := 1

  /** upnp_redirect() for port `p`. */
  function Try(cfg: Config, s: State, q: Request, env: Env, p: Port): (State, int) {
    AddOrRenew(cfg, s, q.(eport := p), env.clock(p), env.inUse(p), env.kernel(p))
  }

  /** Success or failure; anything else is a refusal, and another port is tried. */
  predicate Stops(r: int) {
    r == 0 || r == -1
  }

  predicate Refused(cfg: Config, s: State, q: Request, env: Env, p: Port) {
    !Stops(Try(cfg, s, q, env, p).1)
  }

  /** A refusal has one of three reasons and changes nothing. */
  lemma RefusalChangesNothing(cfg: Config, s: State, q: Request, now: U32, inUse: bool, k: Kernel)
    ensures var out := AddOrRenew(cfg, s, q, now, inUse, k);
            && out.1 in {0, -1, -2, -3, -4}
            && (!Stops(out.1) ==> out.0 == s)
            && (out.1 == -3 <==> !Permitted(cfg.perms, q.eport, q.iaddr, q.iport))
  {}

  /** Trying the ports of a list in order until one is not refused. */
  function Search(cfg: Config, s: State, q: Request, env: Env, ports: seq<Port>): (State, int, Port) {
    if ports == [] then (s, EXHAUSTED, 0)
    else if Refused(cfg, s, q, env, ports[0]) then Search(cfg, s, q, env, ports[1..])
    else
      var out := Try(cfg, s, q, env, ports[0]);
      (out.0, out.1, ports[0])
  }

  // ---- the order of the ports ----

  /** The ports at distance `d` from `e`, above before below. */
  function Ring(e: Port, d: nat): seq<Port> {
    (if e + d <= 65535 then [e + d] else []) + (if 1 <= e - d then [e - d] else [])
  }

  function Rings(e: Port, d: nat): seq<Port> {
    if d == 0 then [] else Rings(e, d - 1) + Ring(e, d)
  }

  function Farthest(e: Port): nat
    requires 1 <= e
  {
    if e - 1 < 65535 - e then 65535 - e else e - 1
  }

  /** All other ports, outward from `e`. */
  function Outward(e: Port): seq<Port>
    requires 1 <= e
  {
    Rings(e, Farthest(e))
  }

  function Distance(e: Port, p: Port): nat {
    if p < e then e - p else p - e
  }

  /** Is `p` tried before `q` when searching outward from `e`? */
  predicate Nearer(e: Port, p: Port, q: Port) {
    Distance(e, p) < Distance(e, q) || (Distance(e, p) == Distance(e, q) && q < p)
  }

  lemma {:induction false} RingsMembers(e: Port, d: nat, p: Port)
    requires 1 <= e
    ensures p in Rings(e, d) <==> 1 <= p && 1 <= Distance(e, p) <= d
  {
    if d > 0 {
      RingsMembers(e, d - 1, p);
    }
  }

  lemma {:induction false} RingsOrdered(e: Port, d: nat)
    requires 1 <= e
    ensures forall i, j | 0 <= i < j < |Rings(e, d)| :: Nearer(e, Rings(e, d)[i], Rings(e, d)[j])
  {
    if d > 0 {
      RingsOrdered(e, d - 1);
      var inner, outer := Rings(e, d - 1), Ring(e, d);
      forall i, j | 0 <= i < j < |inner + outer| ensures Nearer(e, (inner + outer)[i], (inner + outer)[j]) {
        if i < |inner| <= j {
          assert inner[i] in inner;
          RingsMembers(e, d - 1, inner[i]);
        }
      }
    }
  }

  /** Every port but `e` and 0 is visited, once, nearest first, above before below. */
  lemma OutwardOrder(e: Port)
    requires 1 <= e
    ensures forall p: Port :: p in Outward(e) <==> 1 <= p && p != e
    ensures forall i, j | 0 <= i < j < |Outward(e)| ::
              Nearer(e, Outward(e)[i], Outward(e)[j]) && Outward(e)[i] != Outward(e)[j]
  {
    forall p: Port ensures p in Outward(e) <==> 1 <= p && p != e {
      RingsMembers(e, Farthest(e), p);
    }
    RingsOrdered(e, Farthest(e));
  }

  lemma {:induction false} RingsPrefix(e: Port, d: nat, far: nat)
    requires d <= far
    ensures Rings(e, d) <= Rings(e, far)
    decreases far
  {
    if d < far {
      RingsPrefix(e, d, far - 1);
    }
  }

  lemma {:induction false} SearchPasses(cfg: Config, s: State, q: Request, env: Env, xs: seq<Port>, ys: seq<Port>)
    requires forall p | p in xs :: Refused(cfg, s, q, env, p)
    ensures Search(cfg, s, q, env, xs + ys) == Search(cfg, s, q, env, ys)
  {
    if xs == [] {
      assert xs + ys == ys;
    } else {
      assert (xs + ys)[1..] == xs[1..] + ys;
      SearchPasses(cfg, s, q, env, xs[1..], ys);
    }
  }

  /** The search stops at the port after a prefix of refused ones. */
  lemma SearchStopsAfter(cfg: Config, s: State, q: Request, env: Env, all: seq<Port>, passed: seq<Port>, p: Port)
    requires passed + [p] <= all
    requires forall x | x in passed :: Refused(cfg, s, q, env, x)
    requires !Refused(cfg, s, q, env, p)
    ensures var out := Try(cfg, s, q, env, p);
            Search(cfg, s, q, env, all) == (out.0, out.1, p)
  {
    var rest := all[|passed|..];
    assert all == passed + rest && rest[0] == p;
    SearchPasses(cfg, s, q, env, passed, rest);
  }

  /** The port part of AddAnyPortMapping(): the result code, and the port for which upnp_redirect()
      had the last word. The bitmap makes no difference to either. */
  method AddAnyPort(rd: Redirector, q: Request, env: Env) returns (r: int, eport: Port)
    requires rd.Valid() && 1 <= q.eport
    modifies rd, rd.backend
    ensures rd.Valid()
    ensures var out := Search(rd.cfg, old(rd.S()), q, env, [q.eport] + Outward(q.eport));
            rd.S() == out.0 && r == out.1 && (r != EXHAUSTED ==> eport == out.2)
  {
    hide IpfwBackend.Valid, IpfwBackend.Table;
    eport := q.eport;
    ghost var s := rd.S();
    RefusalChangesNothing(rd.cfg, s, q, env.clock(eport), env.inUse(eport), env.kernel(eport));
    r := rd.UpnpRedirect(q, env.clock(eport), env.inUse(eport), env.kernel(eport));
    assert q.(eport := eport) == q;
    if r != 0 && r != -1 {
      SearchPasses(rd.cfg, s, q, env, [q.eport], Outward(q.eport));
      r, eport := Neighbours(rd, q, env);
    } else {
      SearchStopsAfter(rd.cfg, s, q, env, [q.eport] + Outward(q.eport), [], q.eport);
    }
  }

  /** The search among the neighbours. */
  method Neighbours(rd: Redirector, q: Request, env: Env) returns (r: int, eport: Port)
    requires rd.Valid() && 1 <= q.eport
    modifies rd, rd.backend
    ensures rd.Valid()
    ensures var out := Search(rd.cfg, old(rd.S()), q, env, Outward(q.eport));
            rd.S() == out.0 && r == out.1 && (r != EXHAUSTED ==> eport == out.2)
  {
    hide IpfwBackend.Valid, IpfwBackend.Table, Search, AddOrRenew, Permitted, Rings, Cursor.At, Cursor.Passed;
    var allowed := new bv32[WORDS];
    PermittedExtPorts(allowed, rd.cfg.perms, q.iaddr, q.iport);
    ghost var s, e := rd.S(), q.eport;
    eport := q.eport;
    var below, above := eport, eport;
    ghost var c := Cursor(0, false);
    CursorStart(e);
    while true
      invariant rd.Valid() && rd.S() == s
      invariant forall p: Port :: PortBit(allowed[..], p) <==> Permitted(rd.cfg.perms, p, q.iaddr, q.iport)
      invariant 1 <= below <= e <= above <= 65535 && c.At(e, below, above, eport)
      invariant forall p | p in c.Passed(e) :: Refused(rd.cfg, s, q, env, p)
      decreases 65535 - above + below
    {
      if below <= 1 && above == 65535 {
        CursorEnd(c, e, below, above, eport);
        SearchPasses(rd.cfg, s, q, env, c.Passed(e), []);
        SearchNothing(rd.cfg, s, q, env);
        return EXHAUSTED, eport;
      }
      ghost var passed := c.Passed(e);
      c := CursorStep(c, e, below, above, eport);
      if above == 65535 || (eport > below && below > 1) {
        below := below - 1;
        eport := below;
      } else {
        above := above + 1;
        eport := above;
      }
      RefusalChangesNothing(rd.cfg, s, q.(eport := eport), env.clock(eport), env.inUse(eport), env.kernel(eport));
      if PortBit(allowed[..], eport) {
        r := rd.UpnpRedirect(q.(eport := eport), env.clock(eport), env.inUse(eport), env.kernel(eport));
        if r == 0 || r == -1 {
          SearchStopsAfter(rd.cfg, s, q, env, Outward(e), passed, eport);
          return;
        }
      }
    }
  }

  /** Where the loop is: `d` rings begun, the last of them half visited or whole. */
  datatype Cursor = Cursor(d: nat, half: bool) {
    ghost predicate At(e: Port, below: Port, above: Port, eport: Port)
      requires 1 <= e
    {
      && d <= Farthest(e)
      && (if half then 1 <= d && above == eport == e + d && below == e - d + 1 > 1
          else above == (if e + d <= 65535 then e + d else 65535)
               && below == (if 1 <= e - d then e - d else 1)
               && (eport == below || below == 1))
    }

    ghost function Passed(e: Port): seq<Port> {
      if half && 1 <= d && e + d <= 65535 then Rings(e, d - 1) + [e + d] else Rings(e, d)
    }
  }

  lemma CursorStart(e: Port)
    requires 1 <= e
    ensures Cursor(0, false).At(e, e, e, e) && Cursor(0, false).Passed(e) == []
  {}

  lemma CursorEnd(c: Cursor, e: Port, below: Port, above: Port, eport: Port)
    requires 1 <= e && c.At(e, below, above, eport) && below <= 1 && above == 65535
    ensures c.Passed(e) + [] == Outward(e)
  {
    assert !c.half && c.d == Farthest(e);
  }

  /** One turn of the loop moves on to the next port of the outward order. */
  lemma CursorStep(c: Cursor, e: Port, below: Port, above: Port, eport: Port) returns (c': Cursor)
    requires 1 <= e && c.At(e, below, above, eport) && !(below <= 1 && above == 65535)
    ensures if above == 65535 || (eport > below && below > 1)
            then 1 < below && c'.At(e, below - 1, above, below - 1) && c'.Passed(e) == c.Passed(e) + [below - 1]
            else above < 65535 && c'.At(e, below, above + 1, above + 1) && c'.Passed(e) == c.Passed(e) + [above + 1]
    ensures c'.Passed(e) <= Outward(e)
  {
    if c.half {
      c' := Cursor(c.d, false);
      assert Rings(e, c.d) == Rings(e, c.d - 1) + ([e + c.d] + [e - c.d]);
    } else if above == 65535 {
      c' := Cursor(c.d + 1, false);
    } else {
      c' := Cursor(c.d + 1, below > 1);
    }
    RingsPrefix(e, c'.d, Farthest(e));
    assert c'.half ==> c'.Passed(e) <= Rings(e, c'.d);
  }

  lemma SearchNothing(cfg: Config, s: State, q: Request, env: Env)
    ensures Search(cfg, s, q, env, []) == (s, EXHAUSTED, 0)
  {}

  // ---- what the client gets ----

  lemma {:induction false} SearchResult(cfg: Config, s: State, q: Request, env: Env, ports: seq<Port>)
    ensures var out := Search(cfg, s, q, env, ports);
            && (out.1 == EXHAUSTED <==> forall p | p in ports :: Refused(cfg, s, q, env, p))
            && (out.1 == EXHAUSTED ==> out.0 == s)
            && (out.1 != EXHAUSTED ==>
                exists i | 0 <= i < |ports| ::
                  && out.2 == ports[i] && !Refused(cfg, s, q, env, ports[i])
                  && (out.0, out.1) == Try(cfg, s, q, env, ports[i])
                  && forall j | 0 <= j < i :: Refused(cfg, s, q, env, ports[j]))
  {
    if ports != [] {
      RefusalChangesNothing(cfg, s, q.(eport := ports[0]), env.clock(ports[0]), env.inUse(ports[0]), env.kernel(ports[0]));
      if Refused(cfg, s, q, env, ports[0]) {
        SearchResult(cfg, s, q, env, ports[1..]);
        var out := Search(cfg, s, q, env, ports);
        if out.1 != EXHAUSTED {
          var i :| 0 <= i < |ports[1..]| && out.2 == ports[1..][i] && !Refused(cfg, s, q, env, ports[1..][i])
                   && (out.0, out.1) == Try(cfg, s, q, env, ports[1..][i])
                   && forall j | 0 <= j < i :: Refused(cfg, s, q, env, ports[1..][j]);
          assert ports[i + 1] == ports[1..][i];
          forall j | 0 <= j < i + 1 ensures Refused(cfg, s, q, env, ports[j]) {
            if j > 0 {
              assert ports[j] == ports[1..][j - 1];
            }
          }
        }
      } else {
        assert ports[0] in ports;
      }
    }
  }

  /** The request ends in "no port maps available" exactly if every port is refused, and otherwise
      with the nearest port (above before below) that is not. */
  lemma NearestPortWins(cfg: Config, s: State, q: Request, env: Env)
    requires 1 <= q.eport
    ensures var out := Search(cfg, s, q, env, [q.eport] + Outward(q.eport));
            && (out.1 == EXHAUSTED <==> forall p: Port | 1 <= p :: Refused(cfg, s, q, env, p))
            && (out.1 == EXHAUSTED ==> out.0 == s)
            && (out.1 != EXHAUSTED ==>
                && 1 <= out.2 && out.1 in {0, -1} && (out.0, out.1) == Try(cfg, s, q, env, out.2)
                && forall p: Port | 1 <= p && p != out.2 && !Refused(cfg, s, q, env, p) :: Nearer(q.eport, out.2, p))
  {
    hide Search, Try, Outward;
    var e, ports := q.eport, [q.eport] + Outward(q.eport);
    OutwardOrder(e);
    SearchResult(cfg, s, q, env, ports);
    forall p: Port ensures p in ports <==> 1 <= p {}
    var out := Search(cfg, s, q, env, ports);
    if out.1 != EXHAUSTED {
      var i :| 0 <= i < |ports| && out.2 == ports[i] && !Refused(cfg, s, q, env, ports[i])
               && (out.0, out.1) == Try(cfg, s, q, env, ports[i])
               && forall j | 0 <= j < i :: Refused(cfg, s, q, env, ports[j]);
      assert ports[i] in ports;
      forall p: Port | 1 <= p && p != out.2 && !Refused(cfg, s, q, env, p) ensures Nearer(e, out.2, p) {
        assert p in ports;
        var j :| 0 <= j < |ports| && ports[j] == p;
        assert i < j;
      }
    }
  }
}
