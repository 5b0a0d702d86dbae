/** natpmp.c: port mapping requests (opcodes 1 and 2), creating and removing (RFC 6886, sections 3.3 and 3.4). */
module NatPmp {
  import opened Net
  import opened Permissions
  import opened MappingTable
  import opened Backend
  import opened Redirect
  import opened PortScan

  const SUCCESS := 0
  const NOT_AUTHORIZED := 2
  const NETWORK_FAILURE := 3
  const OUT_OF_RESOURCES := 4

  /** A mapping request: opcode 1 is UDP, opcode 2 is TCP. */
  datatype MapRequest = MapRequest(client: Addr, tcp: bool, iport: Port, eport: Port, lifetime: U32)

  /** What the response carries: result code, external port and lifetime. */
  datatype Response = Response(result: nat, eport: Port, lifetime: U32)

  function ProtoOf(rq: MapRequest): Proto {
    if rq.tcp then IPPROTO_TCP else IPPROTO_UDP
  }

  function Description(eport: Port, tcp: bool): string {
    Cut("NAT-PMP " + Decimal(eport) + " " + (if tcp then "tcp" else "udp"), 64)
  }

  /** NAT-PMP deletes the client's own mapping before it knows whether that works. */
  const EVERY_PORT: Port -> bool := (_: Port) => true

  function SearchOf(cfg: Config, t: seq<Mapping>, rq: MapRequest, inUse: Port -> bool): Search {
    Search(cfg.perms, t, rq.client, rq.iport, ProtoOf(rq), inUse, EVERY_PORT, false)
  }

  function FirstPort(rq: MapRequest): Port {
    if rq.eport == 0 then rq.iport else rq.eport
  }

  function MappingFor(rq: MapRequest, p: Port, now: U32): Mapping {
    Mapping(p, ProtoOf(rq), rq.client, rq.iport, 0, Description(p, rq.tcp), Add32(now, rq.lifetime))
  }

  /** Taking port `p`, where the search stopped: an own mapping is removed and added again. */
  function Take(cfg: Config, s: State, rq: MapRequest, p: Port, now: U32, k: Kernel): (State, Response) {
    var held := HasKey(s.table, p, ProtoOf(rq));
    if held && !k.deleted then (s, Response(SUCCESS, p, rq.lifetime))
    else
      var freed := if held then Delete(s, p, ProtoOf(rq), true).0 else s;
      var added := Insert(cfg, freed, MappingFor(rq, p, now), k.added);
      (added.0, Response(if added.1 < 0 then NETWORK_FAILURE else SUCCESS, p, rq.lifetime))
  }

  ghost function Map(cfg: Config, s: State, rq: MapRequest, now: U32, inUse: Port -> bool, k: Kernel): (State, Response)
    requires rq.lifetime > 0
  {
    if rq.iport == 0 then (s, Response(NOT_AUTHORIZED, rq.eport, rq.lifetime))
    else
      var sc, first := SearchOf(cfg, s.table, rq, inUse), FirstPort(rq);
      var stop := Stop(sc, first);
      if stop < 65535 then Take(cfg, s, rq, Cyclic(first, stop), now, k)
      else (s, Response(if SomeAllowed(sc) then OUT_OF_RESOURCES else NOT_AUTHORIZED, first, rq.lifetime))
  }

  /** The table after an unmap request, and whether the firewall refused a deletion on the way. */
  function Unmap(t: seq<Mapping>, rq: MapRequest, deletable: (Port, Proto) -> bool): (seq<Mapping>, bool) {
    if t == [] then (t, false)
    else if NatPmpNamed(t[0], rq.client, rq.iport, ProtoOf(rq)) then
      if deletable(t[0].eport, t[0].proto) then Unmap(t[1..], rq, deletable) else (t, true)
    else
      var rest := Unmap(t[1..], rq, deletable);
      ([t[0]] + rest.0, rest.1)
  }

  /** The creating half of ProcessIncomingNATPMPPacket(). */
  method CreateMapping(rd: Redirector, rq: MapRequest, now: U32, inUse: Port -> bool, k: Kernel) returns (resp: Response)
    requires rd.Valid() && rq.lifetime > 0
    modifies rd, rd.backend
    ensures rd.Valid()
    ensures (rd.S(), resp) == Map(rd.cfg, old(rd.S()), rq, now, inUse, k)
  {
    hide IpfwBackend.Valid, IpfwBackend.Table;
    if rq.iport == 0 {
      return Response(NOT_AUTHORIZED, rq.eport, rq.lifetime);
    }
    var eport, anyAllowed := FindPort(rd, rq, inUse);
    if eport == 0 {
      return Response(if anyAllowed then OUT_OF_RESOURCES else NOT_AUTHORIZED, FirstPort(rq), rq.lifetime);
    }
    resp := TakePort(rd, rq, eport, now, k);
  }

  /** The search loop: the port it stops at, or 0 when the first port comes round again. */
  method FindPort(rd: Redirector, rq: MapRequest, inUse: Port -> bool) returns (eport: Port, anyAllowed: bool)
    requires rd.Valid() && rq.iport != 0
    ensures var sc, first := SearchOf(rd.cfg, rd.S().table, rq, inUse), FirstPort(rq);
            var stop := Stop(sc, first);
            && eport == (if stop < 65535 then Cyclic(first, stop) else 0)
            && (eport == 0 ==> (anyAllowed <==> SomeAllowed(sc)))
  {
    hide IpfwBackend.Valid, IpfwBackend.Table, Permitted, Find, Following, BlockedBefore, AllowedBefore;
    eport := if rq.eport == 0 then rq.iport else rq.eport;
    var eportFirst: Port := 0;
    anyAllowed := false;
    ghost var first, sc, i := eport, SearchOf(rd.cfg, rd.S().table, rq, inUse), 0;
    CyclicStep(first, 0);
    SearchStart(sc, first);
    while true
      invariant 1 <= first && 0 <= i <= 65535
      invariant eportFirst == if i == 0 then 0 else first
      invariant eport == if i < 65535 then Cyclic(first, i) else first
      invariant BlockedBefore(sc, first, i)
      invariant anyAllowed <==> AllowedBefore(sc, first, i)
      decreases 65535 - i
    {
      if eportFirst == 0 {
        eportFirst := eport;
      } else if eport == eportFirst {
        assert i == 65535 by {
          if i < 65535 {
            CyclicStep(first, i);
          }
        }
        StopUnique(sc, first, 65535);
        AllowedOnTheWay(sc, first);
        return 0, anyAllowed;
      }
      assert i < 65535;
      CyclicStep(first, i);
      SearchStep(sc, first, i);
      var accepted := CheckRule(rd.cfg.perms, eport, rq.client, rq.iport);
      assert accepted == Allowed(sc, Cyclic(first, i));
      if accepted {
        anyAllowed := true;
        if !inUse(eport) {
          var found := rd.backend.GetRedirectRule(eport, ProtoOf(rq));
          if found.None? || (found.value.iaddr == rq.client && found.value.iport == rq.iport) {
            assert !Blocked(sc, Cyclic(first, i));
            StopUnique(sc, first, i);
            return;
          }
        }
      }
      assert Blocked(sc, Cyclic(first, i));
      eport := Following(eport);
      i := i + 1;
    }
  }

  /** The end of the loop, once a port is found. */
  method TakePort(rd: Redirector, rq: MapRequest, eport: Port, now: U32, k: Kernel) returns (resp: Response)
    requires rd.Valid()
    modifies rd, rd.backend
    ensures rd.Valid()
    ensures (rd.S(), resp) == Take(rd.cfg, old(rd.S()), rq, eport, now, k)
  {
    hide IpfwBackend.Valid, IpfwBackend.Table;
    ghost var t := rd.S().table;
    var found := rd.backend.GetRedirectRule(eport, ProtoOf(rq));
    if found.Some? {
      var r := rd.DeleteRedir(eport, ProtoOf(rq), k.deleted);
      if r < 0 {
        return Response(SUCCESS, eport, rq.lifetime);
      }
      DropMembers(t, ByKey(eport, ProtoOf(rq)));
    }
    assert !HasKey(rd.S().table, eport, ProtoOf(rq)) by {
      assert forall i | 0 <= i < |rd.S().table| :: rd.S().table[i] in rd.S().table;
    }
    var r := rd.RedirectInternal(Absent, eport, rq.client, rq.iport, ProtoOf(rq), Description(eport, rq.tcp),
                                 Add32(now, rq.lifetime), k.added);
    return Response(if r < 0 then NETWORK_FAILURE else SUCCESS, eport, rq.lifetime);
  }

  /** The removing half of ProcessIncomingNATPMPPacket(): rules are deleted by key while the
      shrinking table is walked by index. */
  method RemoveMappings(rd: Redirector, rq: MapRequest, deletable: (Port, Proto) -> bool) returns (resp: Response)
    requires rd.Valid() && rq.lifetime == 0
    modifies rd.backend
    ensures rd.Valid()
    ensures var after := Unmap(old(rd.S()).table, rq, deletable);
            && rd.S() == old(rd.S()).(table := after.0)
            && resp == Response(if after.1 then NOT_AUTHORIZED else SUCCESS, 0, 0)
  {
    hide IpfwBackend.Valid, IpfwBackend.Table, Find, Drop, HasKey, UniqueKeys, Cut, Unmap;
    var index := 0;
    ghost var t, todo, done := rd.S().table, rd.S().table, [];
    assert [] + t == t && [] + Unmap(t, rq, deletable).0 == Unmap(t, rq, deletable).0;
    var found := rd.backend.GetRedirectRuleByIndex(index, 64);
    while found.Some?
      invariant rd.Valid() && rd.nextToClean == old(rd.nextToClean)
      invariant rd.S().table == done + todo && |done| == index
      invariant found.Some? <==> todo != []
      invariant found.Some? ==> found.value == todo[0].(desc := Cut(todo[0].desc, 64))
      invariant Unmap(t, rq, deletable).0 == done + Unmap(todo, rq, deletable).0
      invariant Unmap(t, rq, deletable).1 == Unmap(todo, rq, deletable).1
      decreases |todo|
    {
      var m := found.value;
      ghost var head := todo[0];
      CutPrefix(head.desc);
      UnmapStep(todo, rq, deletable);
      assert todo == [head] + todo[1..];
      assert done + todo == done + [head] + todo[1..];
      if m.iaddr == rq.client && "NAT-PMP" <= m.desc && (rq.iport == 0 || (rq.iport == m.iport && ProtoOf(rq) == m.proto)) {
        DropMiddle(done, head, todo[1..]);
        var r := rd.DeleteRedir(m.eport, m.proto, deletable(m.eport, m.proto));
        if r < 0 {
          return Response(NOT_AUTHORIZED, 0, 0);
        }
      } else {
        done := done + [head];
        index := index + 1;
      }
      todo := todo[1..];
      found := rd.backend.GetRedirectRuleByIndex(index, 64);
    }
    UnmapNothing(rq, deletable);
    return Response(SUCCESS, 0, 0);
  }

  lemma UnmapNothing(rq: MapRequest, deletable: (Port, Proto) -> bool)
    ensures Unmap([], rq, deletable) == ([], false)
  {}

  lemma UnmapStep(t: seq<Mapping>, rq: MapRequest, deletable: (Port, Proto) -> bool)
    requires t != []
    ensures var rest, out := Unmap(t[1..], rq, deletable), Unmap(t, rq, deletable);
            if !NatPmpNamed(t[0], rq.client, rq.iport, ProtoOf(rq)) then out.0 == [t[0]] + rest.0 && out.1 == rest.1
            else if deletable(t[0].eport, t[0].proto) then out == rest
            else out == (t, true)
  {}

  lemma CutPrefix(desc: string)
    ensures "NAT-PMP" <= Cut(desc, 64) <==> "NAT-PMP" <= desc
  {}

  // ---- what a client is told ----

  /** "Not authorized" (2) means exactly that no port at all is permitted (or that the request named
      internal port 0); "out of resources" (4) that some port is permitted but every one is unavailable. */
  lemma RefusalsAreExact(cfg: Config, s: State, rq: MapRequest, now: U32, inUse: Port -> bool, k: Kernel)
    requires rq.lifetime > 0
    ensures var sc, out := SearchOf(cfg, s.table, rq, inUse), Map(cfg, s, rq, now, inUse, k);
            && (out.1.result == 2 <==>
                rq.iport == 0 || forall p: Port | 1 <= p :: !Allowed(sc, p))
            && (out.1.result == 4 <==>
                rq.iport != 0 && SomeAllowed(sc) && forall p: Port | 1 <= p :: Unavailable(sc, p))
            && (out.1.result in {2, 4} ==> out.0 == s)
  {
    if rq.iport != 0 {
      var sc, first := SearchOf(cfg, s.table, rq, inUse), FirstPort(rq);
      var stop := Stop(sc, first);
      if stop == 65535 {
        forall p: Port | 1 <= p ensures Unavailable(sc, p) {
          CyclicVisitsAll(first, p);
          var j :| 0 <= j < 65535 && Cyclic(first, j) == p;
        }
      } else {
        var p := Cyclic(first, stop);
        assert 1 <= p && !Blocked(sc, p);
      }
    }
  }

  /** A success: the port is a permitted one, it now leads to the client, and the new lease is in
      the table exactly unless the client's older mapping could not be deleted. */
  lemma SuccessGrants(cfg: Config, s: State, rq: MapRequest, now: U32, inUse: Port -> bool, k: Kernel)
    requires rq.lifetime > 0
    requires Map(cfg, s, rq, now, inUse, k).1.result == SUCCESS
    ensures var out := Map(cfg, s, rq, now, inUse, k);
            var p, was := out.1.eport, Find(s.table, out.1.eport, ProtoOf(rq));
            var found := Find(out.0.table, p, ProtoOf(rq));
            && Permitted(cfg.perms, p, rq.client, rq.iport) && !inUse(p)
            && found.Some? && found.value.iaddr == rq.client && found.value.iport == rq.iport
            && (found.value == MappingFor(rq, p, now) <==>
                was.None? || k.deleted || was.value == MappingFor(rq, p, now))
  {
    var sc, first := SearchOf(cfg, s.table, rq, inUse), FirstPort(rq);
    var p, proto := Cyclic(first, Stop(sc, first)), ProtoOf(rq);
    if !HasKey(s.table, p, proto) {
      FindAppended(s.table, MappingFor(rq, p, now));
    } else if k.deleted {
      FindAppendedAfterDrop(s.table, MappingFor(rq, p, now));
    }
  }

  /** The port granted is the first acceptable one from the suggested port upward. */
  lemma SuccessIsFirst(cfg: Config, s: State, rq: MapRequest, now: U32, inUse: Port -> bool, k: Kernel)
    requires rq.lifetime > 0 && rq.iport != 0
    requires Map(cfg, s, rq, now, inUse, k).1.result in {SUCCESS, NETWORK_FAILURE}
    ensures var sc := SearchOf(cfg, s.table, rq, inUse);
            exists n: nat :: n < 65535 && StopsAt(sc, FirstPort(rq), n)
              && Map(cfg, s, rq, now, inUse, k).1.eport == Cyclic(FirstPort(rq), n)
  {
    var sc := SearchOf(cfg, s.table, rq, inUse);
    var n := Stop(sc, FirstPort(rq));
    assert StopsAt(sc, FirstPort(rq), n);
  }

  /** The client gets the port it suggests, or the port equal to its internal one if it suggests none,
      exactly if that port is permitted, not in use, and free or leading to the client already. */
  lemma SuggestedPortWins(cfg: Config, s: State, rq: MapRequest, now: U32, inUse: Port -> bool, k: Kernel)
    requires rq.lifetime > 0 && rq.iport != 0
    ensures var wanted: Port := if rq.eport != 0 then rq.eport else rq.iport;
            var found, out := Find(s.table, wanted, ProtoOf(rq)), Map(cfg, s, rq, now, inUse, k).1;
            (out.result == 0 || out.result == 3) && out.eport == wanted
            <==> Permitted(cfg.perms, wanted, rq.client, rq.iport) && !inUse(wanted)
                 && (found.None? || (found.value.iaddr == rq.client && found.value.iport == rq.iport))
  {
    var sc := SearchOf(cfg, s.table, rq, inUse);
    var wanted: Port := if rq.eport != 0 then rq.eport else rq.iport;
    CyclicStep(wanted, 0);
    var n := Stop(sc, wanted);
    if !Blocked(sc, wanted) {
      StopUnique(sc, wanted, 0);
    } else if n < 65535 {
      CyclicStep(wanted, n);
    }
  }

  /** Every port between the suggested one and the one granted, upward and going on at 1 behind 65535, was
      not permitted, or in use, or leads elsewhere. */
  lemma PortsBetweenAreTaken(cfg: Config, s: State, rq: MapRequest, now: U32, inUse: Port -> bool, k: Kernel, q: Port)
    requires rq.lifetime > 0 && rq.iport != 0
    requires var out := Map(cfg, s, rq, now, inUse, k).1; out.result == 0 || out.result == 3
    requires OnTheWay(if rq.eport != 0 then rq.eport else rq.iport, Map(cfg, s, rq, now, inUse, k).1.eport, q)
    ensures var found := Find(s.table, q, ProtoOf(rq));
            || !Permitted(cfg.perms, q, rq.client, rq.iport) || inUse(q)
            || (found.Some? && !(found.value.iaddr == rq.client && found.value.iport == rq.iport))
  {
    var sc := SearchOf(cfg, s.table, rq, inUse);
    StopIsFirst(sc, FirstPort(rq), Stop(sc, FirstPort(rq)));
    assert Blocked(sc, q);
  }

  lemma {:induction false} FindAppended(t: seq<Mapping>, m: Mapping)
    requires !HasKey(t, m.eport, m.proto)
    ensures Find(t + [m], m.eport, m.proto) == Some(m)
  {
    if t == [] {
      assert t + [m] == [m];
    } else {
      assert !At(t[0], m.eport, m.proto);
      assert forall i | 0 <= i < |t[1..]| :: t[1..][i] == t[i + 1];
      assert (t + [m])[1..] == t[1..] + [m];
      FindAppended(t[1..], m);
    }
  }

  lemma FindAppendedAfterDrop(t: seq<Mapping>, m: Mapping)
    ensures Find(Drop(t, ByKey(m.eport, m.proto)) + [m], m.eport, m.proto) == Some(m)
  {
    var d := Drop(t, ByKey(m.eport, m.proto));
    DropMembers(t, ByKey(m.eport, m.proto));
    assert forall i | 0 <= i < |d| :: d[i] in d;
    FindAppended(d, m);
  }

  // ---- what an unmap request removes ----

  /** The request succeeds exactly if the firewall lets go of every mapping it names, and then
      the table is the old one, in order, without those mappings. */
  lemma {:induction false} UnmapRemovesNamed(t: seq<Mapping>, rq: MapRequest, deletable: (Port, Proto) -> bool)
    ensures var sel, out := NatPmpOf(rq.client, rq.iport, ProtoOf(rq)), Unmap(t, rq, deletable);
            && (!out.1 <==> forall m | m in t && Selected(sel, m) :: deletable(m.eport, m.proto))
            && (!out.1 ==> out.0 == Drop(t, sel))
  {
    if t != [] {
      UnmapRemovesNamed(t[1..], rq, deletable);
    }
  }

  /** Even when the firewall refuses, only mappings the request names are gone, and order is kept. */
  lemma {:induction false} UnmapKeepsOthers(t: seq<Mapping>, rq: MapRequest, deletable: (Port, Proto) -> bool)
    ensures var sel := NatPmpOf(rq.client, rq.iport, ProtoOf(rq));
            Drop(Unmap(t, rq, deletable).0, sel) == Drop(t, sel)
    ensures forall m | m in Unmap(t, rq, deletable).0 :: m in t
  {
    if t != [] {
      UnmapKeepsOthers(t[1..], rq, deletable);
    }
  }

  /** If the firewall refuses nothing, what goes is exactly every mapping of the client that is marked as one
      of NAT-PMP and, unless internal port 0 asks for all, leads to that port by that protocol. */
  lemma UnmapIsExact(t: seq<Mapping>, rq: MapRequest, deletable: (Port, Proto) -> bool, m: Mapping)
    requires forall e: Port, p: Proto :: deletable(e, p)
    ensures m in Unmap(t, rq, deletable).0 <==>
            m in t && !(m.iaddr == rq.client && |m.desc| >= 7 && m.desc[..7] == "NAT-PMP"
                        && (rq.iport == 0 || (m.iport == rq.iport && m.proto == if rq.tcp then 6 else 17)))
  {
    UnmapRemovesNamed(t, rq, deletable);
    DropMembers(t, NatPmpOf(rq.client, rq.iport, ProtoOf(rq)));
  }
}
