/** pcpserver.c: MAP requests of the Port Control Protocol (RFC 6887, sections 11 and 13.2) on a NAT44 gateway. */
module Pcp {
  import opened Net
  import opened Permissions
  import opened MappingTable
  import opened Backend
  import opened Redirect
  import opened PortScan
  import NatPmp

  const SUCCESS := 0
  const NOT_AUTHORIZED := 2
  const MALFORMED_REQUEST := 3
  const NO_RESOURCES := 8
  const CANNOT_PROVIDE_EXTERNAL := 11

  /** The fields of pcp_info_t that a MAP request needs; `desc` spells out the client's nonce. */
  datatype MapInfo = MapInfo(client: Addr, intPort: Port, extPort: Port, proto: Proto, desc: string,
                             lifetime: U32, preferFailure: bool)

  /** The lifetime bounds of parseCommonRequestHeader(); 0 asks for a deletion and stays 0. */
  function ClampLifetime(lifetime: U32, min: U32, max: U32): (r: U32)
    requires 0 < min < max
    ensures r == 0 <==> lifetime == 0
    ensures r != 0 ==> min <= r <= max
    ensures min <= lifetime <= max ==> r == lifetime
    ensures lifetime > max ==> r == max
    ensures 0 < lifetime < min ==> r == min
  {
    var l := if lifetime > max then max else lifetime;
    if l < min && l != 0 then min else l
  }

  function FirstPort(info: MapInfo): Port {
    if info.extPort == 0 then info.intPort else info.extPort
  }

  function SearchOf(cfg: Config, t: seq<Mapping>, info: MapInfo, inUse: Port -> bool, evictable: Port -> bool): Search {
    Search(cfg.perms, t, info.client, info.intPort, info.proto, inUse, evictable, info.preferFailure)
  }

  function MappingFor(info: MapInfo, p: Port, now: U32): Mapping {
    Mapping(p, info.proto, info.client, info.intPort, 0, info.desc, Add32(now, info.lifetime))
  }

  /** The result code, and the external port left in the message. */
  function Take(cfg: Config, s: State, info: MapInfo, p: Port, now: U32, added: bool): (State, nat, Port) {
    var held := HasKey(s.table, p, info.proto);
    var freed := if held then Delete(s, p, info.proto, true).0 else s;
    var out := Insert(cfg, freed, MappingFor(info, p, now), added);
    (out.0, if out.1 < 0 then NO_RESOURCES else SUCCESS, p)
  }

  ghost function Create(cfg: Config, s: State, info: MapInfo, now: U32, inUse: Port -> bool,
                        evictable: Port -> bool, added: bool): (State, nat, Port) {
    var sc, first := SearchOf(cfg, s.table, info, inUse, evictable), FirstPort(info);
    if first == 0 then (s, MALFORMED_REQUEST, 0)
    else
      var stop := Stop(sc, first);
      if stop == 65535 then (s, if SomeAllowed(sc) then NO_RESOURCES else NOT_AUTHORIZED, first)
      else if Unavailable(sc, Cyclic(first, stop)) then (s, CANNOT_PROVIDE_EXTERNAL, Cyclic(first, stop))
      else Take(cfg, s, info, Cyclic(first, stop), now, added)
  }

  /** CreatePCPMap_NAT() */
  method CreateMap(rd: Redirector, info: MapInfo, now: U32, inUse: Port -> bool, evictable: Port -> bool, added: bool)
    returns (code: nat, extPort: Port)
    requires rd.Valid()
    modifies rd, rd.backend
    ensures rd.Valid()
    ensures (rd.S(), code, extPort) == Create(rd.cfg, old(rd.S()), info, now, inUse, evictable, added)
  {
    hide IpfwBackend.Valid, IpfwBackend.Table;
    extPort := if info.extPort == 0 then info.intPort else info.extPort;
    if extPort == 0 {
      return MALFORMED_REQUEST, 0;
    }
    code, extPort := FindPort(rd, info, inUse, evictable);
    if code != SUCCESS {
      return;
    }
    var found := rd.backend.GetRedirectRule(extPort, info.proto);
    if found.Some? {
      ghost var t := rd.S().table;
      var _ := rd.DeleteRedir(extPort, info.proto, true);
      DropMembers(t, ByKey(extPort, info.proto));
    }
    assert !HasKey(rd.S().table, extPort, info.proto) by {
      assert forall i | 0 <= i < |rd.S().table| :: rd.S().table[i] in rd.S().table;
    }
    var r := rd.RedirectInternal(Absent, extPort, info.client, info.intPort, info.proto, info.desc,
                                 Add32(now, info.lifetime), added);
    code := if r < 0 then NO_RESOURCES else SUCCESS;
  }

  /** The do/while loop, up to the deletion of the client's own mapping. */
  method FindPort(rd: Redirector, info: MapInfo, inUse: Port -> bool, evictable: Port -> bool)
    returns (code: nat, extPort: Port)
    requires rd.Valid() && FirstPort(info) != 0
    ensures var sc, first := SearchOf(rd.cfg, rd.S().table, info, inUse, evictable), FirstPort(info);
            var stop := Stop(sc, first);
            && extPort == (if stop < 65535 then Cyclic(first, stop) else first)
            && code == (if stop == 65535 then (if SomeAllowed(sc) then NO_RESOURCES else NOT_AUTHORIZED)
                        else if Unavailable(sc, extPort) then CANNOT_PROVIDE_EXTERNAL
                        else SUCCESS)
  {
    hide IpfwBackend.Valid, IpfwBackend.Table, Permitted, Find, Following, BlockedBefore, AllowedBefore;
    extPort := if info.extPort == 0 then info.intPort else info.extPort;
    var eportFirst: Port := 0;
    var anyAllowed := false;
    ghost var first, sc, i := extPort, SearchOf(rd.cfg, rd.S().table, info, inUse, evictable), 0;
    CyclicStep(first, 0);
    SearchStart(sc, first);
    while true
      invariant 1 <= first && 0 <= i <= 65535
      invariant eportFirst == if i == 0 then 0 else first
      invariant extPort == if i < 65535 then Cyclic(first, i) else first
      invariant BlockedBefore(sc, first, i)
      invariant anyAllowed <==> AllowedBefore(sc, first, i)
      decreases 65535 - i
    {
      if eportFirst == 0 {
        eportFirst := extPort;
      } else if extPort == eportFirst {
        assert i == 65535 by {
          if i < 65535 {
            CyclicStep(first, i);
          }
        }
        StopUnique(sc, first, 65535);
        AllowedOnTheWay(sc, first);
        return if anyAllowed then NO_RESOURCES else NOT_AUTHORIZED, extPort;
      }
      assert i < 65535;
      CyclicStep(first, i);
      SearchStep(sc, first, i);
      var accepted := CheckRule(rd.cfg.perms, extPort, info.client, info.intPort);
      assert accepted == Allowed(sc, Cyclic(first, i));
      if !accepted {
        if info.preferFailure {
          StopUnique(sc, first, i);
          return CANNOT_PROVIDE_EXTERNAL, extPort;
        }
      } else {
        anyAllowed := true;
        if !inUse(extPort) {
          var found := rd.backend.GetRedirectRule(extPort, info.proto);
          if found.None? || (found.value.iaddr == info.client && found.value.iport == info.intPort && evictable(extPort)) {
            assert !Unavailable(sc, extPort);
            StopUnique(sc, first, i);
            return SUCCESS, extPort;
          }
          assert Unavailable(sc, extPort);
          if info.preferFailure {
            StopUnique(sc, first, i);
            return CANNOT_PROVIDE_EXTERNAL, extPort;
          }
        }
      }
      assert Blocked(sc, Cyclic(first, i));
      extPort := Following(extPort);
      i := i + 1;
    }
  }

  // ---- what a client is told ----

  /** With PREFER_FAILURE the client gets the port it asked for or none, unless that port is
      permitted but in use by the gateway itself: then a success is always another port. */
  lemma PreferFailureKeepsPort(cfg: Config, s: State, info: MapInfo, now: U32, inUse: Port -> bool,
                               evictable: Port -> bool, added: bool)
    requires info.preferFailure && FirstPort(info) != 0
    requires Create(cfg, s, info, now, inUse, evictable, added).1 == SUCCESS
    ensures var first := FirstPort(info);
            Create(cfg, s, info, now, inUse, evictable, added).2 == first
            <==> !(Permitted(cfg.perms, first, info.client, info.intPort) && inUse(first))
  {
    var sc, first := SearchOf(cfg, s.table, info, inUse, evictable), FirstPort(info);
    var stop := Stop(sc, first);
    CyclicStep(first, 0);
    if stop > 0 {
      CyclicStep(first, stop);
      assert Blocked(sc, Cyclic(first, 0));
    }
  }

  /** The deviation is real: port 80 is in use, and a strict request for it is granted port 81. */
  lemma PreferFailureMovesOn()
    ensures var info := MapInfo(0x0a00_0002, 8080, 80, IPPROTO_TCP, "PCP MAP", 120, true);
            var out := Create(Config([], false), State([], 0), info, 7, (p: Port) => p == 80, NatPmp.EVERY_PORT, true);
            out.1 == SUCCESS && out.2 == 81
  {
    var info := MapInfo(0x0a00_0002, 8080, 80, IPPROTO_TCP, "PCP MAP", 120, true);
    var sc := SearchOf(Config([], false), [], info, (p: Port) => p == 80, NatPmp.EVERY_PORT);
    assert Cyclic(80, 0) == 80 && Cyclic(80, 1) == 81;
    StopUnique(sc, 80, 1);
  }

  /** The firewall would not take a rule for the request. */
  predicate NoRule(cfg: Config, info: MapInfo, added: bool) {
    cfg.disabled || !ValidProto(info.proto) || !added
  }

  /** What a request is refused with. Without a port at all it is malformed. Without PREFER_FAILURE: "not
      authorized" exactly when no port is permitted, and "no resources" exactly when all ports are
      unavailable or the firewall refuses the new rule. With PREFER_FAILURE the request passes over ports
      that are permitted but in use, and what counts is the first other port: it is refused with "cannot
      provide external" exactly when that one is unavailable, with "no resources" exactly when there is none
      or the firewall refuses the new rule, and never with "not authorized". */
  lemma RefusalsAreExact(cfg: Config, s: State, info: MapInfo, now: U32, inUse: Port -> bool,
                         evictable: Port -> bool, added: bool)
    ensures Create(cfg, s, info, now, inUse, evictable, added).1 == 3 <==> FirstPort(info) == 0
    ensures FirstPort(info) != 0 && !info.preferFailure ==>
              var sc, code := SearchOf(cfg, s.table, info, inUse, evictable), Create(cfg, s, info, now, inUse, evictable, added).1;
              var full := forall p: Port | 1 <= p :: Unavailable(sc, p);
              && (code == 2 <==> forall p: Port | 1 <= p :: !Allowed(sc, p))
              && (code == 8 <==> (full && SomeAllowed(sc)) || (!full && NoRule(cfg, info, added)))
              && (code == 0 <==> !full && !NoRule(cfg, info, added))
    ensures FirstPort(info) != 0 && info.preferFailure ==>
              var sc, code := SearchOf(cfg, s.table, info, inUse, evictable), Create(cfg, s, info, now, inUse, evictable, added).1;
              && code != 2
              && (code == 11 <==>
                  exists k: nat :: k < 65535 && FirstNotInUse(sc, FirstPort(info), k) && Unavailable(sc, Cyclic(FirstPort(info), k)))
              && (code == 8 <==>
                  (forall p: Port | 1 <= p :: Allowed(sc, p) && inUse(p))
                  || exists k: nat :: k < 65535 && FirstNotInUse(sc, FirstPort(info), k)
                       && !Unavailable(sc, Cyclic(FirstPort(info), k)) && NoRule(cfg, info, added))
  {
    var sc, first := SearchOf(cfg, s.table, info, inUse, evictable), FirstPort(info);
    if first != 0 {
      var stop := Stop(sc, first);
      forall k: nat | k < 65535 && FirstNotInUse(sc, first, k) ensures info.preferFailure ==> k == stop {
        if info.preferFailure {
          assert StopsAt(sc, first, k);
          StopUnique(sc, first, k);
        }
      }
      if stop == 65535 {
        forall p: Port | 1 <= p
          ensures if info.preferFailure then Allowed(sc, p) && inUse(p) else Unavailable(sc, p)
        {
          CyclicVisitsAll(first, p);
          var j :| 0 <= j < 65535 && Cyclic(first, j) == p;
          assert Blocked(sc, p);
        }
        assert Allowed(sc, 1) || !info.preferFailure;
      } else {
        var p := Cyclic(first, stop);
        assert 1 <= p && !Blocked(sc, p);
        if info.preferFailure {
          assert FirstNotInUse(sc, first, stop);
        }
      }
    }
  }

  /** The `k`-th port of the search is the first that is not both permitted and in use. */
  ghost predicate FirstNotInUse(sc: Search, first: Port, k: nat)
    requires 1 <= first && k < 65535
  {
    !(Allowed(sc, Cyclic(first, k)) && sc.inUse(Cyclic(first, k)))
    && forall j | 0 <= j < k :: Allowed(sc, Cyclic(first, j)) && sc.inUse(Cyclic(first, j))
  }

  /** A success puts the client's mapping, with its fresh lease and nonce, on a permitted port. */
  lemma SuccessGrants(cfg: Config, s: State, info: MapInfo, now: U32, inUse: Port -> bool,
                      evictable: Port -> bool, added: bool)
    requires Create(cfg, s, info, now, inUse, evictable, added).1 == SUCCESS
    ensures var out := Create(cfg, s, info, now, inUse, evictable, added);
            && Find(out.0.table, out.2, info.proto)
               == Some(Mapping(out.2, info.proto, info.client, info.intPort, 0, info.desc, Add32(now, info.lifetime)))
            && Permitted(cfg.perms, out.2, info.client, info.intPort) && !inUse(out.2)
  {
    var sc, first := SearchOf(cfg, s.table, info, inUse, evictable), FirstPort(info);
    var p := Cyclic(first, Stop(sc, first));
    if HasKey(s.table, p, info.proto) {
      NatPmp.FindAppendedAfterDrop(s.table, MappingFor(info, p, now));
    } else {
      NatPmp.FindAppended(s.table, MappingFor(info, p, now));
    }
  }

  /** Without PREFER_FAILURE the client is answered with the port it suggests, or with the port equal to its
      internal one if it suggests none, and a mapping is tried there, exactly if that port is permitted, not in
      use, and free or the client's own and let go by the firewall. */
  lemma SuggestedPortWins(cfg: Config, s: State, info: MapInfo, now: U32, inUse: Port -> bool, evictable: Port -> bool, added: bool)
    requires !info.preferFailure && (info.extPort != 0 || info.intPort != 0)
    ensures var wanted: Port := if info.extPort != 0 then info.extPort else info.intPort;
            var found, out := Find(s.table, wanted, info.proto), Create(cfg, s, info, now, inUse, evictable, added);
            var free := Permitted(cfg.perms, wanted, info.client, info.intPort) && !inUse(wanted)
                        && (found.None? || (found.value.iaddr == info.client && found.value.iport == info.intPort && evictable(wanted)));
            && (free ==> out.2 == wanted && (out.1 == 0 || out.1 == 8))
            && (out.1 == 0 && out.2 == wanted ==> free)
  {
    var sc := SearchOf(cfg, s.table, info, inUse, evictable);
    var wanted: Port := if info.extPort != 0 then info.extPort else info.intPort;
    CyclicStep(wanted, 0);
    var n := Stop(sc, wanted);
    if !Blocked(sc, wanted) {
      StopUnique(sc, wanted, 0);
    } else if n < 65535 {
      CyclicStep(wanted, n);
    }
  }

  /** Every port between that one and the one granted, upward and going on at 1 behind 65535, was not
      permitted, or in use, or leads elsewhere, or was not let go by the firewall. */
  lemma PortsBetweenAreTaken(cfg: Config, s: State, info: MapInfo, now: U32, inUse: Port -> bool,
                             evictable: Port -> bool, added: bool, q: Port)
    requires !info.preferFailure && Create(cfg, s, info, now, inUse, evictable, added).1 == 0
    requires OnTheWay(if info.extPort != 0 then info.extPort else info.intPort, Create(cfg, s, info, now, inUse, evictable, added).2, q)
    ensures var found := Find(s.table, q, info.proto);
            || !Permitted(cfg.perms, q, info.client, info.intPort) || inUse(q)
            || (found.Some? && !(found.value.iaddr == info.client && found.value.iport == info.intPort && evictable(q)))
  {
    var sc := SearchOf(cfg, s.table, info, inUse, evictable);
    StopIsFirst(sc, FirstPort(info), Stop(sc, FirstPort(info)));
    assert Blocked(sc, q);
  }

  // ---- the nonce ----

  function HexDigit(d: nat): char
    requires d < 16
  {
    if d < 10 then '0' + d as char else 'a' + (d - 10) as char
  }

  /** %08x */
  function Hex(n: U32, digits: nat): (s: string)
    ensures |s| == digits
  {
    if digits == 0 then "" else Hex(n / 16, digits - 1) + [HexDigit(n % 16)]
  }

  /** The description made from the client's nonce, the same in a creation and in a deletion. */
  function Description(nonce: (U32, U32, U32)): string {
    Cut("PCP MAP " + (Hex(nonce.0, 8) + (Hex(nonce.1, 8) + Hex(nonce.2, 8))), 64)
  }

  lemma {:induction false} HexTells(m: U32, n: U32, digits: nat)
    requires Hex(m, digits) == Hex(n, digits) && m < Power16(digits) && n < Power16(digits)
    ensures m == n
  {
    if digits > 0 {
      var a, b := Hex(m, digits), Hex(n, digits);
      assert a[..digits - 1] == Hex(m / 16, digits - 1) && b[..digits - 1] == Hex(n / 16, digits - 1);
      assert HexDigit(m % 16) == a[digits - 1] == HexDigit(n % 16);
      HexTells(m / 16, n / 16, digits - 1);
    }
  }

  function Power16(e: nat): nat {
    if e == 0 then 1 else 16 * Power16(e - 1)
  }

  lemma EightDigits()
    ensures Power16(8) == 0x1_0000_0000
  {
    assert Power16(4) == 65536;
  }

  lemma DescriptionParts(n: (U32, U32, U32))
    ensures var d := Description(n);
            |d| == 32 && d[..8] == "PCP MAP " && d[8..16] == Hex(n.0, 8) && d[16..24] == Hex(n.1, 8) && d[24..] == Hex(n.2, 8)
  {
    hide Hex;
    var x, y, z := Hex(n.0, 8), Hex(n.1, 8), Hex(n.2, 8);
    var d := "PCP MAP " + (x + (y + z));
    assert d[..8] == "PCP MAP " && d[8..16] == x && d[16..24] == y && d[24..] == z;
  }

  lemma HexStep(n: U32, digits: nat)
    requires digits > 0
    ensures Hex(n, digits) == Hex(n / 16, digits - 1) + [HexDigit(n % 16)]
  {}

  lemma HexText()
    ensures Hex(0x1234_abcd, 8) == "1234abcd" && Hex(0xef, 2) == "ef" && Hex(0x567890, 6) == "567890"
  {
    hide Hex;
    HexStep(0x1234_abcd, 8);
    HexStep(0x1234_abc, 7);
    HexStep(0x1234_ab, 6);
    HexStep(0x1234_a, 5);
    HexStep(0x1234, 4);
    HexStep(0x123, 3);
    HexStep(0x12, 2);
    HexStep(0x1, 1);
    HexStep(0xef, 2);
    HexStep(0xe, 1);
    HexStep(0x567890, 6);
    HexStep(0x56789, 5);
    HexStep(0x5678, 4);
    HexStep(0x567, 3);
    HexStep(0x56, 2);
    HexStep(0x5, 1);
    HexNothing();
  }

  lemma HexNothing()
    ensures Hex(0, 0) == ""
  {}

  /** A description is 32 characters long, so it is never cut, and tells the nonce. */
  lemma DescriptionTells(a: (U32, U32, U32), b: (U32, U32, U32))
    ensures |Description(a)| == 32 && Description(a)[..8] == "PCP MAP "
    ensures Description(a) == Description(b) ==> a == b
  {
    hide Hex, Description;
    DescriptionParts(a);
    DescriptionParts(b);
    if Description(a) == Description(b) {
      EightDigits();
      HexTells(a.0, b.0, 8);
      HexTells(a.1, b.1, 8);
      HexTells(a.2, b.2, 8);
    }
  }

  // ---- removing ----

  /** The mappings a MAP request with lifetime 0 is about; internal port 0 means all of them. */
  predicate Named(m: Mapping, info: MapInfo) {
    m.iaddr == info.client && m.proto == info.proto && (m.iport == info.intPort || info.intPort == 0)
  }

  ghost predicate FirstNamed(t: seq<Mapping>, info: MapInfo, i: nat) {
    i < |t| && Named(t[i], info) && forall j | 0 <= j < i :: !Named(t[j], info)
  }

  /** DeletePCPMap(): only the first mapping named is looked at. Its description has to spell out
      the client's nonce; then it is the one mapping removed. */
  method DeleteMap(rd: Redirector, info: MapInfo, deleted: bool) returns (code: nat)
    requires rd.Valid()
    modifies rd.backend
    ensures rd.Valid()
    ensures (rd.S(), code) == Remove(old(rd.S()), info, deleted)
  {
    hide IpfwBackend.Valid, IpfwBackend.Table;
    var index := 0;
    ghost var t := rd.S().table;
    assert t[0..] == t;
    var found := rd.backend.GetRedirectRuleByIndex(index, 64);
    while found.Some?
      invariant rd.Valid() && rd.S() == old(rd.S()) && 0 <= index <= |t| && t == rd.S().table
      invariant found.Some? <==> index < |t|
      invariant found.Some? ==> found.value == t[index].(desc := Cut(t[index].desc, 64))
      invariant FirstMatching(t[index..], info) == FirstMatching(t, info)
      decreases |t| - index
    {
      var m := found.value;
      assert t[index..][1..] == t[index + 1..];
      if m.iaddr == info.client && m.proto == info.proto && (m.iport == info.intPort || info.intPort == 0) {
        if m.desc != info.desc {
          return NOT_AUTHORIZED;
        }
        var r := rd.DeleteRedir(m.eport, m.proto, deleted);
        return if r >= 0 then SUCCESS else NO_RESOURCES;
      }
      index := index + 1;
      found := rd.backend.GetRedirectRuleByIndex(index, 64);
    }
    return NO_RESOURCES;
  }

  function FirstMatching(t: seq<Mapping>, info: MapInfo): Option<Mapping> {
    if t == [] then None
    else if Named(t[0], info) then Some(t[0])
    else FirstMatching(t[1..], info)
  }

  function Remove(s: State, info: MapInfo, deleted: bool): (State, nat) {
    match FirstMatching(s.table, info)
    case None => (s, NO_RESOURCES)
    case Some(m) =>
      if Cut(m.desc, 64) != info.desc then (s, NOT_AUTHORIZED)
      else
        var out := Delete(s, m.eport, m.proto, deleted);
        (out.0, if out.1 >= 0 then SUCCESS else NO_RESOURCES)
  }

  lemma {:induction false} FirstMatchingIsFirst(t: seq<Mapping>, info: MapInfo, i: nat)
    requires FirstNamed(t, info, i)
    ensures FirstMatching(t, info) == Some(t[i])
  {
    if i > 0 {
      assert !Named(t[0], info);
      FirstMatchingIsFirst(t[1..], info, i - 1);
    }
  }

  /** A removal takes away the first mapping the request names, and that one only, and only if its
      description is the one made from the client's nonce; the rest of the table stays in order. */
  lemma RemoveTakesFirst(s: State, info: MapInfo, deleted: bool, i: nat)
    requires UniqueKeys(s.table) && FirstNamed(s.table, info, i)
    ensures var out, m := Remove(s, info, deleted), s.table[i];
            && (out.1 == SUCCESS <==> Cut(m.desc, 64) == info.desc && deleted)
            && (out.1 == NOT_AUTHORIZED <==> Cut(m.desc, 64) != info.desc)
            && out.0 == if out.1 == SUCCESS then s.(table := s.table[..i] + s.table[i + 1..]) else s
  {
    FirstMatchingIsFirst(s.table, info, i);
    DropOne(s.table, i);
    assert HasKey(s.table, s.table[i].eport, s.table[i].proto);
  }

  lemma {:induction false} FirstMatchingNamed(t: seq<Mapping>, info: MapInfo)
    ensures var first := FirstMatching(t, info);
            && (first.None? <==> forall m | m in t :: !Named(m, info))
            && (first.Some? ==> first.value in t && Named(first.value, info))
  {
    if t != [] {
      FirstMatchingNamed(t[1..], info);
    }
  }

  /** "Remove all the mappings for this client" is what a deletion does if and only if there is none, or the
      first one carries the client's nonce, the firewall lets it go, and there is no other. */
  lemma DeletionRemovesAllIff(s: State, info: MapInfo, deleted: bool)
    requires UniqueKeys(s.table)
    ensures var first := FirstMatching(s.table, info);
            (forall m | m in Remove(s, info, deleted).0.table :: !Named(m, info)) <==>
            first.None? || (Cut(first.value.desc, 64) == info.desc && deleted
                            && forall m | m in s.table && Named(m, info) :: m == first.value)
  {
    FirstMatchingNamed(s.table, info);
    var first := FirstMatching(s.table, info);
    if first.Some? {
      var sel := ByKey(first.value.eport, first.value.proto);
      DropMembers(s.table, sel);
      var i :| 0 <= i < |s.table| && s.table[i] == first.value;
      forall m | m in s.table && Selected(sel, m) ensures m == first.value {
        var j :| 0 <= j < |s.table| && s.table[j] == m;
        SameKeySameIndex(s.table, i, j);
      }
      assert HasKey(s.table, first.value.eport, first.value.proto);
    }
  }

  /** The deviation is real: of two mappings of a client that asks for all to be removed, the second stays,
      and the answer is success. */
  lemma DeletionLeavesSecond()
    ensures var a := Mapping(80, IPPROTO_TCP, 0x0a00_0002, 8080, 0, "PCP MAP", 0);
            var b := a.(eport := 81, iport := 8081);
            var info := MapInfo(0x0a00_0002, 0, 0, IPPROTO_TCP, "PCP MAP", 0, false);
            UniqueKeys([a, b]) && Named(a, info) && Named(b, info)
            && Remove(State([a, b], 0), info, true) == (State([b], 0), SUCCESS)
  {
    var a := Mapping(80, IPPROTO_TCP, 0x0a00_0002, 8080, 0, "PCP MAP", 0);
    var b := a.(eport := 81, iport := 8081);
    var info := MapInfo(0x0a00_0002, 0, 0, IPPROTO_TCP, "PCP MAP", 0, false);
    var t := [a, b];
    assert t[0] == a && t[1] == b && UniqueKeys(t);
    assert FirstNamed(t, info, 0);
    RemoveTakesFirst(State(t, 0), info, true, 0);
    assert t[..0] + t[1..] == [b];
  }

  /** A mapping created under a nonce can be deleted, by its client, with that nonce only: with another one
      the answer is "not authorized" (2) and nothing changes. */
  lemma OnlyNonceDeletes(cfg: Config, s: State, info: MapInfo, nonce: (U32, U32, U32), now: U32, inUse: Port -> bool,
                         evictable: Port -> bool, added: bool, nonce': (U32, U32, U32), extPort': Port, deleted: bool)
    requires info.desc == Description(nonce)
    requires Create(cfg, s, info, now, inUse, evictable, added).1 == 0
    requires var (after, _, p) := Create(cfg, s, info, now, inUse, evictable, added);
             UniqueKeys(after.table) && FirstMatching(after.table, info) == Find(after.table, p, info.proto)
    ensures var (after, _, p) := Create(cfg, s, info, now, inUse, evictable, added);
            var info' := info.(extPort := extPort', lifetime := 0, desc := Description(nonce'));
            var (gone, code) := Remove(after, info', deleted);
            && (code == 2 <==> nonce' != nonce)
            && (code == 0 <==> nonce' == nonce && deleted)
            && (code == 0 ==> Find(gone.table, p, info.proto) == None)
            && (code != 0 ==> gone == after)
  {
    hide Description;
    SuccessGrants(cfg, s, info, now, inUse, evictable, added);
    var (after, _, p) := Create(cfg, s, info, now, inUse, evictable, added);
    var info' := info.(extPort := extPort', lifetime := 0, desc := Description(nonce'));
    SameNamed(after.table, info, info');
    DescriptionTells(nonce, nonce');
    var gone := Drop(after.table, ByKey(p, info.proto));
    DropMembers(after.table, ByKey(p, info.proto));
    assert forall i | 0 <= i < |gone| :: gone[i] in gone;
  }

  lemma {:induction false} SameNamed(t: seq<Mapping>, info: MapInfo, info': MapInfo)
    requires info.client == info'.client && info.proto == info'.proto && info.intPort == info'.intPort
    ensures FirstMatching(t, info') == FirstMatching(t, info)
  {
    if t != [] {
      SameNamed(t[1..], info, info');
    }
  }
}
