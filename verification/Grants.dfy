/** What one request does to the mapping it is about, and that it leaves all others alone. */
module Grants {
  import opened Net
  import opened Permissions
  import opened MappingTable
  import opened Backend
  import opened Redirect
  import opened PortScan
  import NatPmp
  import Pcp

  lemma FindStep(m: Mapping, t: seq<Mapping>, e: Port, p: Proto)
    ensures Find([m] + t, e, p) == if At(m, e, p) then Some(m) else Find(t, e, p)
  {
    assert ([m] + t)[1..] == t;
  }

  lemma DropStep(t: seq<Mapping>, sel: Selector)
    requires t != []
    ensures Drop(t, sel) == if Selected(sel, t[0]) then Drop(t[1..], sel) else [t[0]] + Drop(t[1..], sel)
  {}

  lemma {:induction false} FindAfterDrop(t: seq<Mapping>, eport: Port, proto: Proto, e: Port, p: Proto)
    ensures Find(Drop(t, ByKey(eport, proto)), e, p) == if e == eport && p == proto then None else Find(t, e, p)
  {
    hide Find, Drop;
    if t == [] {
      NothingFound(e, p);
    } else {
      DropStep(t, ByKey(eport, proto));
      FindAfterDrop(t[1..], eport, proto, e, p);
      FindStep(t[0], t[1..], e, p);
      assert [t[0]] + t[1..] == t;
      FindStep(t[0], Drop(t[1..], ByKey(eport, proto)), e, p);
    }
  }

  lemma NothingFound(e: Port, p: Proto)
    ensures Find([], e, p) == None && forall sel :: Drop([], sel) == []
  {}

  lemma {:induction false} FindAfterAppend(t: seq<Mapping>, m: Mapping, e: Port, p: Proto)
    ensures Find(t + [m], e, p)
         == if HasKey(t, e, p) then Find(t, e, p) else if At(m, e, p) then Some(m) else None
  {
    if t == [] {
      assert t + [m] == [m];
    } else {
      assert (t + [m])[1..] == t[1..] + [m];
      assert (t + [m])[0] == t[0];
      FindAfterAppend(t[1..], m, e, p);
      if !At(t[0], e, p) && HasKey(t, e, p) {
        var i :| 0 <= i < |t| && At(t[i], e, p);
        assert At(t[1..][i - 1], e, p);
      }
    }
  }

  lemma {:induction false} FindAfterRelabel(t: seq<Mapping>, eport: Port, proto: Proto, desc: string, timestamp: U32, e: Port, p: Proto)
    ensures var found := Find(t, e, p);
            Find(Relabel(t, eport, proto, desc, timestamp), e, p)
            == if e == eport && p == proto && found.Some? then Some(found.value.(desc := desc, timestamp := timestamp)) else found
  {
    if t != [] {
      assert Relabel(t, eport, proto, desc, timestamp)[1..] == Relabel(t[1..], eport, proto, desc, timestamp);
      FindAfterRelabel(t[1..], eport, proto, desc, timestamp, e, p);
    }
  }

  lemma FindAfterUpdate(t: seq<Mapping>, q: Request, timestamp: U32, deleted: bool, added: bool, e: Port, p: Proto)
    ensures var (u, r) := UpdatePort(t, q.eport, q.proto, q.iport, q.desc, timestamp, deleted, added);
            var found := Find(t, e, p);
            Find(u, e, p)
            == if !(e == q.eport && p == q.proto) || found.None? || !deleted then found
               else if added then Some(found.value.(iport := q.iport, desc := q.desc, timestamp := timestamp)) else None
  {
    FindAfterDrop(t, q.eport, q.proto, e, p);
    if HasKey(t, q.eport, q.proto) {
      var m := Find(t, q.eport, q.proto).value.(iport := q.iport, desc := q.desc, timestamp := timestamp);
      FindAfterAppend(Drop(t, ByKey(q.eport, q.proto)), m, e, p);
    }
  }

  // ---- the others ----

  /** upnp_redirect() changes no other mapping. */
  lemma AddTouchesOneKey(cfg: Config, s: State, q: Request, now: U32, inUse: bool, k: Kernel, e: Port, p: Proto)
    requires !(e == q.eport && p == q.proto)
    ensures Find(AddOrRenew(cfg, s, q, now, inUse, k).0.table, e, p) == Find(s.table, e, p)
  {
    var stamp := Stamp(now, q.lease);
    FindAfterAppend(s.table, NewMapping(q, stamp), e, p);
    FindAfterRelabel(s.table, q.eport, q.proto, q.desc, stamp, e, p);
    FindAfterUpdate(s.table, q, stamp, k.deleted, k.added, e, p);
    var once := UpdatePort(s.table, q.eport, q.proto, q.iport, q.desc, stamp, k.deleted, k.added).0;
    FindAfterUpdate(once, q, stamp, k.deletedAgain, k.addedAgain, e, p);
  }

  /** An own mapping removed and a new one inserted under the same key. */
  lemma ReplaceTouchesOneKey(cfg: Config, s: State, m: Mapping, added: bool, e: Port, p: Proto)
    requires !At(m, e, p)
    ensures Find(Insert(cfg, s, m, added).0.table, e, p) == Find(s.table, e, p)
    ensures var freed := Delete(s, m.eport, m.proto, true).0;
            Find(Insert(cfg, freed, m, added).0.table, e, p) == Find(s.table, e, p)
  {
    FindAfterAppend(s.table, m, e, p);
    FindAfterDrop(s.table, m.eport, m.proto, e, p);
    FindAfterAppend(Drop(s.table, ByKey(m.eport, m.proto)), m, e, p);
  }

  /** A NAT-PMP mapping request changes no other mapping than the one it is answered with. */
  lemma NatPmpMapTouchesOneKey(cfg: Config, s: State, rq: NatPmp.MapRequest, now: U32, inUse: Port -> bool, k: Kernel,
                               e: Port, p: Proto)
    requires rq.lifetime > 0
    requires !(e == NatPmp.Map(cfg, s, rq, now, inUse, k).1.eport && p == NatPmp.ProtoOf(rq))
    ensures Find(NatPmp.Map(cfg, s, rq, now, inUse, k).0.table, e, p) == Find(s.table, e, p)
  {
    var m := NatPmp.MappingFor(rq, NatPmp.Map(cfg, s, rq, now, inUse, k).1.eport, now);
    ReplaceTouchesOneKey(cfg, s, m, k.added, e, p);
  }

  /** Neither does a PCP MAP request. */
  lemma PcpMapTouchesOneKey(cfg: Config, s: State, info: Pcp.MapInfo, now: U32, inUse: Port -> bool,
                            evictable: Port -> bool, added: bool, e: Port, p: Proto)
    requires !(e == Pcp.Create(cfg, s, info, now, inUse, evictable, added).2 && p == info.proto)
    ensures Find(Pcp.Create(cfg, s, info, now, inUse, evictable, added).0.table, e, p) == Find(s.table, e, p)
  {
    var m := Pcp.MappingFor(info, Pcp.Create(cfg, s, info, now, inUse, evictable, added).2, now);
    ReplaceTouchesOneKey(cfg, s, m, added, e, p);
  }

  /** A cleaning pass leaves every mapping that has not expired, and takes every other one it can. */
  lemma {:induction false} CleaningTakesExpired(t: seq<Mapping>, now: U32, deletable: (Port, Proto) -> bool, e: Port, p: Proto)
    requires UniqueKeys(t)
    ensures var was := Find(t, e, p);
            Find(Drop(t, ExpiredBy(now, deletable)), e, p)
            == if was.Some? && Expired(was.value, now) && deletable(e, p) then None else was
  {
    hide Find, Drop;
    var sel := ExpiredBy(now, deletable);
    if t == [] {
      NothingFound(e, p);
    } else {
      DropStep(t, sel);
      CleaningTakesExpired(t[1..], now, deletable, e, p);
      FindStep(t[0], t[1..], e, p);
      assert [t[0]] + t[1..] == t;
      FindStep(t[0], Drop(t[1..], sel), e, p);
      if At(t[0], e, p) {
        FirstIsOnly(t, e, p);
      }
    }
  }

  lemma FirstIsOnly(t: seq<Mapping>, e: Port, p: Proto)
    requires UniqueKeys(t) && t != [] && At(t[0], e, p)
    ensures Find(t[1..], e, p) == None
  {
    forall i | 0 <= i < |t[1..]| ensures !At(t[1..][i], e, p) {
      assert !At(t[0], t[i + 1].eport, t[i + 1].proto);
    }
  }

  // ---- the mapping itself ----

  /** A success of upnp_redirect(): the port leads to the client and internal port asked for, under the
      description and for the lease asked for; a renewal keeps the remote host. */
  lemma AddGrants(cfg: Config, s: State, q: Request, now: U32, inUse: bool, k: Kernel)
    requires AddOrRenew(cfg, s, q, now, inUse, k).1 == 0
    ensures var was := Find(s.table, q.eport, q.proto);
            && Permitted(cfg.perms, q.eport, q.iaddr, q.iport)
            && (was.Some? ==> was.value.iaddr == q.iaddr && SameHost(q.rhost, was.value.src))
            && Find(AddOrRenew(cfg, s, q, now, inUse, k).0.table, q.eport, q.proto)
               == Some(Mapping(q.eport, q.proto, q.iaddr, q.iport, if was.Some? then was.value.src else SrcOf(q.rhost),
                               q.desc, Stamp(now, q.lease)))
  {
    var stamp := Stamp(now, q.lease);
    FindAfterAppend(s.table, NewMapping(q, stamp), q.eport, q.proto);
    FindAfterRelabel(s.table, q.eport, q.proto, q.desc, stamp, q.eport, q.proto);
    FindAfterUpdate(s.table, q, stamp, k.deleted, k.added, q.eport, q.proto);
    var once := UpdatePort(s.table, q.eport, q.proto, q.iport, q.desc, stamp, k.deleted, k.added).0;
    FindAfterUpdate(once, q, stamp, k.deletedAgain, k.addedAgain, q.eport, q.proto);
  }

  /** A renewal loses the client's mapping if and only if it changes the internal port and the firewall,
      in one of the two rounds, takes the old rule away but does not accept the new one. */
  lemma RenewalLosesIff(cfg: Config, s: State, q: Request, now: U32, inUse: bool, k: Kernel)
    requires Permitted(cfg.perms, q.eport, q.iaddr, q.iport) && Renews(s, q)
    ensures !HasKey(AddOrRenew(cfg, s, q, now, inUse, k).0.table, q.eport, q.proto)
       <==> q.iport != Find(s.table, q.eport, q.proto).value.iport
            && ((k.deleted && !k.added) || (k.deletedAgain && !k.addedAgain))
  {
    var stamp := Stamp(now, q.lease);
    FindAfterRelabel(s.table, q.eport, q.proto, q.desc, stamp, q.eport, q.proto);
    FindAfterUpdate(s.table, q, stamp, k.deleted, k.added, q.eport, q.proto);
    var once := UpdatePort(s.table, q.eport, q.proto, q.iport, q.desc, stamp, k.deleted, k.added).0;
    FindAfterUpdate(once, q, stamp, k.deletedAgain, k.addedAgain, q.eport, q.proto);
  }
}
