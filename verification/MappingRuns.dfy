/** All the entry points that share the redirect table, as one state machine, and what every run
    of it keeps. Each step is the abstract function that the method of that entry point is proved
    to compute. */
module MappingRuns {
  import opened Net
  import opened Permissions
  import opened MappingTable
  import opened Backend
  import opened Redirect
  import opened PortScan
  import OutwardSearch
  import NatPmp
  import Pcp
  import Grants

  datatype Step =
    | UpnpAdd(q: Request, now: U32, inUse: bool, k: Kernel)
    | UpnpAddAny(q: Request, env: OutwardSearch.Env)
    | UpnpDelete(eport: Port, proto: Proto, deleted: bool)
    | NatPmpMap(rq: NatPmp.MapRequest, now: U32, portInUse: Port -> bool, k: Kernel)
    | NatPmpUnmap(rq: NatPmp.MapRequest, deletable: (Port, Proto) -> bool)
    | PcpMap(info: Pcp.MapInfo, now: U32, portInUse: Port -> bool, evictable: Port -> bool, added: bool)
    | PcpUnmap(info: Pcp.MapInfo, deleted: bool)
    | Cleaning(now: U32, deletable: (Port, Proto) -> bool)

  /** The steps the daemon takes: AddAnyPortMapping never starts at port 0, and a NAT-PMP request
      maps or unmaps by its lifetime. */
  predicate Possible(step: Step) {
    match step
    case UpnpAddAny(q, _) => 1 <= q.eport
    case NatPmpMap(rq, _, _, _) => rq.lifetime > 0
    case _ => true
  }

  ghost function Apply(cfg: Config, s: State, step: Step): State
    requires Possible(step)
  {
    match step
    case UpnpAdd(q, now, inUse, k) => AddOrRenew(cfg, s, q, now, inUse, k).0
    case UpnpAddAny(q, env) => OutwardSearch.Search(cfg, s, q, env, [q.eport] + OutwardSearch.Outward(q.eport)).0
    case UpnpDelete(eport, proto, deleted) => Delete(s, eport, proto, deleted).0
    case NatPmpMap(rq, now, inUse, k) => NatPmp.Map(cfg, s, rq, now, inUse, k).0
    case NatPmpUnmap(rq, deletable) => s.(table := NatPmp.Unmap(s.table, rq, deletable).0)
    case PcpMap(info, now, inUse, evictable, added) => Pcp.Create(cfg, s, info, now, inUse, evictable, added).0
    case PcpUnmap(info, deleted) => Pcp.Remove(s, info, deleted).0
    case Cleaning(now, deletable) => Clean(s, now, deletable)
  }

  ghost function Run(cfg: Config, s: State, steps: seq<Step>): State
    requires forall step | step in steps :: Possible(step)
    decreases |steps|
  {
    if steps == [] then s else Run(cfg, Apply(cfg, s, steps[0]), steps[1..])
  }

  // ---- what is kept ----

  predicate Accepted(cfg: Config, m: Mapping) {
    Permitted(cfg.perms, m.eport, m.iaddr, m.iport)
  }

  ghost predicate Sound(cfg: Config, t: seq<Mapping>) {
    UniqueKeys(t) && forall m | m in t :: Accepted(cfg, m)
  }

  /** Every lease in the table ends no earlier than the cell says. */
  ghost predicate Covered(s: State) {
    forall m | m in s.table && m.timestamp > 0 :: 0 < s.nextToClean <= m.timestamp
  }

  /** A key held before and after still leads to the same internal client. */
  ghost predicate SameClients(t: seq<Mapping>, t': seq<Mapping>) {
    forall m, m' | m in t && m' in t' && At(m', m.eport, m.proto) :: m'.iaddr == m.iaddr
  }

  /** The stamp of a renewal is one the cell already covers. */
  predicate StampCovered(nextToClean: U32, timestamp: U32) {
    timestamp == 0 || 0 < nextToClean <= timestamp
  }

  /** What an UpnpAdd step leaves in the table under its key is covered by the cell: it is no renewal, or
      not a permitted one, or its stamp is covered, or it changes the internal port and the firewall
      either loses the mapping on the way or keeps the old one in both rounds. */
  predicate LeaseLeftCovered(cfg: Config, s: State, q: Request, now: U32, k: Kernel) {
    || !Renews(s, q) || !Permitted(cfg.perms, q.eport, q.iaddr, q.iport)
    || StampCovered(s.nextToClean, Stamp(now, q.lease))
    || (q.iport != Find(s.table, q.eport, q.proto).value.iport
        && ((k.deleted && !k.added) || (k.deletedAgain && !k.addedAgain) || (!k.deleted && !k.deletedAgain)))
  }

  /** The step is not a renewal that leaves a lease ending before the cell; AddAnyPortMapping renews at most
      the port its search ends at. */
  ghost predicate RenewalsCovered(cfg: Config, s: State, step: Step)
    requires Possible(step)
  {
    match step
    case UpnpAdd(q, now, _, k) => LeaseLeftCovered(cfg, s, q, now, k)
    case UpnpAddAny(q, env) =>
      var out := OutwardSearch.Search(cfg, s, q, env, [q.eport] + OutwardSearch.Outward(q.eport));
      out.1 == OutwardSearch.EXHAUSTED || LeaseLeftCovered(cfg, s, q.(eport := out.2), env.clock(out.2), env.kernel(out.2))
    case _ => true
  }

  // ---- the primitive changes ----

  lemma SubsetKeeps(cfg: Config, s: State, t: seq<Mapping>)
    requires UniqueKeys(t) && forall m | m in t :: m in s.table
    ensures Sound(cfg, s.table) ==> Sound(cfg, t)
    ensures Covered(s) ==> Covered(s.(table := t))
    ensures Sound(cfg, s.table) ==> SameClients(s.table, t)
  {
    if Sound(cfg, s.table) {
      forall m, m' | m in s.table && m' in t && At(m', m.eport, m.proto) ensures m'.iaddr == m.iaddr {
        SameKeySameMapping(s.table, m, m');
      }
    }
  }

  lemma SameKeySameMapping(t: seq<Mapping>, m: Mapping, m': Mapping)
    requires UniqueKeys(t) && m in t && m' in t && At(m', m.eport, m.proto)
    ensures m == m'
  {
    var i :| 0 <= i < |t| && t[i] == m;
    var j :| 0 <= j < |t| && t[j] == m';
    FindUnique(t, i);
    FindUnique(t, j);
  }

  lemma DropKeeps(cfg: Config, s: State, sel: Selector)
    requires UniqueKeys(s.table)
    ensures UniqueKeys(Drop(s.table, sel))
    ensures Sound(cfg, s.table) ==> Sound(cfg, Drop(s.table, sel))
    ensures Covered(s) ==> Covered(s.(table := Drop(s.table, sel)))
    ensures Sound(cfg, s.table) ==> SameClients(s.table, Drop(s.table, sel))
  {
    DropMembers(s.table, sel);
    DropUnique(s.table, sel);
    SubsetKeeps(cfg, s, Drop(s.table, sel));
  }

  /** Removing a key frees it. */
  lemma DropFrees(t: seq<Mapping>, eport: Port, proto: Proto)
    ensures !HasKey(Drop(t, ByKey(eport, proto)), eport, proto)
  {
    DropMembers(t, ByKey(eport, proto));
    var d := Drop(t, ByKey(eport, proto));
    assert forall i | 0 <= i < |d| :: d[i] in d;
  }

  lemma InsertKeeps(cfg: Config, s: State, m: Mapping, added: bool)
    requires Sound(cfg, s.table) && !HasKey(s.table, m.eport, m.proto) && Accepted(cfg, m)
    ensures var s' := Insert(cfg, s, m, added).0;
            Sound(cfg, s'.table) && SameClients(s.table, s'.table) && (Covered(s) ==> Covered(s'))
  {
    AppendUnique(s.table, m);
    forall x, y | x in s.table && y in s.table + [m] && At(y, x.eport, x.proto) ensures y.iaddr == x.iaddr {
      KeyHeld(s.table, x);
      if y in s.table {
        SameKeySameMapping(s.table, x, y);
      }
    }
  }

  lemma KeyHeld(t: seq<Mapping>, m: Mapping)
    requires m in t
    ensures HasKey(t, m.eport, m.proto)
  {
    var i :| 0 <= i < |t| && t[i] == m;
    assert At(t[i], m.eport, m.proto);
  }

  /** An own mapping is removed, and a mapping of the same client put in its place. */
  lemma ReplaceKeeps(cfg: Config, s: State, m: Mapping, added: bool)
    requires Sound(cfg, s.table) && Accepted(cfg, m)
    requires HasKey(s.table, m.eport, m.proto) ==> Find(s.table, m.eport, m.proto).value.iaddr == m.iaddr
    ensures var s' := Insert(cfg, s.(table := Drop(s.table, ByKey(m.eport, m.proto))), m, added).0;
            Sound(cfg, s'.table) && SameClients(s.table, s'.table) && (Covered(s) ==> Covered(s'))
  {
    var sel := ByKey(m.eport, m.proto);
    var freed := s.(table := Drop(s.table, sel));
    DropKeeps(cfg, s, sel);
    DropFrees(s.table, m.eport, m.proto);
    InsertKeeps(cfg, freed, m, added);
    var s' := Insert(cfg, freed, m, added).0;
    forall x, y | x in s.table && y in s'.table && At(y, x.eport, x.proto) ensures y.iaddr == x.iaddr {
      DropMembers(s.table, sel);
      if y in s.table {
        SameKeySameMapping(s.table, x, y);
      } else {
        assert y == m;
        var i :| 0 <= i < |s.table| && s.table[i] == x;
        FindUnique(s.table, i);
      }
    }
  }

  // ---- upnp_redirect() ----

  lemma UpdateKeeps(cfg: Config, s: State, q: Request, timestamp: U32, deleted: bool, added: bool)
    requires Sound(cfg, s.table) && Permitted(cfg.perms, q.eport, q.iaddr, q.iport)
    requires HasKey(s.table, q.eport, q.proto) ==> Find(s.table, q.eport, q.proto).value.iaddr == q.iaddr
    ensures var t := UpdatePort(s.table, q.eport, q.proto, q.iport, q.desc, timestamp, deleted, added).0;
            && Sound(cfg, t) && SameClients(s.table, t)
            && (Covered(s) && StampCovered(s.nextToClean, timestamp) ==> Covered(s.(table := t)))
            && (HasKey(t, q.eport, q.proto) ==> Find(t, q.eport, q.proto).value.iaddr == q.iaddr)
  {
    if HasKey(s.table, q.eport, q.proto) && deleted {
      var m := Find(s.table, q.eport, q.proto).value;
      var m' := m.(iport := q.iport, desc := q.desc, timestamp := timestamp);
      var t := UpdatePort(s.table, q.eport, q.proto, q.iport, q.desc, timestamp, deleted, added).0;
      DropKeeps(cfg, s, ByKey(q.eport, q.proto));
      DropFrees(s.table, q.eport, q.proto);
      if added {
        AppendUnique(Drop(s.table, ByKey(q.eport, q.proto)), m');
        NatPmp.FindAppendedAfterDrop(s.table, m');
        forall x, y | x in s.table && y in t && At(y, x.eport, x.proto) ensures y.iaddr == x.iaddr {
          if y == m' {
            SameKeySameMapping(s.table, x, m);
          }
        }
      }
    } else {
      SubsetKeeps(cfg, s, s.table);
    }
  }

  lemma SameClientsTrans(cfg: Config, t: seq<Mapping>, u: seq<Mapping>, v: seq<Mapping>)
    requires SameClients(t, u) && SameClients(u, v)
    requires forall m | m in v :: HasKey(u, m.eport, m.proto)
    ensures SameClients(t, v)
  {
    forall x, y | x in t && y in v && At(y, x.eport, x.proto) ensures y.iaddr == x.iaddr {
      var i :| 0 <= i < |u| && At(u[i], y.eport, y.proto);
      assert u[i] in u;
    }
  }

  lemma UpdateKeys(t: seq<Mapping>, q: Request, timestamp: U32, deleted: bool, added: bool)
    ensures forall m | m in UpdatePort(t, q.eport, q.proto, q.iport, q.desc, timestamp, deleted, added).0 ::
              HasKey(t, m.eport, m.proto)
  {
    var t' := UpdatePort(t, q.eport, q.proto, q.iport, q.desc, timestamp, deleted, added).0;
    DropMembers(t, ByKey(q.eport, q.proto));
    forall m | m in t' ensures HasKey(t, m.eport, m.proto) {
      if m in t {
        KeyHeld(t, m);
      }
    }
  }

  lemma RelabelKeeps(cfg: Config, s: State, q: Request, timestamp: U32)
    requires Sound(cfg, s.table)
    ensures var t := Relabel(s.table, q.eport, q.proto, q.desc, timestamp);
            && Sound(cfg, t) && SameClients(s.table, t)
            && (Covered(s) && StampCovered(s.nextToClean, timestamp) ==> Covered(s.(table := t)))
  {
    var t := Relabel(s.table, q.eport, q.proto, q.desc, timestamp);
    RelabelUnique(s.table, q.eport, q.proto, q.desc, timestamp);
    forall m | m in t ensures Accepted(cfg, m) {
      var i :| 0 <= i < |t| && t[i] == m;
      assert s.table[i] in s.table;
    }
    forall x, y | x in s.table && y in t && At(y, x.eport, x.proto) ensures y.iaddr == x.iaddr {
      var i :| 0 <= i < |t| && t[i] == y;
      assert s.table[i] in s.table;
      SameKeySameMapping(s.table, x, s.table[i]);
    }
    if Covered(s) && StampCovered(s.nextToClean, timestamp) {
      forall m | m in t && m.timestamp > 0 ensures 0 < s.nextToClean <= m.timestamp {
        var i :| 0 <= i < |t| && t[i] == m;
        assert s.table[i] in s.table;
      }
    }
  }

  lemma RenewKeeps(cfg: Config, s: State, q: Request, timestamp: U32, k: Kernel)
    requires Sound(cfg, s.table) && Permitted(cfg.perms, q.eport, q.iaddr, q.iport) && Renews(s, q)
    ensures var s' := Renew(s, q, Find(s.table, q.eport, q.proto).value, timestamp, k).0;
            && Sound(cfg, s'.table) && SameClients(s.table, s'.table)
            && (Covered(s) && StampCovered(s.nextToClean, timestamp) ==> Covered(s'))
  {
    if q.iport != Find(s.table, q.eport, q.proto).value.iport {
      var once := UpdatePort(s.table, q.eport, q.proto, q.iport, q.desc, timestamp, k.deleted, k.added).0;
      UpdateKeeps(cfg, s, q, timestamp, k.deleted, k.added);
      UpdateKeeps(cfg, s.(table := once), q, timestamp, k.deletedAgain, k.addedAgain);
      UpdateKeys(once, q, timestamp, k.deletedAgain, k.addedAgain);
      SameClientsTrans(cfg, s.table, once, UpdatePort(once, q.eport, q.proto, q.iport, q.desc, timestamp, k.deletedAgain, k.addedAgain).0);
    } else {
      RelabelKeeps(cfg, s, q, timestamp);
    }
  }

  lemma AddKeeps(cfg: Config, s: State, q: Request, now: U32, inUse: bool, k: Kernel)
    requires Sound(cfg, s.table)
    ensures var s' := AddOrRenew(cfg, s, q, now, inUse, k).0;
            && Sound(cfg, s'.table) && SameClients(s.table, s'.table)
            && (Covered(s) && (Renews(s, q) ==> StampCovered(s.nextToClean, Stamp(now, q.lease))) ==> Covered(s'))
  {
    SubsetKeeps(cfg, s, s.table);
    if Permitted(cfg.perms, q.eport, q.iaddr, q.iport) {
      if Renews(s, q) {
        RenewKeeps(cfg, s, q, Stamp(now, q.lease), k);
      } else if !HasKey(s.table, q.eport, q.proto) && !inUse {
        InsertKeeps(cfg, s, NewMapping(q, Stamp(now, q.lease)), k.added);
      }
    }
  }

  lemma CoveredByKey(s: State)
    requires UniqueKeys(s.table)
    ensures Covered(s) <==> forall e: Port, p: Proto :: KeyCovered(s, e, p)
  {
    forall m | m in s.table ensures Find(s.table, m.eport, m.proto) == Some(m) {
      var i :| 0 <= i < |s.table| && s.table[i] == m;
      FindUnique(s.table, i);
    }
    if forall e: Port, p: Proto :: KeyCovered(s, e, p) {
      forall m | m in s.table && m.timestamp > 0 ensures 0 < s.nextToClean <= m.timestamp {
        assert KeyCovered(s, m.eport, m.proto);
      }
    }
  }

  predicate KeyCovered(s: State, e: Port, p: Proto) {
    var m := Find(s.table, e, p);
    m.Some? && m.value.timestamp > 0 ==> 0 < s.nextToClean <= m.value.timestamp
  }

  /** A renewal never moves the cell. After any answer to an add, the leases are covered exactly if what it
      left under its key is; every other mapping is as it was. */
  lemma RenewalCoveredIff(cfg: Config, s: State, q: Request, now: U32, inUse: bool, k: Kernel)
    requires Sound(cfg, s.table) && Covered(s)
    ensures Covered(AddOrRenew(cfg, s, q, now, inUse, k).0) <==> LeaseLeftCovered(cfg, s, q, now, k)
  {
    AddKeeps(cfg, s, q, now, inUse, k);
    if Renews(s, q) && Permitted(cfg.perms, q.eport, q.iaddr, q.iport) {
      var s', stamp := AddOrRenew(cfg, s, q, now, inUse, k).0, Stamp(now, q.lease);
      CoveredByKey(s);
      CoveredByKey(s');
      RenewedMapping(cfg, s, q, now, inUse, k);
      assert KeyCovered(s, q.eport, q.proto);
      forall e: Port, p: Proto | !(e == q.eport && p == q.proto) ensures KeyCovered(s', e, p) {
        Grants.AddTouchesOneKey(cfg, s, q, now, inUse, k, e, p);
        assert KeyCovered(s, e, p);
      }
      assert KeyCovered(s', q.eport, q.proto) <==> LeaseLeftCovered(cfg, s, q, now, k);
    }
  }

  /** What a permitted renewal leaves under its key. */
  lemma RenewedMapping(cfg: Config, s: State, q: Request, now: U32, inUse: bool, k: Kernel)
    requires Renews(s, q) && Permitted(cfg.perms, q.eport, q.iaddr, q.iport)
    ensures var after, old_, stamp := AddOrRenew(cfg, s, q, now, inUse, k).0, Find(s.table, q.eport, q.proto).value, Stamp(now, q.lease);
            var found := Find(after.table, q.eport, q.proto);
            after.nextToClean == s.nextToClean
            && if q.iport == old_.iport then found.Some? && found.value.timestamp == stamp
               else if (k.deleted && !k.added) || (k.deletedAgain && !k.addedAgain) then found.None?
               else found.Some? && found.value.timestamp == if k.deleted || k.deletedAgain then stamp else old_.timestamp
  {
    var stamp := Stamp(now, q.lease);
    Grants.FindAfterRelabel(s.table, q.eport, q.proto, q.desc, stamp, q.eport, q.proto);
    Grants.FindAfterUpdate(s.table, q, stamp, k.deleted, k.added, q.eport, q.proto);
    var once := UpdatePort(s.table, q.eport, q.proto, q.iport, q.desc, stamp, k.deleted, k.added).0;
    Grants.FindAfterUpdate(once, q, stamp, k.deletedAgain, k.addedAgain, q.eport, q.proto);
  }

  lemma AddAnyKeeps(cfg: Config, s: State, q: Request, env: OutwardSearch.Env)
    requires Sound(cfg, s.table) && 1 <= q.eport
    ensures var s' := Apply(cfg, s, UpnpAddAny(q, env));
            && Sound(cfg, s'.table) && SameClients(s.table, s'.table)
            && (Covered(s) ==> (Covered(s') <==> RenewalsCovered(cfg, s, UpnpAddAny(q, env))))
  {
    OutwardSearch.NearestPortWins(cfg, s, q, env);
    var out := OutwardSearch.Search(cfg, s, q, env, [q.eport] + OutwardSearch.Outward(q.eport));
    if out.1 == OutwardSearch.EXHAUSTED {
      SubsetKeeps(cfg, s, s.table);
    } else {
      var p := out.2;
      AddKeeps(cfg, s, q.(eport := p), env.clock(p), env.inUse(p), env.kernel(p));
      if Covered(s) {
        RenewalCoveredIff(cfg, s, q.(eport := p), env.clock(p), env.inUse(p), env.kernel(p));
      }
    }
  }

  // ---- NAT-PMP and PCP ----

  lemma NatPmpMapKeeps(cfg: Config, s: State, rq: NatPmp.MapRequest, now: U32, inUse: Port -> bool, k: Kernel)
    requires Sound(cfg, s.table) && rq.lifetime > 0
    ensures var s' := NatPmp.Map(cfg, s, rq, now, inUse, k).0;
            Sound(cfg, s'.table) && SameClients(s.table, s'.table) && (Covered(s) ==> Covered(s'))
  {
    SubsetKeeps(cfg, s, s.table);
    if rq.iport != 0 {
      var sc, first := NatPmp.SearchOf(cfg, s.table, rq, inUse), NatPmp.FirstPort(rq);
      var stop := Stop(sc, first);
      if stop < 65535 {
        var p, proto := Cyclic(first, stop), NatPmp.ProtoOf(rq);
        assert !Blocked(sc, p);
        var m := NatPmp.MappingFor(rq, p, now);
        if !HasKey(s.table, p, proto) {
          InsertKeeps(cfg, s, m, k.added);
        } else if k.deleted {
          ReplaceKeeps(cfg, s, m, k.added);
        }
      }
    }
  }

  lemma PcpMapKeeps(cfg: Config, s: State, info: Pcp.MapInfo, now: U32, inUse: Port -> bool,
                    evictable: Port -> bool, added: bool)
    requires Sound(cfg, s.table)
    ensures var s' := Pcp.Create(cfg, s, info, now, inUse, evictable, added).0;
            Sound(cfg, s'.table) && SameClients(s.table, s'.table) && (Covered(s) ==> Covered(s'))
  {
    SubsetKeeps(cfg, s, s.table);
    if Pcp.FirstPort(info) != 0 {
      var sc, first := Pcp.SearchOf(cfg, s.table, info, inUse, evictable), Pcp.FirstPort(info);
      var stop := Stop(sc, first);
      if stop < 65535 && !Unavailable(sc, Cyclic(first, stop)) {
        var p := Cyclic(first, stop);
        var m := Pcp.MappingFor(info, p, now);
        if HasKey(s.table, p, info.proto) {
          ReplaceKeeps(cfg, s, m, added);
        } else {
          InsertKeeps(cfg, s, m, added);
        }
      }
    }
  }

  lemma {:induction false} UnmapSubset(t: seq<Mapping>, rq: NatPmp.MapRequest, deletable: (Port, Proto) -> bool)
    requires UniqueKeys(t)
    ensures UniqueKeys(NatPmp.Unmap(t, rq, deletable).0)
    ensures forall m | m in NatPmp.Unmap(t, rq, deletable).0 :: m in t
  {
    if t != [] {
      UnmapSubset(t[1..], rq, deletable);
      var rest := NatPmp.Unmap(t[1..], rq, deletable).0;
      forall j | 0 <= j < |rest| ensures !At(t[0], rest[j].eport, rest[j].proto) {
        assert rest[j] in t[1..];
        var k :| 0 < k < |t| && t[k] == rest[j];
      }
    }
  }

  /** A cleaning pass leaves the cell at the earliest lease that has not ended, whatever it was
      before; leases that ended but whose rule the firewall kept are no longer covered. */
  lemma CleanKeeps(cfg: Config, s: State, now: U32, deletable: (Port, Proto) -> bool)
    requires Sound(cfg, s.table)
    ensures var s' := Clean(s, now, deletable);
            && Sound(cfg, s'.table)
            && (Covered(s') <==> forall m | m in s'.table :: !Expired(m, now))
            && ((forall m | m in s.table && Expired(m, now) :: deletable(m.eport, m.proto)) ==>
                forall m | m in s'.table :: !Expired(m, now))
  {
    var sel := ExpiredBy(now, deletable);
    DropKeeps(cfg, s, sel);
    DropMembers(s.table, sel);
    var s' := Clean(s, now, deletable);
    if m :| m in s'.table && m.timestamp > 0 {
      forall m | m in s'.table && now < m.timestamp ensures 0 < s'.nextToClean <= m.timestamp {
        var k :| 0 <= k < |s.table| && s.table[k] == m;
      }
    }
  }

  // ---- every step ----

  /** The firewall lets a cleaning pass remove every lease that has ended. */
  ghost predicate CleansAll(s: State, step: Step) {
    step.Cleaning? ==> forall m | m in s.table && Expired(m, step.now) :: step.deletable(m.eport, m.proto)
  }

  /** Every step keeps the keys unique and every mapping permitted, no step gives the port of a
      mapping to another internal client, and leases stay covered by the cell exactly if the step is not
      a renewal that leaves one uncovered. */
  lemma StepKeeps(cfg: Config, s: State, step: Step)
    requires Possible(step) && Sound(cfg, s.table)
    ensures Sound(cfg, Apply(cfg, s, step).table)
    ensures SameClients(s.table, Apply(cfg, s, step).table)
    ensures Covered(s) && CleansAll(s, step) ==> (Covered(Apply(cfg, s, step)) <==> RenewalsCovered(cfg, s, step))
  {
    hide AddOrRenew, OutwardSearch.Search, OutwardSearch.Outward, NatPmp.Map, NatPmp.Unmap, Pcp.Create, Drop, NextLease;
    SubsetKeeps(cfg, s, s.table);
    match step
    case UpnpAdd(q, now, inUse, k) =>
      AddKeeps(cfg, s, q, now, inUse, k);
      if Covered(s) {
        RenewalCoveredIff(cfg, s, q, now, inUse, k);
      }
    case UpnpAddAny(q, env) => AddAnyKeeps(cfg, s, q, env);
    case UpnpDelete(eport, proto, deleted) => DropKeeps(cfg, s, ByKey(eport, proto));
    case NatPmpMap(rq, now, inUse, k) => NatPmpMapKeeps(cfg, s, rq, now, inUse, k);
    case NatPmpUnmap(rq, deletable) =>
      UnmapSubset(s.table, rq, deletable);
      SubsetKeeps(cfg, s, NatPmp.Unmap(s.table, rq, deletable).0);
    case PcpMap(info, now, inUse, evictable, added) => PcpMapKeeps(cfg, s, info, now, inUse, evictable, added);
    case PcpUnmap(info, deleted) =>
      var m := Pcp.FirstMatching(s.table, info);
      if m.Some? {
        DropKeeps(cfg, s, ByKey(m.value.eport, m.value.proto));
      }
    case Cleaning(now, deletable) =>
      DropKeeps(cfg, s, ExpiredBy(now, deletable));
      CleanKeeps(cfg, s, now, deletable);
  }

  // ---- whole runs ----

  /** Over every run from the empty table: no two mappings share (external port, protocol), and the
      permission list accepts every mapping. */
  lemma {:induction false} RunsAreSound(cfg: Config, s: State, steps: seq<Step>)
    requires forall step | step in steps :: Possible(step)
    requires Sound(cfg, s.table)
    ensures Sound(cfg, Run(cfg, s, steps).table)
    decreases |steps|
  {
    if steps != [] {
      StepKeeps(cfg, s, steps[0]);
      RunsAreSound(cfg, Apply(cfg, s, steps[0]), steps[1..]);
    }
  }

  ghost predicate LeasesKept(cfg: Config, s: State, steps: seq<Step>)
    requires forall step | step in steps :: Possible(step)
    decreases |steps|
  {
    steps != [] ==>
      RenewalsCovered(cfg, s, steps[0]) && CleansAll(s, steps[0]) && LeasesKept(cfg, Apply(cfg, s, steps[0]), steps[1..])
  }

  lemma {:induction false} RunsAreCovered(cfg: Config, s: State, steps: seq<Step>)
    requires forall step | step in steps :: Possible(step)
    requires Sound(cfg, s.table) && Covered(s) && LeasesKept(cfg, s, steps)
    ensures Covered(Run(cfg, s, steps))
    decreases |steps|
  {
    if steps != [] {
      StepKeeps(cfg, s, steps[0]);
      RunsAreCovered(cfg, Apply(cfg, s, steps[0]), steps[1..]);
    }
  }

  /** The deviation is real: an endless mapping is renewed with a lease of 100 s, the cell stays 0,
      and the main loop never comes to clean it. */
  lemma RenewalEscapesCleaning()
    ensures var cfg := Config([], false);
            var q := Request(Absent, 80, 0x0a00_0002, 8080, IPPROTO_TCP, "", 100);
            var m := NewMapping(q, 0);
            var s' := AddOrRenew(cfg, State([m], 0), q, 7, false, Kernel(true, true, true, true)).0;
            s' == State([m.(timestamp := 107)], 0) && !Covered(s') && MainLoopCheck(s', 1000, 1000, (e, p) => true) == s'
  {
    var q := Request(Absent, 80, 0x0a00_0002, 8080, IPPROTO_TCP, "", 100);
    var m := NewMapping(q, 0);
    assert At([m][0], 80, IPPROTO_TCP);
    var t := Relabel([m], 80, IPPROTO_TCP, "", 107);
    assert t == [m.(timestamp := 107)];
    assert m.(timestamp := 107) in t;
  }

  // ---- the main loop's check ----

  /** "Remove expired port mappings": the pass runs when the cell has been reached, at a time
      `now` no earlier than the main loop's own reading `tod`. */
  function MainLoopCheck(s: State, tod: U32, now: U32, deletable: (Port, Proto) -> bool): State {
    if s.nextToClean != 0 && tod >= s.nextToClean then Clean(s, now, deletable) else s
  }

  /** After the check no mapping in the table has expired, and the cell is in the future or 0. */
  lemma NothingExpiredAfterCheck(cfg: Config, s: State, tod: U32, now: U32, deletable: (Port, Proto) -> bool)
    requires Sound(cfg, s.table) && Covered(s) && tod <= now
    requires forall m | m in s.table && Expired(m, now) :: deletable(m.eport, m.proto)
    ensures var s' := MainLoopCheck(s, tod, now, deletable);
            && Covered(s') && (s'.nextToClean == 0 || tod < s'.nextToClean)
            && (forall m | m in s'.table :: !Expired(m, tod))
            && (forall m | m in s.table && !Expired(m, now) :: m in s'.table)
  {
    CleanKeeps(cfg, s, now, deletable);
    DropMembers(s.table, ExpiredBy(now, deletable));
  }
}
