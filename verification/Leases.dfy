/** How long a mapping lasts, whichever protocol asked for it, and who can renew it. */
module Leases {
  import opened Net
  import opened Permissions
  import opened MappingTable
  import opened Backend
  import opened Redirect
  import MappingRuns
  import Grants
  import NatPmp
  import Pcp

  const WRAP := 0x1_0000_0000

  /** A mapping that ends at `end`, 0 standing for never, is there after a cleaning pass at time `t`. */
  predicate Outlives(end: nat, t: U32) {
    end == 0 || t < end
  }

  /** The mapping of a key ends at `end`: a cleaning pass before that leaves it as it is, and one from then
      on takes it, unless the firewall refuses. */
  ghost predicate EndsAt(s: State, e: Port, p: Proto, end: nat) {
    var m := Find(s.table, e, p);
    && m.Some? && m.value.timestamp == end
    && forall t: U32, deletable: (Port, Proto) -> bool ::
         Find(Clean(s, t, deletable).table, e, p) == if Outlives(end, t) || !deletable(e, p) then m else None
  }

  lemma StampedEndsAt(s: State, e: Port, p: Proto, end: U32)
    requires UniqueKeys(s.table) && Find(s.table, e, p).Some? && Find(s.table, e, p).value.timestamp == end
    ensures EndsAt(s, e, p, end)
  {
    var m := Find(s.table, e, p);
    forall t: U32, deletable: (Port, Proto) -> bool
      ensures Find(Clean(s, t, deletable).table, e, p) == if Outlives(end, t) || !deletable(e, p) then m else None
    {
      Grants.CleaningTakesExpired(s.table, t, deletable, e, p);
    }
  }

  /** After a success of upnp_redirect() with lease 0 the mapping never ends; with any other lease it ends
      that many seconds from now, as long as that time fits 32 bits, and else 2^32 seconds earlier. */
  lemma LeaseEndsOnTime(cfg: Config, s: State, q: Request, now: U32, inUse: bool, k: Kernel)
    requires MappingRuns.Sound(cfg, s.table) && AddOrRenew(cfg, s, q, now, inUse, k).1 == 0
    ensures var end: nat := now + q.lease;
            EndsAt(AddOrRenew(cfg, s, q, now, inUse, k).0, q.eport, q.proto,
                   if q.lease == 0 then 0 else if end < WRAP then end else end - WRAP)
  {
    hide AddOrRenew, Find, Clean, EndsAt, MappingRuns.Covered, MappingRuns.SameClients;
    MappingRuns.AddKeeps(cfg, s, q, now, inUse, k);
    Grants.AddGrants(cfg, s, q, now, inUse, k);
    var end: nat := now + q.lease;
    StampedEndsAt(AddOrRenew(cfg, s, q, now, inUse, k).0, q.eport, q.proto,
                  if q.lease == 0 then 0 else if end < WRAP then end else end - WRAP);
  }

  /** The same of NAT-PMP, if the new mapping was stored; */
  lemma NatPmpLifetimeEndsOnTime(cfg: Config, s: State, rq: NatPmp.MapRequest, now: U32, inUse: Port -> bool, k: Kernel)
    requires MappingRuns.Sound(cfg, s.table) && rq.lifetime > 0
    requires NatPmp.Map(cfg, s, rq, now, inUse, k).1.result == 0
    requires k.deleted || !HasKey(s.table, NatPmp.Map(cfg, s, rq, now, inUse, k).1.eport, NatPmp.ProtoOf(rq))
    ensures var (after, resp) := NatPmp.Map(cfg, s, rq, now, inUse, k);
            var end: nat := now + rq.lifetime;
            EndsAt(after, resp.eport, NatPmp.ProtoOf(rq), if end < WRAP then end else end - WRAP)
  {
    MappingRuns.NatPmpMapKeeps(cfg, s, rq, now, inUse, k);
    NatPmp.SuccessGrants(cfg, s, rq, now, inUse, k);
    var (after, resp) := NatPmp.Map(cfg, s, rq, now, inUse, k);
    var end: nat := now + rq.lifetime;
    StampedEndsAt(after, resp.eport, NatPmp.ProtoOf(rq), if end < WRAP then end else end - WRAP);
  }

  /** and of PCP. */
  lemma PcpLifetimeEndsOnTime(cfg: Config, s: State, info: Pcp.MapInfo, now: U32, inUse: Port -> bool,
                              evictable: Port -> bool, added: bool)
    requires MappingRuns.Sound(cfg, s.table)
    requires Pcp.Create(cfg, s, info, now, inUse, evictable, added).1 == 0
    ensures var (after, _, p) := Pcp.Create(cfg, s, info, now, inUse, evictable, added);
            var end: nat := now + info.lifetime;
            EndsAt(after, p, info.proto, if end < WRAP then end else end - WRAP)
  {
    MappingRuns.PcpMapKeeps(cfg, s, info, now, inUse, evictable, added);
    Pcp.SuccessGrants(cfg, s, info, now, inUse, evictable, added);
    var (after, _, p) := Pcp.Create(cfg, s, info, now, inUse, evictable, added);
    var end: nat := now + info.lifetime;
    StampedEndsAt(after, p, info.proto, if end < WRAP then end else end - WRAP);
  }

  // ---- who can renew ----

  /** The remote host of a second request is that of the first: an address other than 0.0.0.0 only matches
      itself, and everything else was stored as "any host". */
  predicate NamesSameHost(first: RemoteHost, second: RemoteHost) {
    if first.Host? && first.address != 0 then second == first
    else second.Absent? || second.Empty? || second.Wildcard?
  }

  /** Once a client was granted a free port, who may ask for the port again, with a lease and an internal
      port of his own, is exactly that client, for the same remote host; anyone else is told that it is taken. */
  lemma OnlyOwnerRenews(cfg: Config, s: State, q: Request, now: U32, inUse: bool, k: Kernel,
                        q': Request, now': U32, inUse': bool, k': Kernel)
    requires AddOrRenew(cfg, s, q, now, inUse, k).1 == 0 && !HasKey(s.table, q.eport, q.proto)
    requires q'.eport == q.eport && q'.proto == q.proto
    ensures var s' := AddOrRenew(cfg, s, q, now, inUse, k).0;
            var owner := q'.iaddr == q.iaddr && NamesSameHost(q.rhost, q'.rhost);
            var out := AddOrRenew(cfg, s', q', now', inUse', k');
            && (Renews(s', q') <==> owner)
            && (out.1 == -2 <==> Permitted(cfg.perms, q'.eport, q'.iaddr, q'.iport) && !owner)
            && (!owner ==> out.0 == s')
  {
    Grants.AddGrants(cfg, s, q, now, inUse, k);
  }

  /** What upnp_redirect() answers, and when: -3 for a port that is not permitted, -2 for one that leads
      elsewhere, -4 for one that the gateway uses itself, 0 if the firewall did what was needed, else -1. */
  lemma AnswersAreExact(cfg: Config, s: State, q: Request, now: U32, inUse: bool, k: Kernel)
    ensures var was, code := Find(s.table, q.eport, q.proto), AddOrRenew(cfg, s, q, now, inUse, k).1;
            if !Permitted(cfg.perms, q.eport, q.iaddr, q.iport) then code == -3
            else if was.None? then
              if inUse then code == -4
              else code == if !cfg.disabled && (q.proto == 6 || q.proto == 17) && k.added then 0 else -1
            else if !Renews(s, q) then code == -2
            else code == if q.iport == was.value.iport || ((k.deleted ==> k.added) && k.deletedAgain && k.addedAgain) then 0 else -1
  {
    var stamp := Stamp(now, q.lease);
    Grants.FindAfterUpdate(s.table, q, stamp, k.deleted, k.added, q.eport, q.proto);
  }

  /** A deletion takes the mapping of its key exactly if there is one and the firewall lets it go, and
      leaves every other key, and the time of the next cleaning, alone. */
  lemma DeletionIsExact(s: State, eport: Port, proto: Proto, deleted: bool, e: Port, p: Proto)
    ensures var (after, r) := Delete(s, eport, proto, deleted);
            && (r == 0 <==> Find(s.table, eport, proto).Some? && deleted)
            && (r != 0 ==> r == -1)
            && after.nextToClean == s.nextToClean
            && Find(after.table, e, p) == if r == 0 && e == eport && p == proto then None else Find(s.table, e, p)
  {
    Grants.FindAfterDrop(s.table, eport, proto, e, p);
  }

  /** A new mapping moves the time of the next cleaning down to the end of its lease, if it has one, and never
      up; a renewal leaves it alone. */
  lemma NextCleaning(cfg: Config, s: State, q: Request, now: U32, inUse: bool, k: Kernel)
    requires AddOrRenew(cfg, s, q, now, inUse, k).1 == 0 && now + q.lease < WRAP
    ensures var after, end := AddOrRenew(cfg, s, q, now, inUse, k).0, now + q.lease;
            after.nextToClean == if HasKey(s.table, q.eport, q.proto) || q.lease == 0 then s.nextToClean
                                 else if s.nextToClean == 0 || end < s.nextToClean then end else s.nextToClean
  {}

  // ---- what a cleaning pass reports ----

  const ANY: (Port, Proto) -> bool := (_: Port, _: Proto) => true

  function States(t: seq<Mapping>): seq<RuleState> {
    if t == [] then [] else [RuleState(t[0].eport, t[0].proto, false)] + States(t[1..])
  }

  /** The rules that get_upnp_rules_state_list() gives back are those a pass leaves in the table if the firewall
      refuses nothing, the last one first. */
  lemma {:induction false} SurvivorsAreRest(t: seq<Mapping>, now: U32)
    ensures Survivors(t, now) == Reverse(States(Drop(t, ExpiredBy(now, ANY))))
  {
    hide Drop, Reverse, States;
    var sel := ExpiredBy(now, ANY);
    if t == [] {
      NothingListed(sel);
    } else {
      var rest, one := Drop(t[1..], sel), [RuleState(t[0].eport, t[0].proto, false)];
      SurvivorsAreRest(t[1..], now);
      Grants.DropStep(t, sel);
      if !Expired(t[0], now) {
        StatesCons(t[0], rest);
        ReverseConcat(one, States(rest));
        ReverseOne(one[0]);
        assert StateOf(t[0], now) == one[0];
      }
    }
  }

  lemma NothingListed(sel: Selector)
    ensures Reverse(States(Drop([], sel))) == []
  {}

  lemma StatesCons(m: Mapping, t: seq<Mapping>)
    ensures States([m] + t) == [RuleState(m.eport, m.proto, false)] + States(t)
  {
    assert ([m] + t)[1..] == t;
  }

  lemma ReverseOne<T>(x: T)
    ensures Reverse([x]) == [x]
  {
    assert [x][..0] == [];
  }
}
