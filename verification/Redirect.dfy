/** upnpredirect.c: the one table that UPnP IGD, NAT-PMP and PCP all allocate from, and the
    single cell holding the time of the next lease to expire. */
module Redirect {
  import opened Net
  import opened Permissions
  import opened MappingTable
  import opened Backend

  /** The permission list and the disable_port_forwarding switch. */
  datatype Config = Config(perms: seq<Perm>, disabled: bool)

  /** The redirect table and nextruletoclean_timestamp. */
  datatype State = State(table: seq<Mapping>, nextToClean: U32)

  /** What the kernel answers to the (at most two) deletions and additions of one request. */
  datatype Kernel = Kernel(deleted: bool, added: bool, deletedAgain: bool, addedAgain: bool)

  /** The arguments of upnp_redirect(). */
  datatype Request = Request(rhost: RemoteHost, eport: Port, iaddr: Addr, iport: Port,
                             proto: Proto, desc: string, lease: U32)

  /** When a lease given now ends; 0 stands for a lease without end. */
  function Stamp(now: U32, lease: U32): U32 {
    if lease > 0 then Add32(now, lease) else 0
  }

  /** The next lease to expire once a lease ending at `t` is added. */
  function Earlier(nextToClean: U32, t: U32): U32 {
    if t > 0 && (nextToClean == 0 || t < nextToClean) then t else nextToClean
  }

  /** Does the remote host of a request name the one stored with a mapping? */
  predicate SameHost(rhost: RemoteHost, src: Addr) {
    match rhost
    case Absent | Empty | Wildcard => src == 0
    case Host(a) => a != 0 && a == src
    case Unparsable => false
  }

  // ---- the requests as functions on the abstract state ----

  function Insert(cfg: Config, s: State, m: Mapping, added: bool): (State, int) {
    if cfg.disabled || !ValidProto(m.proto) || !added then (s, -1)
    else (State(s.table + [m], Earlier(s.nextToClean, m.timestamp)), 0)
  }

  /** The update is carried out twice, and the second outcome counts. */
  function Renew(s: State, q: Request, old_: Mapping, timestamp: U32, k: Kernel): (State, int) {
    if q.iport != old_.iport then
      var once := UpdatePort(s.table, q.eport, q.proto, q.iport, q.desc, timestamp, k.deleted, k.added);
      var twice := UpdatePort(once.0, q.eport, q.proto, q.iport, q.desc, timestamp, k.deletedAgain, k.addedAgain);
      (s.(table := twice.0), twice.1)
    else
      (s.(table := Relabel(s.table, q.eport, q.proto, q.desc, timestamp)), 0)
  }

  function NewMapping(q: Request, timestamp: U32): Mapping {
    Mapping(q.eport, q.proto, q.iaddr, q.iport, SrcOf(q.rhost), q.desc, timestamp)
  }

  predicate Renews(s: State, q: Request) {
    var found := Find(s.table, q.eport, q.proto);
    found.Some? && found.value.iaddr == q.iaddr && SameHost(q.rhost, found.value.src)
  }

  /** upnp_redirect() */
  function AddOrRenew(cfg: Config, s: State, q: Request, now: U32, inUse: bool, k: Kernel): (State, int) {
    if !Permitted(cfg.perms, q.eport, q.iaddr, q.iport) then (s, -3)
    else if Renews(s, q) then
      Renew(s, q, Find(s.table, q.eport, q.proto).value, Stamp(now, q.lease), k)
    else if HasKey(s.table, q.eport, q.proto) then (s, -2)
    else if inUse then (s, -4)
    else Insert(cfg, s, NewMapping(q, Stamp(now, q.lease)), k.added)
  }

  /** _upnp_delete_redir() */
  function Delete(s: State, eport: Port, proto: Proto, deleted: bool): (State, int) {
    if HasKey(s.table, eport, proto) && deleted then (s.(table := Drop(s.table, ByKey(eport, proto))), 0)
    else (s, -1)
  }

  /** `r` is the earliest lease among the first `n` mappings that ends after `now`, or 0 if there is none. */
  ghost predicate IsNextLease(t: seq<Mapping>, n: nat, now: U32, r: U32)
    requires n <= |t|
  {
    && (r == 0 || (now < r && exists k | 0 <= k < n :: t[k].timestamp == r))
    && (forall k | 0 <= k < n && now < t[k].timestamp :: 0 < r <= t[k].timestamp)
  }

  function NextLease(t: seq<Mapping>, n: nat, now: U32): (r: U32)
    requires n <= |t|
    ensures IsNextLease(t, n, now, r)
  {
    if n == 0 then 0
    else
      var r := NextLease(t, n - 1, now);
      if now < t[n - 1].timestamp then Earlier(r, t[n - 1].timestamp) else r
  }

  /** A cleaning pass: expired mappings go, as far as the firewall lets them. */
  function Clean(s: State, now: U32, removable: (Port, Proto) -> bool): State {
    State(Drop(s.table, ExpiredBy(now, removable)), NextLease(s.table, |s.table|, now))
  }

  /** struct rule_state */
  datatype RuleState = RuleState(eport: Port, proto: Proto, toRemove: bool)

  function StateOf(m: Mapping, now: U32): RuleState {
    RuleState(m.eport, m.proto, Expired(m, now))
  }

  /** The states of the first `n` rules, last first. */
  function Listing(t: seq<Mapping>, n: nat, now: U32): seq<RuleState>
    requires n <= |t|
  {
    if n == 0 then [] else [StateOf(t[n - 1], now)] + Listing(t, n - 1, now)
  }

  /** The rules still alive, last first, as the cleaning pass lists them. */
  function Survivors(t: seq<Mapping>, now: U32): seq<RuleState> {
    if t == [] then []
    else Survivors(t[1..], now) + (if Expired(t[0], now) then [] else [StateOf(t[0], now)])
  }

  class Redirector {
    const cfg: Config
    const backend: IpfwBackend
    var nextToClean: U32

    ghost predicate Valid()
      reads this, backend
    {
      backend.Valid()
    }

    ghost function S(): State
      reads this, backend
    {
      State(backend.Table(), nextToClean)
    }

    constructor (cfg: Config)
      ensures Valid() && S() == State([], 0) && this.cfg == cfg && fresh(backend)
    {
      this.cfg := cfg;
      backend := new IpfwBackend();
      nextToClean := 0;
    }

    /** upnp_redirect_internal() */
    method RedirectInternal(rhost: RemoteHost, eport: Port, iaddr: Addr, iport: Port, proto: Proto,
                            desc: string, timestamp: U32, added: bool) returns (r: int)
      requires Valid() && !HasKey(S().table, eport, proto)
      modifies this, backend
      ensures Valid()
      ensures (S(), r) == Insert(cfg, old(S()), Mapping(eport, proto, iaddr, iport, SrcOf(rhost), desc, timestamp), added)
    {
      if cfg.disabled {
        return -1;
      }
      r := backend.AddRedirectRule2(rhost, eport, iaddr, iport, proto, desc, timestamp, added);
      if r < 0 {
        return -1;
      }
      if timestamp > 0 {
        if nextToClean == 0 || timestamp < nextToClean {
          nextToClean := timestamp;
        }
      }
      return 0;
    }

    /** upnp_redirect() */
    method UpnpRedirect(q: Request, now: U32, inUse: bool, k: Kernel) returns (r: int)
      requires Valid()
      modifies this, backend
      ensures Valid()
      ensures (S(), r) == AddOrRenew(cfg, old(S()), q, now, inUse, k)
    {
      var accepted := CheckRule(cfg.perms, q.eport, q.iaddr, q.iport);
      if !accepted {
        return -3;
      }
      var found := backend.GetRedirectRule(q.eport, q.proto);
      if found.Some? {
        if q.iaddr == found.value.iaddr && SameHost(q.rhost, found.value.src) {
          r := RenewMapping(q, found.value.iport, Stamp(now, q.lease), k);
        } else {
          return -2;
        }
      } else if inUse {
        return -4;
      } else {
        r := RedirectInternal(q.rhost, q.eport, q.iaddr, q.iport, q.proto, q.desc, Stamp(now, q.lease), k.added);
      }
    }

    /** The renewal branch of upnp_redirect(). */
    method RenewMapping(q: Request, iportOld: Port, timestamp: U32, k: Kernel) returns (r: int)
      requires Valid() && HasKey(S().table, q.eport, q.proto)
      requires Find(S().table, q.eport, q.proto).value.iport == iportOld
      modifies backend
      ensures Valid()
      ensures (S(), r) == Renew(old(S()), q, Find(old(S()).table, q.eport, q.proto).value, timestamp, k)
    {
      hide IpfwBackend.Valid, IpfwBackend.Table;
      if q.iport != iportOld {
        r := backend.UpdatePortmapping(q.eport, q.proto, q.iport, q.desc, timestamp, k.deleted, k.added);
        r := backend.UpdatePortmapping(q.eport, q.proto, q.iport, q.desc, timestamp, k.deletedAgain, k.addedAgain);
      } else {
        backend.UpdateDescTimestamp(q.eport, q.proto, q.desc, timestamp);
        RelabelKeepsKey(old(S().table), q.eport, q.proto, q.desc, timestamp);
        backend.UpdateDescTimestamp(q.eport, q.proto, q.desc, timestamp);
        r := 0;
      }
    }

    /** _upnp_delete_redir() */
    method DeleteRedir(eport: Port, proto: Proto, deleted: bool) returns (r: int)
      requires Valid()
      modifies backend
      ensures Valid()
      ensures (S(), r) == Delete(old(S()), eport, proto, deleted)
    {
      r := backend.DeleteRedirectRule(eport, proto, deleted);
    }

    /** get_upnp_rules_state_list() */
    method RulesStateList(max: int, now: U32, removable: (Port, Proto) -> bool) returns (list: seq<RuleState>)
      requires Valid()
      modifies this, backend
      ensures Valid()
      ensures S() == Clean(old(S()), now, removable)
      ensures var alive := Survivors(old(S()).table, now);
              list == if |alive| <= max then [] else alive
    {
      var i;
      list := ListRules(now);
      i, list := RemoveExpired(list, now, removable);
      if i <= max {
        list := [];
      }
    }

    /** The first half of the pass: list the rules, last first, and find the next lease to expire. */
    method ListRules(now: U32) returns (list: seq<RuleState>)
      requires Valid()
      modifies this`nextToClean
      ensures nextToClean == NextLease(backend.Table(), |backend.Table()|, now)
      ensures list == Listing(backend.Table(), |backend.Table()|, now)
    {
      hide IpfwBackend.Valid, IpfwBackend.Table;
      ghost var t := backend.Table();
      var i := 0;
      list := [];
      nextToClean := 0;
      var found := backend.GetRedirectRuleByIndex(i, 1);
      while found.Some?
        invariant Valid() && backend.Table() == t && 0 <= i <= |t|
        invariant found.Some? <==> i < |t|
        invariant found.Some? ==> found.value == t[i].(desc := found.value.desc)
        invariant list == Listing(t, i, now)
        invariant nextToClean == NextLease(t, i, now)
        decreases |t| - i
      {
        var m := found.value;
        var toRemove := false;
        if m.timestamp > 0 {
          if m.timestamp <= now {
            toRemove := true;
          } else if nextToClean <= now || m.timestamp < nextToClean {
            nextToClean := m.timestamp;
          }
        }
        assert nextToClean == NextLease(t, i + 1, now);
        assert RuleState(m.eport, m.proto, toRemove) == StateOf(t[i], now);
        list := [RuleState(m.eport, m.proto, toRemove)] + list;
        i := i + 1;
        assert list == Listing(t, i, now);
        found := backend.GetRedirectRuleByIndex(i, 1);
      }
    }

    /** The second half of the pass: expired rules leave the list and the firewall. */
    method RemoveExpired(all: seq<RuleState>, now: U32, removable: (Port, Proto) -> bool)
      returns (count: nat, list: seq<RuleState>)
      requires Valid() && all == Listing(backend.Table(), |backend.Table()|, now)
      modifies backend
      ensures Valid()
      ensures backend.Table() == Drop(old(backend.Table()), ExpiredBy(now, removable))
      ensures list == Survivors(old(backend.Table()), now) && count == |list|
    {
      hide IpfwBackend.Valid, IpfwBackend.Table;
      ghost var t, sel := backend.Table(), ExpiredBy(now, removable);
      var p := 0;
      list := all;
      count := |all|;
      ghost var n, alive, todo := |t|, [], all;
      assert t[..n] == t && t[n..] == [];
      while p < |list|
        invariant Valid() && 0 <= n <= |t| && count == |list|
        invariant list == alive + todo && |alive| == p && todo == Listing(t, n, now)
        invariant alive == Survivors(t[n..], now)
        invariant backend.Table() == Passed(t, n, sel)
        decreases n
      {
        var tmp := list[p];
        Unlink(alive, todo);
        n := n - 1;
        ExpireStep(t, n, sel);
        SurvivorsStep(t, n, now);
        todo := todo[1..];
        if tmp.toRemove {
          var _ := DeleteRedir(tmp.eport, tmp.proto, removable(tmp.eport, tmp.proto));
          list := list[..p] + list[p + 1..];
          count := count - 1;
        } else {
          alive := alive + [tmp];
          p := p + 1;
        }
      }
      assert t[0..] == t;
    }
  }

  /** Unlinking the element between two parts of a list, or walking over it. */
  lemma Unlink(front: seq<RuleState>, back: seq<RuleState>)
    requires back != []
    ensures (front + back)[|front|] == back[0]
    ensures (front + back)[..|front|] + (front + back)[|front| + 1..] == front + back[1..]
    ensures front + back == (front + [back[0]]) + back[1..]
  {}

  /** What is left once the entries of `t` from `n` on have been through the pass. */
  ghost function Passed(t: seq<Mapping>, n: nat, sel: Selector): seq<Mapping>
    requires n <= |t|
  {
    t[..n] + Drop(t[n..], sel)
  }

  /** One step of the pass, from the end of the table: what deleting the entry by its key does. */
  lemma ExpireStep(t: seq<Mapping>, n: nat, sel: Selector)
    requires n < |t| && UniqueKeys(Passed(t, n + 1, sel))
    ensures HasKey(Passed(t, n + 1, sel), t[n].eport, t[n].proto)
    ensures Passed(t, n, sel) == if Selected(sel, t[n]) then Drop(Passed(t, n + 1, sel), ByKey(t[n].eport, t[n].proto))
                                 else Passed(t, n + 1, sel)
  {
    var rest := Drop(t[n + 1..], sel);
    assert Passed(t, n + 1, sel) == t[..n] + [t[n]] + rest;
    DropMiddle(t[..n], t[n], rest);
    assert t[n..][1..] == t[n + 1..];
    assert t[..n] + [t[n]] + rest == t[..n] + ([t[n]] + rest);
  }

  lemma SurvivorsStep(t: seq<Mapping>, n: nat, now: U32)
    requires n < |t|
    ensures Survivors(t[n..], now)
         == Survivors(t[n + 1..], now) + if Expired(t[n], now) then [] else [StateOf(t[n], now)]
  {
    assert t[n..][1..] == t[n + 1..];
  }

  lemma RelabelKeepsKey(t: seq<Mapping>, eport: Port, proto: Proto, desc: string, timestamp: U32)
    requires HasKey(t, eport, proto)
    ensures HasKey(Relabel(t, eport, proto, desc, timestamp), eport, proto)
    ensures Relabel(Relabel(t, eport, proto, desc, timestamp), eport, proto, desc, timestamp)
         == Relabel(t, eport, proto, desc, timestamp)
  {
    var i :| 0 <= i < |t| && At(t[i], eport, proto);
    assert At(Relabel(t, eport, proto, desc, timestamp)[i], eport, proto);
  }
}
