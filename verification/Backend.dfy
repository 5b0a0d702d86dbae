/** ipfw/ipfwrdr.c: a firewall that stores no description and no lease, so the daemon keeps
    them in a list of its own, beside the rules of the kernel. */
module Backend {
  import opened Net
  import opened MappingTable

  /** A forwarding rule of the kernel. */
  datatype FwRule = FwRule(eport: Port, proto: Proto, iaddr: Addr, iport: Port, src: Addr)

  /** struct mapping_desc_time */
  datatype DescTime = DescTime(eport: Port, proto: Proto, desc: string, timestamp: U32)

  /** A remote host as a request gives it: absent, empty, a wildcard, an address, or other text. */
  datatype RemoteHost = Absent | Empty | Wildcard | Host(address: Addr) | Unparsable

  /** The source address stored for a remote host: text that is no address leaves it 0. */
  function SrcOf(rhost: RemoteHost): Addr {
    if rhost.Host? then rhost.address else 0
  }

  /** ipfw_validate_protocol() */
  predicate ValidProto(proto: Proto) {
    proto == IPPROTO_TCP || proto == IPPROTO_UDP
  }

  ghost predicate Listed(descs: seq<DescTime>, eport: Port, proto: Proto) {
    exists i | 0 <= i < |descs| :: descs[i].eport == eport && descs[i].proto == proto
  }

  /** get_desc_time(): the first element of the list with the key. */
  function Lookup(descs: seq<DescTime>, eport: Port, proto: Proto): DescTime {
    if descs == [] then DescTime(eport, proto, "", 0)
    else if descs[0].eport == eport && descs[0].proto == proto then descs[0]
    else Lookup(descs[1..], eport, proto)
  }

  function Entry(rule: FwRule, descs: seq<DescTime>): (m: Mapping)
    ensures At(m, rule.eport, rule.proto)
  {
    var d := Lookup(descs, rule.eport, rule.proto);
    Mapping(rule.eport, rule.proto, rule.iaddr, rule.iport, rule.src, d.desc, d.timestamp)
  }

  /** The kernel's rules joined with the descriptions. */
  function Join(kernel: seq<FwRule>, descs: seq<DescTime>): (t: seq<Mapping>)
    ensures |t| == |kernel|
    ensures forall i | 0 <= i < |t| :: t[i] == Entry(kernel[i], descs)
  {
    seq(|kernel|, i requires 0 <= i < |kernel| => Entry(kernel[i], descs))
  }

  ghost predicate UniqueDescs(descs: seq<DescTime>) {
    forall i, j | 0 <= i < j < |descs| :: !(descs[i].eport == descs[j].eport && descs[i].proto == descs[j].proto)
  }

  /** The two lists hold exactly the same keys, each once. */
  ghost predicate SameKeys(kernel: seq<FwRule>, descs: seq<DescTime>) {
    && UniqueKeys(Join(kernel, descs))
    && UniqueDescs(descs)
    && (forall r | r in kernel :: Listed(descs, r.eport, r.proto))
    && (forall d | d in descs :: HasKey(Join(kernel, descs), d.eport, d.proto))
  }

  /** del_desc_time() on values: the first element with the key is gone. */
  function Unlist(descs: seq<DescTime>, eport: Port, proto: Proto): seq<DescTime> {
    if descs == [] then []
    else if descs[0].eport == eport && descs[0].proto == proto then descs[1..]
    else [descs[0]] + Unlist(descs[1..], eport, proto)
  }

  /** The first element with the key is at index `p`, or nowhere. */
  lemma {:induction false} UnlistAt(descs: seq<DescTime>, p: nat, eport: Port, proto: Proto)
    requires p <= |descs|
    requires forall i | 0 <= i < p :: !(descs[i].eport == eport && descs[i].proto == proto)
    requires p < |descs| ==> descs[p].eport == eport && descs[p].proto == proto
    ensures Unlist(descs, eport, proto) == if p < |descs| then descs[..p] + descs[p + 1..] else descs
  {
    if p > 0 {
      var rest := descs[1..];
      assert forall i | 0 <= i < p - 1 :: rest[i] == descs[i + 1];
      UnlistAt(rest, p - 1, eport, proto);
      assert descs == [descs[0]] + rest;
    }
  }

  lemma {:induction false} LookupUnlist(descs: seq<DescTime>, eport: Port, proto: Proto, e: Port, p: Proto)
    requires !(e == eport && p == proto)
    ensures Lookup(Unlist(descs, eport, proto), e, p) == Lookup(descs, e, p)
  {
    if descs != [] {
      LookupUnlist(descs[1..], eport, proto, e, p);
    }
  }

  lemma {:induction false} UnlistMembers(descs: seq<DescTime>, eport: Port, proto: Proto)
    requires UniqueDescs(descs)
    ensures forall d :: d in Unlist(descs, eport, proto) <==> d in descs && !(d.eport == eport && d.proto == proto)
  {
    if descs != [] {
      forall d | d in descs[1..] ensures !(d.eport == descs[0].eport && d.proto == descs[0].proto) {
        var k :| 0 < k < |descs| && descs[k] == d;
      }
      UnlistMembers(descs[1..], eport, proto);
    }
  }

  lemma {:induction false} UnlistUnique(descs: seq<DescTime>, eport: Port, proto: Proto)
    requires UniqueDescs(descs)
    ensures UniqueDescs(Unlist(descs, eport, proto))
  {
    if descs != [] {
      UnlistUnique(descs[1..], eport, proto);
      UnlistMembers(descs[1..], eport, proto);
      var rest := Unlist(descs[1..], eport, proto);
      forall j | 0 <= j < |rest| ensures !(descs[0].eport == rest[j].eport && descs[0].proto == rest[j].proto) {
        assert rest[j] in descs[1..];
        var k :| 0 < k < |descs| && descs[k] == rest[j];
      }
    }
  }

  class IpfwBackend {
    /** The user rules of the kernel in order; its closing default rule is implicit. */
    var kernel: seq<FwRule>
    /** mappings_list, head first. */
    var descs: seq<DescTime>

    ghost predicate Valid()
      reads this
      ensures Valid() ==> UniqueKeys(Table())
    {
      SameKeys(kernel, descs) && forall r | r in kernel :: ValidProto(r.proto)
    }

    ghost function Table(): (t: seq<Mapping>)
      reads this
    {
      Join(kernel, descs)
    }

    constructor ()
      ensures Valid() && Table() == []
    {
      kernel := [];
      descs := [];
    }

    /** add_desc_time() */
    method AddDescTime(eport: Port, proto: Proto, desc: string, timestamp: U32)
      modifies this`descs
      ensures descs == [DescTime(eport, proto, desc, timestamp)] + old(descs)
    {
      descs := [DescTime(eport, proto, desc, timestamp)] + descs;
    }

    /** del_desc_time() */
    method DelDescTime(eport: Port, proto: Proto)
      modifies this`descs
      ensures descs == Unlist(old(descs), eport, proto)
    {
      var p := 0;
      while p < |descs|
        invariant 0 <= p <= |descs| && descs == old(descs)
        invariant forall i | 0 <= i < p :: !(descs[i].eport == eport && descs[i].proto == proto)
      {
        if descs[p].eport == eport && descs[p].proto == proto {
          UnlistAt(descs, p, eport, proto);
          descs := descs[..p] + descs[p + 1..];
          return;
        }
        p := p + 1;
      }
      UnlistAt(descs, p, eport, proto);
    }

    /** The scan shared by get, delete and update: index of the first rule with the key, or -1. */
    method FindRule(eport: Port, proto: Proto) returns (i: int)
      requires Valid()
      ensures i == -1 <==> !HasKey(Table(), eport, proto)
      ensures i != -1 ==> 0 <= i < |kernel| && At(Table()[i], eport, proto)
    {
      if !ValidProto(proto) {
        return -1;
      }
      i := 0;
      while i < |kernel|
        invariant 0 <= i <= |kernel|
        invariant forall k | 0 <= k < i :: !At(Table()[k], eport, proto)
      {
        if proto == kernel[i].proto && eport == kernel[i].eport {
          return i;
        }
        i := i + 1;
      }
      return -1;
    }

    /** add_redirect_rule2(): `added` is the outcome of the kernel's IP_FW_ADD. */
    method AddRedirectRule2(rhost: RemoteHost, eport: Port, iaddr: Addr, iport: Port, proto: Proto,
                            desc: string, timestamp: U32, added: bool) returns (r: int)
      requires Valid()
      modifies this
      ensures r == if ValidProto(proto) && added then 0 else -1
      ensures r == -1 ==> Table() == old(Table())
      ensures Valid() <==> r == -1 || !HasKey(old(Table()), eport, proto)
      ensures r == 0 && Valid() ==>
                Table() == old(Table()) + [Mapping(eport, proto, iaddr, iport, SrcOf(rhost), desc, timestamp)]
    {
      if !ValidProto(proto) {
        return -1;
      }
      if !added {
        return -1;
      }
      ghost var t := Table();
      ghost var before := descs;
      kernel := kernel + [FwRule(eport, proto, iaddr, iport, SrcOf(rhost))];
      AddDescTime(eport, proto, desc, timestamp);
      if HasKey(t, eport, proto) {
        var i :| 0 <= i < |t| && At(t[i], eport, proto);
        assert At(Table()[i], Table()[|t|].eport, Table()[|t|].proto);
      } else {
        JoinAdd(old(kernel), before, FwRule(eport, proto, iaddr, iport, SrcOf(rhost)), descs[0]);
      }
      return 0;
    }

    /** get_redirect_rule() */
    method GetRedirectRule(eport: Port, proto: Proto) returns (found: Option<Mapping>)
      requires Valid()
      ensures found == Find(Table(), eport, proto)
    {
      var i := FindRule(eport, proto);
      if i == -1 {
        return None;
      }
      FindUnique(Table(), i);
      return Some(Entry(kernel[i], descs));
    }

    /** get_redirect_rule_by_index(): the description is cut to the caller's buffer. */
    method GetRedirectRuleByIndex(index: int, desclen: nat) returns (found: Option<Mapping>)
      requires Valid() && desclen > 0
      ensures found.Some? <==> 0 <= index < |Table()|
      ensures found.Some? ==>
                found.value == Table()[index].(desc := Cut(Table()[index].desc, desclen))
    {
      if index < 0 || index >= |kernel| {
        return None;
      }
      var m := Entry(kernel[index], descs);
      return Some(m.(desc := Cut(m.desc, desclen)));
    }

    /** A successful IP_FW_DEL of one rule, and the removal of its description. */
    method RemoveRule(i: nat)
      requires Valid() && i < |kernel|
      modifies this
      ensures Valid()
      ensures Table() == Drop(old(Table()), ByKey(old(kernel[i].eport), old(kernel[i].proto)))
    {
      JoinRemove(kernel, descs, i);
      RemoveKeepsKeys(kernel, descs, i);
      var eport, proto := kernel[i].eport, kernel[i].proto;
      kernel := kernel[..i] + kernel[i + 1..];
      DelDescTime(eport, proto);
    }

    /** delete_redirect_rule(): `deleted` is the outcome of the kernel's IP_FW_DEL. */
    method DeleteRedirectRule(eport: Port, proto: Proto, deleted: bool) returns (r: int)
      requires Valid()
      modifies this
      ensures Valid()
      ensures r == if HasKey(old(Table()), eport, proto) && deleted then 0 else -1
      ensures Table() == if r == 0 then Drop(old(Table()), ByKey(eport, proto)) else old(Table())
    {
      var i := FindRule(eport, proto);
      if i == -1 || !deleted {
        return -1;
      }
      RemoveRule(i);
      return 0;
    }

    /** update_portmapping_desc_timestamp(): the caller must have seen the key, or a
        description without a rule is left behind. */
    method UpdateDescTimestamp(eport: Port, proto: Proto, desc: string, timestamp: U32)
      requires Valid()
      modifies this
      ensures Valid() <==> HasKey(old(Table()), eport, proto)
      ensures Valid() ==> Table() == Relabel(old(Table()), eport, proto, desc, timestamp)
    {
      ghost var t := Table();
      ghost var before := descs;
      DelDescTime(eport, proto);
      AddDescTime(eport, proto, desc, timestamp);
      JoinRelabel(kernel, before, descs[0]);
      if HasKey(t, eport, proto) {
        RelabelKeepsKeys(kernel, before, descs[0]);
      } else {
        assert descs[0] in descs;
        assert forall i | 0 <= i < |t| :: At(Table()[i], t[i].eport, t[i].proto);
      }
    }

    /** update_portmapping(): the rule is deleted and added again with the new internal port. */
    method UpdatePortmapping(eport: Port, proto: Proto, iport: Port, desc: string, timestamp: U32,
                             deleted: bool, added: bool) returns (r: int)
      requires Valid()
      modifies this
      ensures Valid()
      ensures (Table(), r) == UpdatePort(old(Table()), eport, proto, iport, desc, timestamp, deleted, added)
    {
      var i := FindRule(eport, proto);
      if i == -1 || !deleted {
        return -1;
      }
      var rule := kernel[i];
      ghost var m := Table()[i];
      assert Find(Table(), eport, proto) == Some(m) by { FindUnique(Table(), i); }
      RemoveRule(i);
      assert !HasKey(Table(), eport, proto) by {
        DropMembers(old(Table()), ByKey(eport, proto));
        assert forall k | 0 <= k < |Table()| :: Table()[k] in Table();
      }
      var rhost := if rule.src != 0 then Host(rule.src) else Empty;
      r := AddRedirectRule2(rhost, eport, rule.iaddr, iport, proto, desc, timestamp, added);
    }
  }

  // ---- how the join follows the two lists ----

  lemma JoinAdd(kernel: seq<FwRule>, descs: seq<DescTime>, rule: FwRule, d: DescTime)
    requires SameKeys(kernel, descs) && !HasKey(Join(kernel, descs), rule.eport, rule.proto)
    requires d.eport == rule.eport && d.proto == rule.proto
    ensures SameKeys(kernel + [rule], [d] + descs)
    ensures Join(kernel + [rule], [d] + descs)
         == Join(kernel, descs)
            + [Mapping(rule.eport, rule.proto, rule.iaddr, rule.iport, rule.src, d.desc, d.timestamp)]
  {
    hide Join;
    var t, descs' := Join(kernel, descs), [d] + descs;
    var t' := Join(kernel + [rule], descs');
    var m := Mapping(rule.eport, rule.proto, rule.iaddr, rule.iport, rule.src, d.desc, d.timestamp);
    forall i | 0 <= i < |t| ensures t'[i] == t[i] {
      assert !At(t[i], rule.eport, rule.proto);
      assert descs'[1..] == descs;
    }
    assert t' == t + [m];
    AppendUnique(t, m);
    assert At(t'[|t|], d.eport, d.proto);
    forall x | x in descs ensures HasKey(t', x.eport, x.proto) {
      var i :| 0 <= i < |t| && At(t[i], x.eport, x.proto);
      assert At(t'[i], x.eport, x.proto);
    }
    forall r | r in kernel + [rule] ensures Listed(descs', r.eport, r.proto) {
      if r in kernel {
        ListedBehind(d, descs, r.eport, r.proto);
      } else {
        assert descs'[0] == d;
      }
    }
    UniqueBehind(d, descs);
  }

  lemma JoinRemove(kernel: seq<FwRule>, descs: seq<DescTime>, i: nat)
    requires SameKeys(kernel, descs) && i < |kernel|
    ensures Join(kernel[..i] + kernel[i + 1..], Unlist(descs, kernel[i].eport, kernel[i].proto))
         == Drop(Join(kernel, descs), ByKey(kernel[i].eport, kernel[i].proto))
  {
    hide Join, Unlist, Lookup, Drop;
    var e, p := kernel[i].eport, kernel[i].proto;
    var kernel', descs' := kernel[..i] + kernel[i + 1..], Unlist(descs, e, p);
    var t, t' := Join(kernel, descs), Join(kernel', descs');
    DropOne(t, i);
    forall k | 0 <= k < |t'| ensures t'[k] == (t[..i] + t[i + 1..])[k] {
      var k' := if k < i then k else k + 1;
      assert !At(t[k'], e, p);
      LookupUnlist(descs, e, p, kernel[k'].eport, kernel[k'].proto);
    }
  }

  lemma RemoveKeepsKeys(kernel: seq<FwRule>, descs: seq<DescTime>, i: nat)
    requires SameKeys(kernel, descs) && i < |kernel|
    ensures SameKeys(kernel[..i] + kernel[i + 1..], Unlist(descs, kernel[i].eport, kernel[i].proto))
  {
    hide Join, Unlist, Lookup, Drop;
    var e, p := kernel[i].eport, kernel[i].proto;
    var kernel', descs' := kernel[..i] + kernel[i + 1..], Unlist(descs, e, p);
    var t, t' := Join(kernel, descs), Join(kernel', descs');
    JoinRemove(kernel, descs, i);
    DropUnique(t, ByKey(e, p));
    UnlistMembers(descs, e, p);
    UnlistUnique(descs, e, p);
    forall d | d in descs' ensures HasKey(t', d.eport, d.proto) {
      KeySurvives(t, e, p, d.eport, d.proto);
    }
    forall r | r in kernel' ensures Listed(descs', r.eport, r.proto) {
      var k :| 0 <= k < |kernel'| && kernel'[k] == r;
      assert t'[k] in t';
      assert r in kernel;
      ListedSurvives(descs, e, p, r.eport, r.proto);
    }
  }

  lemma KeySurvives(t: seq<Mapping>, eport: Port, proto: Proto, e: Port, p: Proto)
    requires HasKey(t, e, p) && !(e == eport && p == proto)
    ensures HasKey(Drop(t, ByKey(eport, proto)), e, p)
  {
    var k :| 0 <= k < |t| && At(t[k], e, p);
    DropMembers(t, ByKey(eport, proto));
    assert t[k] in Drop(t, ByKey(eport, proto));
  }

  lemma ListedSurvives(descs: seq<DescTime>, eport: Port, proto: Proto, e: Port, p: Proto)
    requires UniqueDescs(descs) && Listed(descs, e, p) && !(e == eport && p == proto)
    ensures Listed(Unlist(descs, eport, proto), e, p)
  {
    var k :| 0 <= k < |descs| && descs[k].eport == e && descs[k].proto == p;
    UnlistMembers(descs, eport, proto);
    assert descs[k] in Unlist(descs, eport, proto);
  }

  lemma ListedBehind(d: DescTime, descs: seq<DescTime>, e: Port, p: Proto)
    requires Listed(descs, e, p)
    ensures Listed([d] + descs, e, p)
  {
    var k :| 0 <= k < |descs| && descs[k].eport == e && descs[k].proto == p;
    assert ([d] + descs)[k + 1] == descs[k];
  }

  lemma UniqueBehind(d: DescTime, descs: seq<DescTime>)
    requires UniqueDescs(descs) && forall x | x in descs :: !(x.eport == d.eport && x.proto == d.proto)
    ensures UniqueDescs([d] + descs)
  {
    forall j | 0 <= j < |descs| ensures !(d.eport == descs[j].eport && d.proto == descs[j].proto) {
      assert descs[j] in descs;
    }
  }

  lemma JoinRelabel(kernel: seq<FwRule>, descs: seq<DescTime>, d: DescTime)
    ensures Join(kernel, [d] + Unlist(descs, d.eport, d.proto))
         == Relabel(Join(kernel, descs), d.eport, d.proto, d.desc, d.timestamp)
  {
    var descs' := [d] + Unlist(descs, d.eport, d.proto);
    forall k | 0 <= k < |kernel|
      ensures Join(kernel, descs')[k] == Relabel(Join(kernel, descs), d.eport, d.proto, d.desc, d.timestamp)[k]
    {
      assert descs'[1..] == Unlist(descs, d.eport, d.proto);
      if !(kernel[k].eport == d.eport && kernel[k].proto == d.proto) {
        LookupUnlist(descs, d.eport, d.proto, kernel[k].eport, kernel[k].proto);
      }
    }
  }

  lemma RelabelKeepsKeys(kernel: seq<FwRule>, descs: seq<DescTime>, d: DescTime)
    requires SameKeys(kernel, descs) && HasKey(Join(kernel, descs), d.eport, d.proto)
    ensures SameKeys(kernel, [d] + Unlist(descs, d.eport, d.proto))
  {
    hide Join, Unlist, Lookup, Relabel, HasKey, Listed;
    var rest := Unlist(descs, d.eport, d.proto);
    var t := Join(kernel, descs);
    JoinRelabel(kernel, descs, d);
    RelabelUnique(t, d.eport, d.proto, d.desc, d.timestamp);
    UnlistMembers(descs, d.eport, d.proto);
    UnlistUnique(descs, d.eport, d.proto);
    UniqueBehind(d, rest);
    forall x | x in [d] + rest ensures HasKey(Join(kernel, [d] + rest), x.eport, x.proto) {
      RelabelHasKey(t, d.eport, d.proto, d.desc, d.timestamp, x.eport, x.proto);
    }
    forall r | r in kernel ensures Listed([d] + rest, r.eport, r.proto) {
      RelabelListed(descs, d, r.eport, r.proto);
    }
  }

  lemma RelabelListed(descs: seq<DescTime>, d: DescTime, e: Port, p: Proto)
    requires UniqueDescs(descs) && Listed(descs, e, p)
    ensures Listed([d] + Unlist(descs, d.eport, d.proto), e, p)
  {
    hide Unlist;
    var rest := Unlist(descs, d.eport, d.proto);
    if e == d.eport && p == d.proto {
      assert ([d] + rest)[0] == d;
    } else {
      ListedSurvives(descs, d.eport, d.proto, e, p);
      ListedBehind(d, rest, e, p);
    }
  }
}
