/** The redirect table as its users see it: one entry per port mapping, in the firewall's
    order, with the description and lease timestamp joined in. */
module MappingTable {
  import opened Net

  /** `src` is the remote host the mapping is restricted to, 0 for any host. */
  datatype Mapping = Mapping(eport: Port, proto: Proto, iaddr: Addr, iport: Port,
                             src: Addr, desc: string, timestamp: U32)

  predicate At(m: Mapping, eport: Port, proto: Proto) {
    m.eport == eport && m.proto == proto
  }

  predicate HasKey(t: seq<Mapping>, eport: Port, proto: Proto) {
    exists i | 0 <= i < |t| :: At(t[i], eport, proto)
  }

  /** No two mappings share (external port, protocol). */
  ghost predicate UniqueKeys(t: seq<Mapping>) {
    forall i, j | 0 <= i < j < |t| :: !At(t[i], t[j].eport, t[j].proto)
  }

  lemma SameKeySameIndex(t: seq<Mapping>, i: nat, j: nat)
    requires UniqueKeys(t) && i < |t| && j < |t| && At(t[i], t[j].eport, t[j].proto)
    ensures i == j
  {}

  /** The first mapping of an external port and protocol. */
  function Find(t: seq<Mapping>, eport: Port, proto: Proto): (r: Option<Mapping>)
    ensures r.Some? <==> HasKey(t, eport, proto)
    ensures r.Some? ==> r.value in t && At(r.value, eport, proto)
  {
    if t == [] then None
    else if At(t[0], eport, proto) then Some(t[0])
    else
      assert forall i | 0 < i < |t| :: t[i] == t[1..][i - 1];
      Find(t[1..], eport, proto)
  }

  lemma {:induction false} FindUnique(t: seq<Mapping>, i: nat)
    requires i < |t| && UniqueKeys(t)
    ensures Find(t, t[i].eport, t[i].proto) == Some(t[i])
  {
    if i > 0 {
      assert !At(t[0], t[i].eport, t[i].proto);
      FindUnique(t[1..], i - 1);
    }
  }

  // ---- removing several mappings at once ----

  /** The families of mappings that one request or one cleaning pass removes. */
  datatype Selector =
    | ByKey(eport: Port, proto: Proto)
    | ExpiredBy(now: U32, removable: (Port, Proto) -> bool)
    | NatPmpOf(client: Addr, iport: Port, natProto: Proto)

  predicate Expired(m: Mapping, now: U32) {
    0 < m.timestamp <= now
  }

  /** A mapping that a NAT-PMP unmap request of `client` names: internal port 0 names them all. */
  predicate NatPmpNamed(m: Mapping, client: Addr, iport: Port, proto: Proto) {
    m.iaddr == client && "NAT-PMP" <= m.desc && (iport == 0 || (iport == m.iport && proto == m.proto))
  }

  predicate Selected(sel: Selector, m: Mapping) {
    match sel
    case ByKey(eport, proto) => At(m, eport, proto)
    case ExpiredBy(now, removable) => Expired(m, now) && removable(m.eport, m.proto)
    case NatPmpOf(client, iport, proto) => NatPmpNamed(m, client, iport, proto)
  }

  /** The mappings not selected, in order. */
  function Drop(t: seq<Mapping>, sel: Selector): (r: seq<Mapping>)
    ensures |r| <= |t|
  {
    if t == [] then []
    else (if Selected(sel, t[0]) then [] else [t[0]]) + Drop(t[1..], sel)
  }

  lemma {:induction false} DropMembers(t: seq<Mapping>, sel: Selector)
    ensures forall m :: m in Drop(t, sel) <==> m in t && !Selected(sel, m)
  {
    if t != [] {
      DropMembers(t[1..], sel);
    }
  }

  lemma {:induction false} DropConcat(t: seq<Mapping>, u: seq<Mapping>, sel: Selector)
    ensures Drop(t + u, sel) == Drop(t, sel) + Drop(u, sel)
  {
    if t == [] {
      assert t + u == u;
    } else {
      assert (t + u)[0] == t[0] && (t + u)[1..] == t[1..] + u;
      DropConcat(t[1..], u, sel);
      hide Selected;
      var rest, more := Drop(t[1..], sel), Drop(u, sel);
      assert ([t[0]] + rest) + more == [t[0]] + (rest + more);
    }
  }

  lemma {:induction false} DropNothing(t: seq<Mapping>, sel: Selector)
    requires forall m | m in t :: !Selected(sel, m)
    ensures Drop(t, sel) == t
  {
    if t != [] {
      DropNothing(t[1..], sel);
    }
  }

  lemma {:induction false} DropOne(t: seq<Mapping>, i: nat)
    requires i < |t| && UniqueKeys(t)
    ensures Drop(t, ByKey(t[i].eport, t[i].proto)) == t[..i] + t[i + 1..]
  {
    if i == 0 {
      forall m | m in t[1..] ensures !At(m, t[0].eport, t[0].proto) {
        var k :| 0 < k < |t| && t[k] == m;
        assert !At(t[0], t[k].eport, t[k].proto);
      }
      DropNothing(t[1..], ByKey(t[0].eport, t[0].proto));
    } else {
      assert !At(t[0], t[i].eport, t[i].proto);
      DropOne(t[1..], i - 1);
      assert t[..i] == [t[0]] + t[1..][..i - 1];
    }
  }

  lemma DropMiddle(front: seq<Mapping>, m: Mapping, back: seq<Mapping>)
    requires UniqueKeys(front + [m] + back)
    ensures HasKey(front + [m] + back, m.eport, m.proto)
    ensures Drop(front + [m] + back, ByKey(m.eport, m.proto)) == front + back
  {
    var t := front + [m] + back;
    assert t[|front|] == m;
    DropOne(t, |front|);
    assert t[..|front|] == front && t[|front| + 1..] == back;
  }

  /** Removing mappings keeps the keys unique. */
  lemma {:induction false} DropUnique(t: seq<Mapping>, sel: Selector)
    requires UniqueKeys(t)
    ensures UniqueKeys(Drop(t, sel))
  {
    if t != [] {
      DropUnique(t[1..], sel);
      var rest := Drop(t[1..], sel);
      DropMembers(t[1..], sel);
      forall j | 0 <= j < |rest| ensures !At(t[0], rest[j].eport, rest[j].proto) {
        assert rest[j] in t[1..];
        var k :| 0 < k < |t| && t[k] == rest[j];
      }
    }
  }

  lemma AppendUnique(t: seq<Mapping>, m: Mapping)
    requires UniqueKeys(t) && !HasKey(t, m.eport, m.proto)
    ensures UniqueKeys(t + [m])
  {}

  // ---- changing one mapping in place ----

  /** Overwrites description and lease of the mappings of one key. */
  function Relabel(t: seq<Mapping>, eport: Port, proto: Proto, desc: string, timestamp: U32): (r: seq<Mapping>)
    ensures |r| == |t|
  {
    seq(|t|, i requires 0 <= i < |t| =>
      if At(t[i], eport, proto) then t[i].(desc := desc, timestamp := timestamp) else t[i])
  }

  lemma RelabelUnique(t: seq<Mapping>, eport: Port, proto: Proto, desc: string, timestamp: U32)
    requires UniqueKeys(t)
    ensures UniqueKeys(Relabel(t, eport, proto, desc, timestamp))
  {
    var r := Relabel(t, eport, proto, desc, timestamp);
    forall i, j | 0 <= i < j < |r| ensures !At(r[i], r[j].eport, r[j].proto) {
      assert !At(t[i], t[j].eport, t[j].proto);
    }
  }

  lemma RelabelHasKey(t: seq<Mapping>, eport: Port, proto: Proto, desc: string, timestamp: U32, e: Port, p: Proto)
    requires HasKey(t, e, p)
    ensures HasKey(Relabel(t, eport, proto, desc, timestamp), e, p)
  {
    var k :| 0 <= k < |t| && At(t[k], e, p);
    assert At(Relabel(t, eport, proto, desc, timestamp)[k], e, p);
  }

  /** Deletes the mapping of a key and adds it again with another internal port, description and
      lease; both halves may fail, and only a success of both is one. */
  function UpdatePort(t: seq<Mapping>, eport: Port, proto: Proto, iport: Port, desc: string, timestamp: U32,
                      deleted: bool, added: bool): (seq<Mapping>, int)
  {
    if !HasKey(t, eport, proto) || !deleted then (t, -1)
    else if !added then (Drop(t, ByKey(eport, proto)), -1)
    else
      var m := Find(t, eport, proto).value;
      (Drop(t, ByKey(eport, proto)) + [m.(iport := iport, desc := desc, timestamp := timestamp)], 0)
  }
}
