/** The upward search for an external port that natpmp.c and pcpserver.c each run:
    one port after the other, from 65535 on to 1, until the first port comes round again. */
module PortScan {
  import opened Net
  import opened Permissions
  import opened MappingTable

  /** `eport++; if(eport == 0) eport++;` on an unsigned short. */
  function Following(p: Port): Port {
    var q := (p + 1) % 65536;
    if q == 0 then 1 else q
  }

  /** The `k`-th port of the search. */
  function Cyclic(first: Port, k: nat): Port
    requires 1 <= first && k < 65535
  {
    if first + k <= 65535 then first + k else first + k - 65535
  }

  lemma CyclicStep(first: Port, k: nat)
    requires 1 <= first && k < 65535
    ensures Cyclic(first, 0) == first
    ensures Following(Cyclic(first, k)) == if k + 1 < 65535 then Cyclic(first, k + 1) else first
    ensures 0 < k ==> Cyclic(first, k) != first
  {}

  /** Every non-zero port is met once, and only once. */
  lemma CyclicVisitsAll(first: Port, p: Port)
    requires 1 <= first && 1 <= p
    ensures exists k :: 0 <= k < 65535 && Cyclic(first, k) == p
    ensures forall j, k | 0 <= j < k < 65535 :: Cyclic(first, j) != Cyclic(first, k)
  {
    var k := if first <= p then p - first else p - first + 65535;
    assert Cyclic(first, k) == p;
  }

  /** Everything a search looks at. `evictable` tells whether the firewall would let go of the
      client's own mapping of a port; a `strict` search (PCP's PREFER_FAILURE) only passes over
      permitted ports in use by the gateway itself. */
  datatype Search = Search(perms: seq<Perm>, table: seq<Mapping>, client: Addr, iport: Port, proto: Proto,
                           inUse: Port -> bool, evictable: Port -> bool, strict: bool)

  predicate Allowed(sc: Search, p: Port) {
    Permitted(sc.perms, p, sc.client, sc.iport)
  }

  /** The mapping belongs to this client and leads to this internal port. */
  predicate Own(sc: Search, m: Mapping) {
    m.iaddr == sc.client && m.iport == sc.iport
  }

  /** The port is mapped, and not in a way the client can take over. */
  predicate Taken(sc: Search, p: Port) {
    var found := Find(sc.table, p, sc.proto);
    found.Some? && !(Own(sc, found.value) && sc.evictable(p))
  }

  /** The client cannot have the port. */
  predicate Unavailable(sc: Search, p: Port) {
    !Allowed(sc, p) || sc.inUse(p) || Taken(sc, p)
  }

  /** The search passes over the port. */
  predicate Blocked(sc: Search, p: Port) {
    if sc.strict then Allowed(sc, p) && sc.inUse(p) else Unavailable(sc, p)
  }

  ghost predicate BlockedBefore(sc: Search, first: Port, i: nat)
    requires 1 <= first && i <= 65535
  {
    forall j | 0 <= j < i :: Blocked(sc, Cyclic(first, j))
  }

  /** "At least one port is allowed", as the search finds out on its way. */
  ghost predicate AllowedBefore(sc: Search, first: Port, i: nat)
    requires 1 <= first && i <= 65535
  {
    exists j | 0 <= j < i :: Allowed(sc, Cyclic(first, j))
  }

  lemma SearchStep(sc: Search, first: Port, i: nat)
    requires 1 <= first && i < 65535
    ensures BlockedBefore(sc, first, i + 1) <==> BlockedBefore(sc, first, i) && Blocked(sc, Cyclic(first, i))
    ensures AllowedBefore(sc, first, i + 1) <==> AllowedBefore(sc, first, i) || Allowed(sc, Cyclic(first, i))
  {}

  lemma SearchStart(sc: Search, first: Port)
    requires 1 <= first
    ensures BlockedBefore(sc, first, 0) && !AllowedBefore(sc, first, 0)
  {}

  /** `k` is where the search stops: 65535 if every port is blocked. */
  ghost predicate StopsAt(sc: Search, first: Port, k: nat)
    requires 1 <= first
  {
    k <= 65535 && BlockedBefore(sc, first, k) && (k < 65535 ==> !Blocked(sc, Cyclic(first, k)))
  }

  lemma {:induction false} StopExists(sc: Search, first: Port, from: nat)
    requires 1 <= first && from <= 65535 && BlockedBefore(sc, first, from)
    ensures exists k :: StopsAt(sc, first, k)
    decreases 65535 - from
  {
    if from == 65535 || !Blocked(sc, Cyclic(first, from)) {
      assert StopsAt(sc, first, from);
    } else {
      SearchStep(sc, first, from);
      StopExists(sc, first, from + 1);
    }
  }

  ghost function Stop(sc: Search, first: Port): (k: nat)
    requires 1 <= first
    ensures StopsAt(sc, first, k)
  {
    StopExists(sc, first, 0);
    var k :| StopsAt(sc, first, k);
    k
  }

  lemma StopUnique(sc: Search, first: Port, k: nat)
    requires 1 <= first && StopsAt(sc, first, k)
    ensures k == Stop(sc, first)
  {}

  /** Every port from `first` up to `p`, going on at 1 behind 65535. */
  predicate OnTheWay(first: Port, p: Port, q: Port) {
    1 <= q && if first <= p then first <= q < p else q < p || first <= q
  }

  /** What the search passes over are exactly the ports on the way. */
  lemma StopIsFirst(sc: Search, first: Port, k: nat)
    requires 1 <= first && k < 65535 && StopsAt(sc, first, k)
    ensures forall q: Port | OnTheWay(first, Cyclic(first, k), q) :: Blocked(sc, q)
  {
    forall q: Port | OnTheWay(first, Cyclic(first, k), q) ensures Blocked(sc, q) {
      var j := if first <= q then q - first else q - first + 65535;
      assert Cyclic(first, j) == q && j < k;
    }
  }

  ghost predicate SomeAllowed(sc: Search) {
    exists p: Port | 1 <= p :: Allowed(sc, p)
  }

  /** When the search comes round, what it found out on the way speaks about all ports. */
  lemma AllowedOnTheWay(sc: Search, first: Port)
    requires 1 <= first
    ensures AllowedBefore(sc, first, 65535) <==> SomeAllowed(sc)
  {
    if SomeAllowed(sc) {
      var p: Port :| 1 <= p && Allowed(sc, p);
      CyclicVisitsAll(first, p);
      var k :| 0 <= k < 65535 && Cyclic(first, k) == p;
      assert Allowed(sc, Cyclic(first, k));
    }
  }
}
