/** natpmp.c, ProcessIncomingNATPMPPacket(): the packets of the protocol (RFC 6886, section 3), from the
    bytes of a request to the bytes of the response. */
module NatPmpWire {
  import opened Net
  import opened MappingTable
  import opened Backend
  import opened Redirect
  import MappingRuns
  import opened NatPmp

  // ---- numbers in network order ----

  function Read16(s: seq<Byte>, i: nat): Port
    requires i + 2 <= |s|
  {
    s[i] as int * 256 + s[i + 1]
  }

  function Read32(s: seq<Byte>, i: nat): U32
    requires i + 4 <= |s|
  {
    Read16(s, i) as int * 0x1_0000 + Read16(s, i + 2)
  }

  function Write16(n: Port): (s: seq<Byte>)
    ensures |s| == 2 && Read16(s, 0) == n
  {
    [n / 256, n % 256]
  }

  function Write32(n: U32): (s: seq<Byte>)
    ensures |s| == 4 && Read32(s, 0) == n
  {
    Write16(n / 0x1_0000) + Write16(n % 0x1_0000)
  }

  // ---- requests ----

  const UNSUPPORTED_VERSION := 1
  const UNSUPPORTED_OPCODE := 5

  /** A mapping request as section 3.3 of RFC 6886 lays it out: version, opcode, two reserved bytes, internal
      port, suggested external port, lifetime. */
  function WriteRequest(opcode: Byte, iport: Port, eport: Port, lifetime: U32): (req: seq<Byte>)
    ensures |req| == 12
  {
    [0, opcode, 0, 0] + Write16(iport) + Write16(eport) + Write32(lifetime)
  }

  function RequestOf(client: Addr, req: seq<Byte>): MapRequest
    requires |req| >= 12
  {
    MapRequest(client, req[1] != 1, Read16(req, 4), Read16(req, 6), Read32(req, 8))
  }

  /** A request written by the standard is read as it was meant; opcode 1 asks for UDP (17), 2 for TCP (6). */
  lemma RequestReadsBack(client: Addr, opcode: Byte, iport: Port, eport: Port, lifetime: U32)
    requires opcode == 1 || opcode == 2
    ensures var rq := RequestOf(client, WriteRequest(opcode, iport, eport, lifetime));
            && (rq.client, rq.iport, rq.eport, rq.lifetime) == (client, iport, eport, lifetime)
            && ProtoOf(rq) == if opcode == 1 then 17 else 6
  {
    var req, w := WriteRequest(opcode, iport, eport, lifetime), Write32(lifetime);
    assert req[4..6] == Write16(iport) && req[6..8] == Write16(eport) && req[8..12] == w;
    assert req[8] == w[0] && req[9] == w[1] && req[10] == w[2] && req[11] == w[3];
  }

  // ---- what becomes of a packet ----

  /** What the world answers: the time since the start, the external address if there is one, the clock,
      port_in_use() and the kernel. */
  datatype World = World(elapsed: U32, address: Option<U32>, now: U32, inUse: Port -> bool, k: Kernel,
                         deletable: (Port, Proto) -> bool)

  /** Too short, or a response. */
  predicate Discarded(req: seq<Byte>) {
    |req| < 2 || ((req[1] == 1 || req[1] == 2) && |req| < 12) || req[1] >= 128
  }

  function Header(opcode: Byte, code: Byte, elapsed: U32): seq<Byte>
    requires opcode < 128
  {
    [0, 128 + opcode, 0, code] + Write32(elapsed)
  }

  /** The table and the response after a mapping request. */
  ghost function Requested(cfg: Config, s: State, rq: MapRequest, w: World): (State, Response) {
    if rq.lifetime > 0 then Map(cfg, s, rq, w.now, w.inUse, w.k)
    else
      var after := Unmap(s.table, rq, w.deletable);
      (s.(table := after.0), Response(if after.1 then NOT_AUTHORIZED else SUCCESS, 0, 0))
  }

  ghost function MapResponse(rq: MapRequest, opcode: Byte, resp: Response, elapsed: U32): seq<Byte>
    requires opcode < 128 && resp.result < 256
  {
    Header(opcode, resp.result, elapsed) + Write16(rq.iport) + Write16(resp.eport) + Write32(resp.lifetime)
  }

  lemma ResultFits(cfg: Config, s: State, rq: MapRequest, w: World)
    ensures Requested(cfg, s, rq, w).1.result <= 4
  {}

  /** All that a packet does. */
  ghost function Processed(cfg: Config, s: State, client: Addr, req: seq<Byte>, w: World): (State, Option<seq<Byte>>) {
    if Discarded(req) then (s, None)
    else if req[0] > 0 then (s, Some(Header(req[1], UNSUPPORTED_VERSION, w.elapsed)))
    else if req[1] == 0 then
      (s, Some(Header(0, if w.address.Some? then SUCCESS else NETWORK_FAILURE, w.elapsed)
               + Write32(if w.address.Some? then w.address.value else 0)))
    else if req[1] <= 2 then
      var rq := RequestOf(client, req);
      var out := Requested(cfg, s, rq, w);
      ResultFits(cfg, s, rq, w);
      (out.0, Some(MapResponse(rq, req[1], out.1, w.elapsed)))
    else (s, Some(Header(req[1], UNSUPPORTED_OPCODE, w.elapsed)))
  }

  // ---- the code ----

  method WriteNu16(p: array<Byte>, i: nat, n: Port)
    requires i + 2 <= p.Length
    modifies p
    ensures p[..] == old(p[..i]) + Write16(n) + old(p[i + 2..])
  {
    p[i] := n / 256;
    p[i + 1] := n % 256;
  }

  method WriteNu32(p: array<Byte>, i: nat, n: U32)
    requires i + 4 <= p.Length
    modifies p
    ensures p[..] == old(p[..i]) + Write32(n) + old(p[i + 4..])
  {
    var hi, lo := n / 0x1_0000, n % 0x1_0000;
    p[i] := hi / 256;
    p[i + 1] := hi % 256;
    p[i + 2] := lo / 256;
    p[i + 3] := lo % 256;
  }

  /** ProcessIncomingNATPMPPacket(): the bytes sent back, or nothing. */
  method ProcessPacket(rd: Redirector, client: Addr, req: seq<Byte>, w: World) returns (sent: Option<seq<Byte>>)
    requires rd.Valid()
    modifies rd, rd.backend
    ensures rd.Valid()
    ensures (rd.S(), sent) == Processed(rd.cfg, old(rd.S()), client, req, w)
  {
    hide IpfwBackend.Valid, IpfwBackend.Table, Map, Unmap, Redirector.Valid, Header, MapResponse, Write16, Write32, RequestOf, Requested;
    if |req| < 2 || ((req[1] == 1 || req[1] == 2) && |req| < 12) {
      return None;
    }
    if req[1] >= 128 {
      return None;
    }
    var resp := NewResponse(req[1], w.elapsed);
    var resplen := 8;
    if req[0] > 0 {
      SetResult(resp, req[1], UNSUPPORTED_VERSION, w.elapsed);
    } else if req[1] == 0 {
      FillPublicAddress(resp, w.address, w.elapsed);
      resplen := 12;
    } else if req[1] <= 2 {
      var rq := RequestOf(client, req);
      ResultFits(rd.cfg, rd.S(), rq, w);
      var out := ProcessMapping(rd, rq, w);
      SetResult(resp, req[1], out.result, w.elapsed);
      FillMapping(resp, rq, req[1], out, w.elapsed);
      resplen := 16;
    } else {
      SetResult(resp, req[1], UNSUPPORTED_OPCODE, w.elapsed);
    }
    return Some(resp[..resplen]);
  }

  method NewResponse(opcode: Byte, elapsed: U32) returns (resp: array<Byte>)
    requires opcode < 128
    ensures fresh(resp) && resp.Length == 32
    ensures resp[..8] == Header(opcode, 0, elapsed) && resp[8..12] == [0, 0, 0, 0]
  {
    resp := new Byte[32](_ => 0);
    resp[1] := 128 + opcode;
    assert resp[..4] == [0, 128 + opcode, 0, 0] && resp[8..12] == [0, 0, 0, 0];
    WriteNu32(resp, 4, elapsed);
    assert resp[..8] == resp[..4] + Write32(elapsed);
  }

  /** resp[3] = code */
  method SetResult(resp: array<Byte>, opcode: Byte, code: Byte, elapsed: U32)
    requires resp.Length == 32 && opcode < 128 && resp[..8] == Header(opcode, 0, elapsed)
    modifies resp
    ensures resp[..8] == Header(opcode, code, elapsed) && resp[8..] == old(resp[8..])
  {
    hide Write32;
    resp[3] := code;
    assert Header(opcode, code, elapsed) == Header(opcode, 0, elapsed)[3 := code];
  }

  method FillMapping(resp: array<Byte>, rq: MapRequest, opcode: Byte, out: Response, elapsed: U32)
    requires resp.Length == 32 && opcode < 128 && out.result < 256 && resp[..8] == Header(opcode, out.result, elapsed)
    modifies resp
    ensures resp[..16] == MapResponse(rq, opcode, out, elapsed)
  {
    hide Write16, Write32, Header;
    WriteNu16(resp, 8, rq.iport);
    assert resp[..10] == Header(opcode, out.result, elapsed) + Write16(rq.iport);
    WriteNu16(resp, 10, out.eport);
    assert resp[..12] == Header(opcode, out.result, elapsed) + Write16(rq.iport) + Write16(out.eport);
    WriteNu32(resp, 12, out.lifetime);
  }

  /** FillPublicAddressResponse() */
  method FillPublicAddress(resp: array<Byte>, address: Option<U32>, elapsed: U32)
    requires resp.Length == 32 && resp[..8] == Header(0, 0, elapsed) && resp[8..12] == [0, 0, 0, 0]
    modifies resp
    ensures resp[..12] == Header(0, if address.Some? then SUCCESS else NETWORK_FAILURE, elapsed)
                          + Write32(if address.Some? then address.value else 0)
  {
    hide Header;
    if address.Some? {
      WriteNu32(resp, 8, address.value);
      assert resp[..12] == Header(0, SUCCESS, elapsed) + Write32(address.value);
    } else {
      SetResult(resp, 0, NETWORK_FAILURE, elapsed);
      assert Write32(0) == [0, 0, 0, 0];
      assert resp[..12] == resp[..8] + resp[8..][..4];
    }
  }

  method ProcessMapping(rd: Redirector, rq: MapRequest, w: World) returns (out: Response)
    requires rd.Valid()
    modifies rd, rd.backend
    ensures rd.Valid()
    ensures (rd.S(), out) == Requested(rd.cfg, old(rd.S()), rq, w)
  {
    hide IpfwBackend.Valid, IpfwBackend.Table, Map, Unmap, Redirector.Valid;
    if rq.lifetime == 0 {
      out := RemoveMappings(rd, rq, w.deletable);
    } else {
      out := CreateMapping(rd, rq, w.now, w.inUse, w.k);
    }
  }

  // ---- mapping and unmapping ----

  /** What a response to a mapping request says, as section 3.3 of RFC 6886 lays it out. */
  predicate Says(sent: Option<seq<Byte>>, opcode: Byte, code: nat, iport: Port, eport: Port, lifetime: U32) {
    sent.Some? && |sent.value| == 16 && sent.value[0] == 0 && sent.value[1] as int == 128 + opcode as int
    && sent.value[2] == 0 && sent.value[3] == code
    && Read16(sent.value, 8) == iport && Read16(sent.value, 10) == eport && Read32(sent.value, 12) == lifetime
  }

  lemma MapResponseSays(rq: MapRequest, opcode: Byte, resp: Response, elapsed: U32)
    requires opcode < 128 && resp.result < 256
    ensures Says(Some(MapResponse(rq, opcode, resp, elapsed)), opcode, resp.result, rq.iport, resp.eport, resp.lifetime)
  {
    var s, a, b, c := MapResponse(rq, opcode, resp, elapsed), Write16(rq.iport), Write16(resp.eport), Write32(resp.lifetime);
    assert s == [0, 128 + opcode, 0, resp.result] + Write32(elapsed) + a + b + c;
    hide MapResponse, Write32, Write16;
    assert s[8] == a[0] && s[9] == a[1] && s[10] == b[0] && s[11] == b[1];
    assert s[12] == c[0] && s[13] == c[1] && s[14] == c[2] && s[15] == c[3];
  }

  lemma HeaderSays(opcode: Byte, code: Byte, elapsed: U32, more: seq<Byte>)
    requires opcode < 128
    ensures var r := Header(opcode, code, elapsed) + more;
            && |r| == 8 + |more| && r[0] == 0 && r[1] as int == 128 + opcode as int && r[2] == 0 && r[3] == code
            && Read32(r, 4) == elapsed
  {
    var w := Write32(elapsed);
    var r := [0, 128 + opcode, 0, code] + w + more;
    assert r[4] == w[0] && r[5] == w[1] && r[6] == w[2] && r[7] == w[3];
  }

  lemma AddressSays(code: Byte, elapsed: U32, address: U32)
    ensures var r := Header(0, code, elapsed) + Write32(address); |r| == 12 && Read32(r, 8) == address
  {
    var w := Write32(address);
    HeaderSays(0, code, elapsed, w);
    var r := Header(0, code, elapsed) + w;
    assert r[8] == w[0] && r[9] == w[1] && r[10] == w[2] && r[11] == w[3];
  }

  /** Which packets are answered, and how all those are that ask for no mapping: another version than 0 with
      code 1, the address request with the address or with code 3, and other opcodes with code 5; each response
      repeats the opcode, with its top bit set, and tells the time since the start. Nothing else changes. */
  lemma OthersAnswered(cfg: Config, s: State, client: Addr, req: seq<Byte>, w: World)
    ensures var (after, sent) := Processed(cfg, s, client, req, w);
            && (sent.None? <==> |req| < 2 || (1 <= req[1] <= 2 && |req| < 12) || req[1] >= 128)
            && (sent.Some? ==> var r := sent.value;
                |r| >= 8 && r[0] == 0 && r[1] as int == 128 + req[1] as int && r[2] == 0 && Read32(r, 4) == w.elapsed
                && (req[0] != 0 ==> |r| == 8 && r[3] == 1)
                && (req[0] == 0 && req[1] == 0 ==>
                    |r| == 12 && r[3] == (if w.address.Some? then 0 else 3)
                    && Read32(r, 8) == if w.address.Some? then w.address.value else 0)
                && (req[0] == 0 && req[1] > 2 ==> |r| == 8 && r[3] == 5))
            && (sent.None? || req[0] != 0 || req[1] == 0 || req[1] > 2 ==> after == s)
  {
    if !Discarded(req) {
      var op := req[1];
      if req[0] > 0 {
        HeaderSays(op, 1, w.elapsed, []);
        assert Header(op, 1, w.elapsed) + [] == Header(op, 1, w.elapsed);
      } else if op == 0 {
        var code: Byte, address := if w.address.Some? then 0 else 3, if w.address.Some? then w.address.value else 0;
        HeaderSays(0, code, w.elapsed, Write32(address));
        AddressSays(code, w.elapsed, address);
      } else if op <= 2 {
        var rq := RequestOf(client, req);
        var out := Requested(cfg, s, rq, w).1;
        ResultFits(cfg, s, rq, w);
        var more := Write16(rq.iport) + Write16(out.eport) + Write32(out.lifetime);
        HeaderSays(op, out.result, w.elapsed, more);
        hide Header, Write16, Write32, Requested;
        assert MapResponse(rq, op, out, w.elapsed) == Header(op, out.result, w.elapsed) + more;
      } else {
        HeaderSays(op, 5, w.elapsed, []);
        assert Header(op, 5, w.elapsed) + [] == Header(op, 5, w.elapsed);
      }
    }
  }

  /** The description of a mapping is not cut, and names its port and protocol. */
  lemma DescriptionTexts()
    ensures Description(8080, true) == "NAT-PMP 8080 tcp" && Description(53, false) == "NAT-PMP 53 udp"
  {
    assert Decimal(8) == "8" && Decimal(80) == "80" && Decimal(808) == "808" && Decimal(8080) == "8080";
    assert Decimal(5) == "5" && Decimal(53) == "53";
  }

  lemma DescriptionIsMarked(eport: Port, tcp: bool)
    ensures "NAT-PMP" <= Description(eport, tcp)
  {
    var text := "NAT-PMP " + Decimal(eport) + " " + (if tcp then "tcp" else "udp");
    assert text[..7] == "NAT-PMP";
    CutPrefix(text);
  }

  /** What a granted request leaves in the table under the port it is answered with. */
  lemma GrantIsStored(cfg: Config, s: State, client: Addr, opcode: Byte, iport: Port, eport: Port, lifetime: U32, w: World)
    requires opcode == 1 || opcode == 2
    requires lifetime > 0
    requires var sent := Processed(cfg, s, client, WriteRequest(opcode, iport, eport, lifetime), w).1;
             sent.Some? && |sent.value| == 16 && sent.value[3] == 0
    ensures var (after, sent) := Processed(cfg, s, client, WriteRequest(opcode, iport, eport, lifetime), w);
            var p, proto := Read16(sent.value, 10), if opcode == 1 then 17 else 6;
            var found := Find(after.table, p, proto);
            && Says(sent, opcode, 0, iport, p, lifetime)
            && (w.k.deleted || !HasKey(s.table, p, proto) ==>
                found.Some? && found.value.iaddr == client && found.value.iport == iport && found.value.src == 0
                && "NAT-PMP" <= found.value.desc)
  {
    hide Header, Map, WriteRequest, RequestOf, Description;
    RequestReadsBack(client, opcode, iport, eport, lifetime);
    var req := WriteRequest(opcode, iport, eport, lifetime);
    RequestBytes(opcode, iport, eport, lifetime);
    var rq := RequestOf(client, req);
    var out := Map(cfg, s, rq, w.now, w.inUse, w.k);
    ResultFits(cfg, s, rq, w);
    MapResponseSays(rq, opcode, out.1, w.elapsed);
    MapEchoes(cfg, s, rq, w);
    SuccessGrants(cfg, s, rq, w.now, w.inUse, w.k);
    DescriptionIsMarked(out.1.eport, rq.tcp);
  }

  lemma RequestBytes(opcode: Byte, iport: Port, eport: Port, lifetime: U32)
    ensures var req := WriteRequest(opcode, iport, eport, lifetime); req[0] == 0 && req[1] == opcode
  {}

  lemma MapEchoes(cfg: Config, s: State, rq: MapRequest, w: World)
    requires rq.lifetime > 0
    ensures Map(cfg, s, rq, w.now, w.inUse, w.k).1.lifetime == rq.lifetime
  {}

  /** A client that was granted a port and then asks for the mapping to be removed, by its protocol and
      internal port or by internal port 0, gets it removed, and mappings of others stay, in their order. */
  lemma MapThenUnmap(cfg: Config, s: State, client: Addr, opcode: Byte, iport: Port, eport: Port, lifetime: U32, w: World,
                     opcode': Byte, iport': Port, eport': Port, w': World)
    requires MappingRuns.Sound(cfg, s.table) && (opcode == 1 || opcode == 2) && (opcode' == 1 || opcode' == 2)
    requires lifetime > 0 && (iport' == 0 || (iport' == iport && opcode' == opcode))
    requires var sent := Processed(cfg, s, client, WriteRequest(opcode, iport, eport, lifetime), w).1;
             sent.Some? && |sent.value| == 16 && sent.value[3] == 0
             && (w.k.deleted || !HasKey(s.table, Read16(sent.value, 10), if opcode == 1 then 17 else 6))
    requires forall e: Port, p: Proto :: w'.deletable(e, p)
    ensures var (s1, sent) := Processed(cfg, s, client, WriteRequest(opcode, iport, eport, lifetime), w);
            var (s2, sent') := Processed(cfg, s1, client, WriteRequest(opcode', iport', eport', 0), w');
            var p, proto := Read16(sent.value, 10), if opcode == 1 then 17 else 6;
            && Find(s1.table, p, proto).Some? && Find(s2.table, p, proto) == None
            && Says(sent', opcode', 0, iport', 0, 0)
            && Others(s2.table, client) == Others(s1.table, client)
  {
    hide Header, Map, Unmap, WriteRequest, RequestOf, Says, MappingRuns.Sound, Others;
    GrantIsStored(cfg, s, client, opcode, iport, eport, lifetime, w);
    RequestReadsBack(client, opcode, iport, eport, lifetime);
    RequestReadsBack(client, opcode', iport', eport', 0);
    RequestBytes(opcode, iport, eport, lifetime);
    RequestBytes(opcode', iport', eport', 0);
    var (s1, sent) := Processed(cfg, s, client, WriteRequest(opcode, iport, eport, lifetime), w);
    var rq := RequestOf(client, WriteRequest(opcode, iport, eport, lifetime));
    MappingRuns.NatPmpMapKeeps(cfg, s, rq, w.now, w.inUse, w.k);
    var rq' := RequestOf(client, WriteRequest(opcode', iport', eport', 0));
    ResultFits(cfg, s1, rq', w');
    MapResponseSays(rq', opcode', Requested(cfg, s1, rq', w').1, w'.elapsed);
    UnmapTakes(cfg, s1.table, rq', w'.deletable, Read16(sent.value, 10), if opcode == 1 then 17 else 6);
  }

  /** The mappings of all other clients, in order. */
  function Others(t: seq<Mapping>, client: Addr): seq<Mapping> {
    if t == [] then [] else (if t[0].iaddr == client then [] else [t[0]]) + Others(t[1..], client)
  }

  lemma UnmapTakes(cfg: Config, t: seq<Mapping>, rq: MapRequest, deletable: (Port, Proto) -> bool, p: Port, proto: Proto)
    requires MappingRuns.Sound(cfg, t) && (forall e: Port, q: Proto :: deletable(e, q))
    requires var found := Find(t, p, proto);
             found.Some? && found.value.iaddr == rq.client && "NAT-PMP" <= found.value.desc
             && (rq.iport == 0 || (rq.iport == found.value.iport && proto == ProtoOf(rq)))
    ensures !Unmap(t, rq, deletable).1 && Find(Unmap(t, rq, deletable).0, p, proto) == None
    ensures Others(Unmap(t, rq, deletable).0, rq.client) == Others(t, rq.client)
  {
    hide Others;
    var sel, after := NatPmpOf(rq.client, rq.iport, ProtoOf(rq)), Unmap(t, rq, deletable).0;
    UnmapRemovesNamed(t, rq, deletable);
    DropMembers(t, sel);
    OthersStay(t, rq, deletable);
    forall i | 0 <= i < |after| ensures !At(after[i], p, proto) {
      assert after[i] in after;
      if At(after[i], p, proto) {
        MappingRuns.SameKeySameMapping(t, Find(t, p, proto).value, after[i]);
      }
    }
  }

  lemma {:induction false} OthersStay(t: seq<Mapping>, rq: MapRequest, deletable: (Port, Proto) -> bool)
    ensures Others(Unmap(t, rq, deletable).0, rq.client) == Others(t, rq.client)
  {
    if t != [] {
      OthersStay(t[1..], rq, deletable);
    }
  }
}
