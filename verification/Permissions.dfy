/** upnppermissions.c: the first-match permission list and the 65536-bit array
    that stands in for it when many external ports are tried in a row. */
module Permissions {
  import opened Net

  datatype Verdict = Allow | Deny

  datatype Perm = Perm(verdict: Verdict, eportMin: Port, eportMax: Port,
                       address: Addr, mask: Addr, iportMin: Port, iportMax: Port)

  /** Does the rule speak about this client and internal port, whatever the external port? */
  predicate MatchesClient(perm: Perm, address: Addr, iport: Port) {
    perm.iportMin <= iport <= perm.iportMax && address & perm.mask == perm.address & perm.mask
  }

  /** match_permission() */
  predicate Matches(perm: Perm, eport: Port, address: Addr, iport: Port) {
    perm.eportMin <= eport <= perm.eportMax && MatchesClient(perm, address, iport)
  }

  /** The answer of the permission list: the first rule that matches decides, no match accepts. */
  predicate Permitted(perms: seq<Perm>, eport: Port, address: Addr, iport: Port) {
    perms != [] ==>
      if Matches(perms[0], eport, address, iport) then perms[0].verdict == Allow
      else Permitted(perms[1..], eport, address, iport)
  }

  /** `i` is the index of the rule that decides. */
  predicate Decides(perms: seq<Perm>, i: nat, eport: Port, address: Addr, iport: Port) {
    i < |perms| && Matches(perms[i], eport, address, iport)
    && forall k | 0 <= k < i :: !Matches(perms[k], eport, address, iport)
  }

  lemma {:induction false} FirstMatchDecides(perms: seq<Perm>, i: nat, eport: Port, address: Addr, iport: Port)
    requires Decides(perms, i, eport, address, iport)
    ensures Permitted(perms, eport, address, iport) <==> perms[i].verdict == Allow
  {
    if i > 0 {
      assert !Matches(perms[0], eport, address, iport);
      FirstMatchDecides(perms[1..], i - 1, eport, address, iport);
    }
  }

  lemma {:induction false} NoMatchAccepts(perms: seq<Perm>, eport: Port, address: Addr, iport: Port)
    requires forall k | 0 <= k < |perms| :: !Matches(perms[k], eport, address, iport)
    ensures Permitted(perms, eport, address, iport)
  {
    if perms != [] {
      NoMatchAccepts(perms[1..], eport, address, iport);
    }
  }

  /** check_upnp_rule_against_permissions() */
  method CheckRule(perms: seq<Perm>, eport: Port, address: Addr, iport: Port) returns (accepted: bool)
    ensures accepted == Permitted(perms, eport, address, iport)
  {
    for i := 0 to |perms|
      invariant forall k | 0 <= k < i :: !Matches(perms[k], eport, address, iport)
    {
      if Matches(perms[i], eport, address, iport) {
        FirstMatchDecides(perms, i, eport, address, iport);
        return perms[i].verdict == Allow;
      }
    }
    NoMatchAccepts(perms, eport, address, iport);
    return true;
  }

  /** The rules that miniupnpd.conf comes with. */
  const SAMPLE: seq<Perm> := [
    Perm(Allow, 1024, 65535, 0xc0a8_0000, 0xffff_ff00, 1024, 65535),
    Perm(Allow, 1024, 65535, 0xc0a8_0100, 0xffff_ff00, 1024, 65535),
    Perm(Allow, 1024, 65535, 0xc0a8_0000, 0xffff_fe00, 22, 22),
    Perm(Allow, 12345, 12345, 0xc0a8_0771, 0xffff_ffff, 54321, 54321),
    Perm(Deny, 0, 65535, 0, 0, 0, 65535)]

  /** The address belongs to the network. */
  predicate InNet(address: Addr, net: Addr, mask: Addr) {
    address & mask == net
  }

  lemma SampleNetwork(eport: Port, address: Addr, iport: Port)
    ensures Matches(SAMPLE[0], eport, address, iport) <==> eport >= 1024 && iport >= 1024 && InNet(address, 0xc0a8_0000, 0xffff_ff00)
  {}

  lemma SampleOtherNetwork(eport: Port, address: Addr, iport: Port)
    ensures Matches(SAMPLE[1], eport, address, iport) <==> eport >= 1024 && iport >= 1024 && InNet(address, 0xc0a8_0100, 0xffff_ff00)
  {}

  lemma SampleBothNetworks(eport: Port, address: Addr, iport: Port)
    ensures Matches(SAMPLE[2], eport, address, iport) <==> eport >= 1024 && iport == 22 && InNet(address, 0xc0a8_0000, 0xffff_fe00)
  {}

  lemma SampleRest(eport: Port, address: Addr, iport: Port)
    ensures Matches(SAMPLE[4], eport, address, iport)
  {}

  lemma SampleHost(eport: Port, address: Addr, iport: Port)
    ensures Matches(SAMPLE[3], eport, address, iport) <==> eport == 12345 && iport == 54321 && address == 0xc0a8_0771
  {}

  /** What they let through: ports from 1024 on to and from the networks 192.168.0.0/24 and 192.168.1.0/24,
      port 22 of the same networks, and port 12345 to 192.168.7.113:54321. */
  lemma SampleAccepts(eport: Port, address: Addr, iport: Port)
    ensures Permitted(SAMPLE, eport, address, iport) <==>
            || (eport >= 1024 && iport >= 1024
                && (InNet(address, 0xc0a8_0000, 0xffff_ff00) || InNet(address, 0xc0a8_0100, 0xffff_ff00)))
            || (eport >= 1024 && iport == 22 && InNet(address, 0xc0a8_0000, 0xffff_fe00))
            || (eport == 12345 && address == 0xc0a8_0771 && iport == 54321)
  {
    hide Permitted, Matches, InNet;
    SampleNetwork(eport, address, iport);
    SampleOtherNetwork(eport, address, iport);
    SampleBothNetworks(eport, address, iport);
    SampleRest(eport, address, iport);
    SampleHost(eport, address, iport);
    assert SAMPLE[0..] == SAMPLE;
    FirstRule(SAMPLE, 0, eport, address, iport);
    FirstRule(SAMPLE, 1, eport, address, iport);
    FirstRule(SAMPLE, 2, eport, address, iport);
    FirstRule(SAMPLE, 3, eport, address, iport);
    FirstRule(SAMPLE, 4, eport, address, iport);
  }

  lemma FirstRule(perms: seq<Perm>, i: nat, eport: Port, address: Addr, iport: Port)
    requires i < |perms|
    ensures Permitted(perms[i..], eport, address, iport)
         == if Matches(perms[i], eport, address, iport) then perms[i].verdict == Allow
            else Permitted(perms[i + 1..], eport, address, iport)
  {
    assert perms[i..][1..] == perms[i + 1..];
  }

  // ---- bits of a word ----

  function Mask(k: nat): bv32
    requires k < 32
  {
    1 << k
  }

  function Select(w: bv32, mask: bv32): bv32 { w & mask }

  function SetBits(w: bv32, mask: bv32): bv32 { w | mask }

  function ClearBits(w: bv32, mask: bv32): bv32 { w & !mask }

  predicate Bit(w: bv32, k: nat)
    requires k < 32
  {
    Select(w, Mask(k)) != 0
  }

  lemma MasksDisjoint(k: nat, m: nat)
    requires k < 32 && m < 32
    ensures k != m ==> Select(Mask(k), Mask(m)) == 0
    ensures Mask(k) != 0
  {}

  lemma SetElsewhere(w: bv32, a: bv32, b: bv32)
    requires Select(a, b) == 0
    ensures Select(SetBits(w, a), b) == Select(w, b)
  {}

  lemma ClearElsewhere(w: bv32, a: bv32, b: bv32)
    requires Select(a, b) == 0
    ensures Select(ClearBits(w, a), b) == Select(w, b)
  {}

  lemma SetHere(w: bv32, a: bv32)
    ensures Select(SetBits(w, a), a) == a
  {}

  lemma ClearHere(w: bv32, a: bv32)
    ensures Select(ClearBits(w, a), a) == 0
  {}

  /** The first port of a word is its lowest bit. */
  lemma LowestFirst()
    ensures Mask(0) == 1 && Mask(1) == 2 && Mask(31) == 0x8000_0000
  {}

  /** Setting or clearing one bit changes that bit and no other. */
  lemma BitWrite(w: bv32, k: nat, m: nat)
    requires k < 32 && m < 32
    ensures Bit(SetBits(w, Mask(k)), m) <==> m == k || Bit(w, m)
    ensures Bit(ClearBits(w, Mask(k)), m) <==> m != k && Bit(w, m)
  {
    hide Mask, Select, SetBits, ClearBits;
    MasksDisjoint(k, m);
    if k == m {
      SetHere(w, Mask(k));
      ClearHere(w, Mask(k));
    } else {
      SetElsewhere(w, Mask(k), Mask(m));
      ClearElsewhere(w, Mask(k), Mask(m));
    }
  }

  lemma UniformWord(m: nat)
    requires m < 32
    ensures Bit(0xffff_ffff, m) && !Bit(0, m)
  {
    MasksDisjoint(m, m);
  }

  // ---- the array of allowed ports ----

  const WORDS := 2048

  /** Bit `p` of the array, as AddAnyPortMapping reads it. */
  predicate PortBit(words: seq<bv32>, p: Port)
    requires |words| == WORDS
  {
    Bit(words[p / 32], p % 32)
  }

  /** After the ports [from, to) have been overwritten by `allow`. */
  ghost predicate Overwritten(was: seq<bv32>, now: seq<bv32>, from: int, to: int, allow: bool)
    requires |was| == |now| == WORDS
  {
    forall p: Port :: PortBit(now, p) == if from <= p < to then allow else PortBit(was, p)
  }

  method WriteWord(allowed: array<bv32>, j: nat, allow: bool)
    requires allowed.Length == WORDS && j % 32 == 0 && j + 32 <= 65536
    modifies allowed
    ensures Overwritten(old(allowed[..]), allowed[..], j, j + 32, allow)
  {
    allowed[j / 32] := if allow then 0xffff_ffff else 0;
    forall p: Port
      ensures PortBit(allowed[..], p) == if j <= p < j + 32 then allow else PortBit(old(allowed[..]), p)
    {
      UniformWord(p % 32);
    }
  }

  method WriteBit(allowed: array<bv32>, j: Port, allow: bool)
    requires allowed.Length == WORDS
    modifies allowed
    ensures Overwritten(old(allowed[..]), allowed[..], j, j + 1, allow)
  {
    hide Bit, Mask, SetBits, ClearBits;
    if allow {
      allowed[j / 32] := SetBits(allowed[j / 32], Mask(j % 32));
    } else {
      allowed[j / 32] := ClearBits(allowed[j / 32], Mask(j % 32));
    }
    forall p: Port
      ensures PortBit(allowed[..], p) == if p == j then allow else PortBit(old(allowed[..]), p)
    {
      BitWrite(old(allowed[j / 32]), j % 32, p % 32);
    }
  }

  /** The inner loops of get_permitted_ext_ports(): one rule's port range, whole words where they fit. */
  method WriteRange(allowed: array<bv32>, perm: Perm)
    requires allowed.Length == WORDS
    modifies allowed
    ensures Overwritten(old(allowed[..]), allowed[..], perm.eportMin, perm.eportMax + 1, perm.verdict == Allow)
  {
    var j: nat := perm.eportMin;
    while j <= perm.eportMax
      invariant perm.eportMin <= j && (j <= perm.eportMax + 1 || j == perm.eportMin)
      decreases 65536 - j
      invariant Overwritten(old(allowed[..]), allowed[..], perm.eportMin, j, perm.verdict == Allow)
    {
      if j % 32 == 0 && perm.eportMax >= j + 31 {
        WriteWord(allowed, j, perm.verdict == Allow);
        j := j + 32;
      } else {
        ghost var outer := j;
        WriteBit(allowed, j, perm.verdict == Allow);
        j := j + 1;
        while j % 32 != 0 && j <= perm.eportMax
          invariant perm.eportMin < j <= perm.eportMax + 1
          invariant outer < j
          decreases 65536 - j
          invariant Overwritten(old(allowed[..]), allowed[..], perm.eportMin, j, perm.verdict == Allow)
        {
          WriteBit(allowed, j, perm.verdict == Allow);
          j := j + 1;
        }
      }
    }
  }

  /** get_permitted_ext_ports(): the rules are applied last to first, each overwriting the
      ports of its range, and the array ends up as the first-match answer for every port. */
  method PermittedExtPorts(allowed: array<bv32>, perms: seq<Perm>, address: Addr, iport: Port)
    requires allowed.Length == WORDS
    modifies allowed
    ensures forall p: Port :: PortBit(allowed[..], p) <==> Permitted(perms, p, address, iport)
  {
    for w := 0 to WORDS
      invariant forall k | 0 <= k < w :: allowed[k] == 0xffff_ffff
    {
      allowed[w] := 0xffff_ffff;
    }
    forall p: Port ensures PortBit(allowed[..], p) {
      UniformWord(p % 32);
    }
    var i := |perms|;
    while i > 0
      invariant 0 <= i <= |perms|
      invariant forall p: Port :: PortBit(allowed[..], p) <==> Permitted(perms[i..], p, address, iport)
    {
      i := i - 1;
      assert perms[i..][1..] == perms[i + 1..];
      if address & perms[i].mask != perms[i].address & perms[i].mask {
        continue;
      }
      if iport < perms[i].iportMin || perms[i].iportMax < iport {
        continue;
      }
      WriteRange(allowed, perms[i]);
    }
    assert perms[0..] == perms;
  }
}
