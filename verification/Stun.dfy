/** upnpstun.c, parse_stun_response(): the attributes of a STUN response are decoded in place. */
module Stun {
  import opened Net

  type Byte = bv8

  /** The mapped address in network order: two bytes of port and four of address. */
  datatype Mapped = Mapped(p0: Byte, p1: Byte, a0: Byte, a1: Byte, a2: Byte, a3: Byte)

  /** An attribute as it lies in the datagram: its type, where its value begins, and its length. */
  datatype Att = Att(kind: nat, at: nat, len: nat)

  const MAPPED_ADDRESS := 0x0001
  const XOR_MAPPED_ADDRESS := 0x0020
  const XOR_MAPPED_ADDRESS_2005 := 0x8020

  function Xor(x: Byte, y: Byte): Byte { x ^ y }

  function Be16(hi: Byte, lo: Byte): (n: nat)
    ensures n < 65536
  {
    hi as nat * 256 + lo as nat
  }

  /** The datagram is a binding response and as long as it says. */
  predicate GoodHeader(buf: seq<Byte>) {
    |buf| >= 20 && buf[0] == 0x01 && (buf[1] & 0xEF) == 0x01 && Be16(buf[2], buf[3]) + 20 <= |buf|
  }

  /** The attributes from `p` on, up to the first truncated one. */
  function Atts(buf: seq<Byte>, p: nat): (atts: seq<Att>)
    ensures forall a | a in atts :: p + 4 <= a.at && a.at + a.len <= |buf|
    decreases |buf| - p
  {
    if p + 4 > |buf| then []
    else
      var a := Att(Be16(buf[p], buf[p + 1]), p + 4, Be16(buf[p + 2], buf[p + 3]));
      if a.at + a.len > |buf| then [] else [a] + Atts(buf, a.at + a.len)
  }

  predicate Fits(buf: seq<Byte>, a: Att) {
    24 <= a.at && a.at + a.len <= |buf|
  }

  /** An IPv4 address of one of the three kinds that carry the mapped address. */
  predicate IsXor(buf: seq<Byte>, a: Att)
    requires Fits(buf, a)
  {
    (a.kind == XOR_MAPPED_ADDRESS || a.kind == XOR_MAPPED_ADDRESS_2005) && a.len == 8 && buf[a.at + 1] == 1
  }

  predicate IsPlain(buf: seq<Byte>, a: Att)
    requires Fits(buf, a)
  {
    a.kind == MAPPED_ADDRESS && a.len == 8 && buf[a.at + 1] == 1
  }

  function PlainAddress(buf: seq<Byte>, a: Att): Mapped
    requires Fits(buf, a) && a.len == 8
  {
    Mapped(buf[a.at + 2], buf[a.at + 3], buf[a.at + 4], buf[a.at + 5], buf[a.at + 6], buf[a.at + 7])
  }

  /** Port and address, freed of the magic cookie in bytes 4 to 7. */
  function XorAddress(buf: seq<Byte>, a: Att): Mapped
    requires Fits(buf, a) && a.len == 8
  {
    Mapped(Xor(buf[a.at + 2], buf[4]), Xor(buf[a.at + 3], buf[5]),
           Xor(buf[a.at + 4], buf[4]), Xor(buf[a.at + 5], buf[5]), Xor(buf[a.at + 6], buf[6]), Xor(buf[a.at + 7], buf[7]))
  }

  ghost predicate AllFit(buf: seq<Byte>, atts: seq<Att>) {
    forall a | a in atts :: Fits(buf, a)
  }

  function FirstXor(buf: seq<Byte>, atts: seq<Att>): (r: Option<Att>)
    requires AllFit(buf, atts)
    ensures r.Some? ==> r.value in atts && IsXor(buf, r.value)
  {
    if atts == [] then None else if IsXor(buf, atts[0]) then Some(atts[0]) else FirstXor(buf, atts[1..])
  }

  function LastPlain(buf: seq<Byte>, atts: seq<Att>): (r: Option<Att>)
    requires AllFit(buf, atts)
    ensures r.Some? ==> r.value in atts && IsPlain(buf, r.value)
  {
    if atts == [] then None
    else
      var n := |atts| - 1;
      if IsPlain(buf, atts[n]) then Some(atts[n]) else LastPlain(buf, atts[..n])
  }

  /** The mapped address of a list of attributes: the first IPv4 XOR-MAPPED-ADDRESS, else the last
      MAPPED-ADDRESS. */
  function Choose(buf: seq<Byte>, atts: seq<Att>): Option<Mapped>
    requires AllFit(buf, atts)
  {
    var xor, plain := FirstXor(buf, atts), LastPlain(buf, atts);
    if xor.Some? then Some(XorAddress(buf, xor.value))
    else if plain.Some? then Some(PlainAddress(buf, plain.value))
    else None
  }

  /** What a response says, read off the bytes as they arrived. */
  function Parse(buf: seq<Byte>): Option<Mapped> {
    if GoodHeader(buf) then Choose(buf, Atts(buf, 20)) else None
  }

  lemma {:induction false} FirstXorAppend(buf: seq<Byte>, atts: seq<Att>, a: Att)
    requires AllFit(buf, atts + [a]) && AllFit(buf, atts) && Fits(buf, a)
    ensures FirstXor(buf, atts + [a])
         == if FirstXor(buf, atts).Some? then FirstXor(buf, atts) else if IsXor(buf, a) then Some(a) else None
  {
    if atts == [] {
      assert atts + [a] == [a];
    } else {
      assert (atts + [a])[1..] == atts[1..] + [a];
      assert (atts + [a])[0] == atts[0];
      FirstXorAppend(buf, atts[1..], a);
    }
  }

  lemma LastPlainAppend(buf: seq<Byte>, atts: seq<Att>, a: Att)
    requires AllFit(buf, atts + [a]) && AllFit(buf, atts) && Fits(buf, a)
    ensures LastPlain(buf, atts + [a]) == if IsPlain(buf, a) then Some(a) else LastPlain(buf, atts)
  {
    assert (atts + [a])[..|atts|] == atts;
  }

  /** How one more attribute changes the choice. */
  lemma ChooseAppend(buf: seq<Byte>, atts: seq<Att>, a: Att)
    requires AllFit(buf, atts) && Fits(buf, a)
    ensures AllFit(buf, atts + [a])
    ensures FirstXor(buf, atts + [a]).Some? <==> FirstXor(buf, atts).Some? || IsXor(buf, a)
    ensures Choose(buf, atts + [a])
         == if FirstXor(buf, atts).Some? then Choose(buf, atts)
            else if IsXor(buf, a) then Some(XorAddress(buf, a))
            else if IsPlain(buf, a) then Some(PlainAddress(buf, a))
            else Choose(buf, atts)
  {
    FirstXorAppend(buf, atts, a);
    LastPlainAppend(buf, atts, a);
  }

  // ---- the datagram after decoding ----

  function Unxor(buf: seq<Byte>, at: nat): (r: seq<Byte>)
    requires 24 <= at && at + 8 <= |buf|
    ensures |r| == |buf|
    ensures forall k | 0 <= k < |buf| && !(at + 2 <= k < at + 8) :: r[k] == buf[k]
  {
    buf[..at + 2] + [Xor(buf[at + 2], buf[4]), Xor(buf[at + 3], buf[5]), Xor(buf[at + 4], buf[4]),
                     Xor(buf[at + 5], buf[5]), Xor(buf[at + 6], buf[6]), Xor(buf[at + 7], buf[7])] + buf[at + 8..]
  }

  /** The datagram with the IPv4 XOR-MAPPED-ADDRESS attributes among `atts` restored. */
  function Restored(buf: seq<Byte>, atts: seq<Att>): (r: seq<Byte>)
    requires AllFit(buf, atts)
    ensures |r| == |buf|
  {
    if atts == [] then buf
    else
      var n := |atts| - 1;
      var r := Restored(buf, atts[..n]);
      if IsXor(buf, atts[n]) then Unxor(r, atts[n].at) else r
  }

  /** Only bytes inside the attributes change. */
  lemma {:induction false} RestoredKeeps(buf: seq<Byte>, atts: seq<Att>, k: nat)
    requires AllFit(buf, atts) && k < |buf|
    requires forall a | a in atts :: !(a.at <= k < a.at + a.len)
    ensures Restored(buf, atts)[k] == buf[k]
  {
    if atts != [] {
      var n := |atts| - 1;
      assert atts[n] in atts;
      RestoredKeeps(buf, atts[..n], k);
    }
  }

  /** parse_stun_response() */
  method ParseStunResponse(buffer: array<Byte>) returns (mapped: Option<Mapped>)
    modifies buffer
    ensures mapped == Parse(old(buffer[..]))
    ensures buffer[..] == if GoodHeader(old(buffer[..])) then Restored(old(buffer[..]), Atts(old(buffer[..]), 20))
                          else old(buffer[..])
  {
    if buffer.Length < 20 {
      return None;
    }
    if buffer[0] != 0x01 || (buffer[1] & 0xEF) != 0x01 {
      return None;
    }
    if Be16(buffer[2], buffer[3]) + 20 > buffer.Length {
      return None;
    }
    mapped := ParseAttributes(buffer);
  }

  /** The attribute loop. */
  method ParseAttributes(buffer: array<Byte>) returns (mapped: Option<Mapped>)
    requires buffer.Length >= 20
    modifies buffer
    ensures mapped == Choose(old(buffer[..]), Atts(old(buffer[..]), 20))
    ensures buffer[..] == Restored(old(buffer[..]), Atts(old(buffer[..]), 20))
  {
    hide Choose, FirstXor, LastPlain, Restored, Be16, Unxor, Xor, Atts;
    ghost var buf := buffer[..];
    mapped := None;
    var haveXor := false;
    var ptr := 20;
    ghost var done: seq<Att> := [];
    NothingYet(buf);
    assert [] + Atts(buf, 20) == Atts(buf, 20);
    while ptr + 4 <= buffer.Length
      invariant 20 <= ptr <= buffer.Length == |buf|
      invariant Atts(buf, 20) == done + Atts(buf, ptr)
      invariant forall a | a in done :: Fits(buf, a) && a.at + a.len <= ptr
      invariant buffer[..] == Restored(buf, done)
      invariant haveXor <==> FirstXor(buf, done).Some?
      invariant mapped == Choose(buf, done)
      decreases buffer.Length - ptr
    {
      Untouched(buf, done, ptr);
      AttsStep(buf, ptr);
      var kind, len := Be16(buffer[ptr], buffer[ptr + 1]), Be16(buffer[ptr + 2], buffer[ptr + 3]);
      ptr := ptr + 4;
      if ptr + len > buffer.Length {
        assert done + [] == done;
        return;
      }
      ghost var a := Att(kind, ptr, len);
      assert done + ([a] + Atts(buf, ptr + len)) == (done + [a]) + Atts(buf, ptr + len);
      mapped, haveXor := DecodeAttribute(buffer, buf, done, Att(kind, ptr, len), mapped, haveXor);
      done := done + [a];
      ptr := ptr + len;
    }
    AttsStep(buf, ptr);
    assert done + [] == done;
  }

  lemma AttsStep(buf: seq<Byte>, p: nat)
    ensures p + 4 > |buf| ==> Atts(buf, p) == []
    ensures p + 4 <= |buf| ==>
              var a := Att(Be16(buf[p], buf[p + 1]), p + 4, Be16(buf[p + 2], buf[p + 3]));
              Atts(buf, p) == if a.at + a.len > |buf| then [] else [a] + Atts(buf, a.at + a.len)
  {}

  /** The switch over the type of one attribute. */
  method DecodeAttribute(buffer: array<Byte>, ghost buf: seq<Byte>, ghost done: seq<Att>, a: Att,
                         mapped0: Option<Mapped>, haveXor0: bool)
    returns (mapped: Option<Mapped>, haveXor: bool)
    requires buffer.Length == |buf| && Fits(buf, a)
    requires forall x | x in done :: Fits(buf, x) && x.at + x.len <= a.at
    requires buffer[..] == Restored(buf, done)
    requires mapped0 == Choose(buf, done) && (haveXor0 <==> FirstXor(buf, done).Some?)
    modifies buffer
    ensures AllFit(buf, done + [a]) && buffer[..] == Restored(buf, done + [a])
    ensures mapped == Choose(buf, done + [a]) && (haveXor <==> FirstXor(buf, done + [a]).Some?)
  {
    hide Choose, FirstXor, LastPlain, Restored, Unxor, Xor;
    mapped, haveXor := mapped0, haveXor0;
    Untouched(buf, done, a.at);
    ChooseAppend(buf, done, a);
    RestoredAppend(buf, done, a);
    if (a.kind == MAPPED_ADDRESS || a.kind == XOR_MAPPED_ADDRESS || a.kind == XOR_MAPPED_ADDRESS_2005)
       && a.len == 8 && buffer[a.at + 1] == 1 {
      if a.kind != MAPPED_ADDRESS {
        RestoreInPlace(buffer, a.at);
      }
      if !haveXor {
        AddressRestored(buf, done, a);
        mapped := Some(Mapped(buffer[a.at + 2], buffer[a.at + 3], buffer[a.at + 4], buffer[a.at + 5],
                              buffer[a.at + 6], buffer[a.at + 7]));
      }
      if a.kind != MAPPED_ADDRESS {
        haveXor := true;
      }
    }
  }

  /** "Restore XOR Mapped Address" */
  method RestoreInPlace(buffer: array<Byte>, ptr: nat)
    requires 24 <= ptr && ptr + 8 <= buffer.Length
    modifies buffer
    ensures buffer[..] == Unxor(old(buffer[..]), ptr)
  {
    hide Xor, Unxor;
    ghost var was := buffer[..];
    buffer[ptr + 2] := Xor(buffer[ptr + 2], buffer[4]);
    buffer[ptr + 3] := Xor(buffer[ptr + 3], buffer[5]);
    buffer[ptr + 4] := Xor(buffer[ptr + 4], buffer[4]);
    buffer[ptr + 5] := Xor(buffer[ptr + 5], buffer[5]);
    buffer[ptr + 6] := Xor(buffer[ptr + 6], buffer[6]);
    buffer[ptr + 7] := Xor(buffer[ptr + 7], buffer[7]);
    UnxorIs(was, ptr, buffer[..]);
  }

  lemma UnxorIs(buf: seq<Byte>, at: nat, r: seq<Byte>)
    requires 24 <= at && at + 8 <= |buf| == |r|
    requires forall k | 0 <= k < |buf| && !(at + 2 <= k < at + 8) :: r[k] == buf[k]
    requires r[at + 2] == Xor(buf[at + 2], buf[4]) && r[at + 3] == Xor(buf[at + 3], buf[5])
    requires r[at + 4] == Xor(buf[at + 4], buf[4]) && r[at + 5] == Xor(buf[at + 5], buf[5])
    requires r[at + 6] == Xor(buf[at + 6], buf[6]) && r[at + 7] == Xor(buf[at + 7], buf[7])
    ensures r == Unxor(buf, at)
  {
    hide Xor;
    var mid := r[at + 2..at + 8];
    assert r == r[..at + 2] + mid + r[at + 8..];
    assert r[..at + 2] == buf[..at + 2] && r[at + 8..] == buf[at + 8..];
    assert mid == [r[at + 2], r[at + 3], r[at + 4], r[at + 5], r[at + 6], r[at + 7]];
  }

  lemma NothingYet(buf: seq<Byte>)
    ensures Restored(buf, []) == buf && FirstXor(buf, []) == None && Choose(buf, []) == None
  {}

  /** What has not been reached yet, and the header, are as they arrived. */
  lemma Untouched(buf: seq<Byte>, done: seq<Att>, ptr: nat)
    requires forall a | a in done :: Fits(buf, a) && a.at + a.len <= ptr
    ensures forall k | ptr <= k < |buf| :: Restored(buf, done)[k] == buf[k]
    ensures forall k | 0 <= k < 20 && k < |buf| :: Restored(buf, done)[k] == buf[k]
  {
    forall k | 0 <= k < |buf| && (ptr <= k || k < 20) ensures Restored(buf, done)[k] == buf[k] {
      RestoredKeeps(buf, done, k);
    }
  }

  lemma RestoredAppend(buf: seq<Byte>, done: seq<Att>, a: Att)
    requires AllFit(buf, done) && Fits(buf, a)
    ensures AllFit(buf, done + [a])
    ensures Restored(buf, done + [a]) == if IsXor(buf, a) then Unxor(Restored(buf, done), a.at) else Restored(buf, done)
  {
    assert (done + [a])[..|done|] == done;
  }

  /** The address bytes of the current attribute once it is restored. */
  lemma AddressRestored(buf: seq<Byte>, done: seq<Att>, a: Att)
    requires (forall x | x in done :: Fits(buf, x) && x.at + x.len <= a.at) && Fits(buf, a) && a.len == 8
    ensures AllFit(buf, done + [a])
    ensures IsXor(buf, a) ==> PlainAddress(Restored(buf, done + [a]), a) == XorAddress(buf, a)
    ensures !IsXor(buf, a) ==> PlainAddress(Restored(buf, done + [a]), a) == PlainAddress(buf, a)
  {
    hide Xor, Restored;
    RestoredAppend(buf, done, a);
    Untouched(buf, done, a.at);
  }

  // ---- writing a response and reading it back ----

  /** An attribute to be written: the bytes of its type and of its length, and its value. */
  datatype Field = Field(t0: Byte, t1: Byte, l0: Byte, l1: Byte, value: seq<Byte>)

  /** The length bytes say how long the value is. */
  predicate Sized(f: Field) {
    Be16(f.l0, f.l1) == |f.value|
  }

  ghost predicate AllSized(fields: seq<Field>) {
    forall f | f in fields :: Sized(f)
  }

  function WriteField(f: Field): seq<Byte> {
    [f.t0, f.t1, f.l0, f.l1] + f.value
  }

  function WriteFields(fields: seq<Field>): seq<Byte> {
    if fields == [] then [] else WriteField(fields[0]) + WriteFields(fields[1..])
  }

  /** An IPv4 XOR-MAPPED-ADDRESS (section 15.2 of RFC 5389) under the cookie in bytes 4 to 7, with its own type
      or with that of an older draft. */
  function XorField(header: seq<Byte>, m: Mapped, draft: bool): (f: Field)
    requires |header| == 20
    ensures Sized(f)
  {
    Field(if draft then 0x80 else 0x00, 0x20, 0, 8, [0, 1, Xor(m.p0, header[4]), Xor(m.p1, header[5]),
                             Xor(m.a0, header[4]), Xor(m.a1, header[5]), Xor(m.a2, header[6]), Xor(m.a3, header[7])])
  }

  predicate FieldIsXor(f: Field) {
    (Be16(f.t0, f.t1) == XOR_MAPPED_ADDRESS || Be16(f.t0, f.t1) == XOR_MAPPED_ADDRESS_2005)
    && |f.value| == 8 && f.value[1] == 1
  }

  lemma XorTwice(x: Byte, y: Byte)
    ensures Xor(Xor(x, y), y) == x
  {}

  lemma XorFieldIsXor(header: seq<Byte>, m: Mapped, draft: bool)
    requires |header| == 20
    ensures FieldIsXor(XorField(header, m, draft))
  {
    hide Xor;
    assert Be16(0x00, 0x20) == 0x20 && Be16(0x80, 0x20) == 0x8020;
  }

  predicate FieldAt(buf: seq<Byte>, p: nat, f: Field) {
    p + 4 + |f.value| <= |buf|
    && buf[p] == f.t0 && buf[p + 1] == f.t1 && buf[p + 2] == f.l0 && buf[p + 3] == f.l1
    && forall i | 0 <= i < |f.value| :: buf[p + 4 + i] == f.value[i]
  }

  predicate Stands(buf: seq<Byte>, p: nat, s: seq<Byte>) {
    p + |s| == |buf| && buf[p..] == s
  }

  function AttOf(f: Field, p: nat): Att {
    Att(Be16(f.t0, f.t1), p + 4, |f.value|)
  }

  function Past(f: Field, p: nat): nat {
    p + 4 + |f.value|
  }

  /** Where the fields written from `p` on lie. */
  function Layout(fields: seq<Field>, p: nat): seq<Att> {
    if fields == [] then [] else [AttOf(fields[0], p)] + Layout(fields[1..], Past(fields[0], p))
  }

  lemma FirstField(buf: seq<Byte>, p: nat, f: Field, rest: seq<Byte>)
    requires Stands(buf, p, WriteField(f) + rest)
    ensures FieldAt(buf, p, f) && Stands(buf, Past(f, p), rest)
  {
    var all := WriteField(f) + rest;
    assert forall i | 0 <= i < |all| :: buf[p + i] == all[i];
    assert |WriteField(f)| == 4 + |f.value|;
    forall i | 0 <= i < |f.value| ensures buf[p + 4 + i] == f.value[i] {
      assert buf[p + (4 + i)] == all[4 + i] == WriteField(f)[4 + i];
    }
    assert all[4 + |f.value|..] == rest;
    assert buf[Past(f, p)..] == buf[p..][4 + |f.value|..];
  }

  /** Walking the attributes of what was written finds the fields, one by one. */
  lemma {:induction false} AttsOfFields(buf: seq<Byte>, p: nat, fields: seq<Field>)
    requires AllSized(fields) && Stands(buf, p, WriteFields(fields))
    ensures Atts(buf, p) == Layout(fields, p)
    decreases |fields|
  {
    hide Be16, Atts, WriteField;
    AttsStep(buf, p);
    if fields != [] {
      var f := fields[0];
      assert Sized(f);
      FirstField(buf, p, f, WriteFields(fields[1..]));
      AttsOfFields(buf, Past(f, p), fields[1..]);
    }
  }

  /** A field is an XOR-MAPPED-ADDRESS in the datagram exactly when it was written as one. */
  lemma XorWhereWritten(buf: seq<Byte>, p: nat, f: Field)
    requires FieldAt(buf, p, f) && p >= 20
    ensures Fits(buf, AttOf(f, p)) && (IsXor(buf, AttOf(f, p)) <==> FieldIsXor(f))
  {
    hide Be16;
    if |f.value| == 8 {
      assert buf[p + 4 + 1] == f.value[1];
    }
  }

  /** Restoring the value that XorField wrote gives the address back. */
  lemma XorFieldRestored(buf: seq<Byte>, p: nat, header: seq<Byte>, m: Mapped, draft: bool)
    requires |header| == 20 <= p && 20 <= |buf| && buf[..20] == header
    requires FieldAt(buf, p, XorField(header, m, draft))
    ensures XorAddress(buf, AttOf(XorField(header, m, draft), p)) == m
  {
    hide Xor, Be16;
    var f := XorField(header, m, draft);
    assert forall i | 4 <= i < 8 :: buf[i] == buf[..20][i];
    assert buf[p + 4 + 2] == f.value[2] && buf[p + 4 + 3] == f.value[3] && buf[p + 4 + 4] == f.value[4];
    assert buf[p + 4 + 5] == f.value[5] && buf[p + 4 + 6] == f.value[6] && buf[p + 4 + 7] == f.value[7];
    XorTwice(m.p0, header[4]);
    XorTwice(m.p1, header[5]);
    XorTwice(m.a0, header[4]);
    XorTwice(m.a1, header[5]);
    XorTwice(m.a2, header[6]);
    XorTwice(m.a3, header[7]);
  }

  /** The first XOR-MAPPED-ADDRESS among the fields is the one that is chosen. */
  lemma {:induction false} FirstXorOfFields(buf: seq<Byte>, p: nat, header: seq<Byte>, before: seq<Field>, m: Mapped, draft: bool, after: seq<Field>)
    requires |header| == 20 <= p && 20 <= |buf| && buf[..20] == header
    requires forall f | f in before :: !FieldIsXor(f)
    requires Stands(buf, p, WriteFields(before + [XorField(header, m, draft)] + after))
    requires AllFit(buf, Layout(before + [XorField(header, m, draft)] + after, p))
    ensures var xor := FirstXor(buf, Layout(before + [XorField(header, m, draft)] + after, p));
            xor.Some? && XorAddress(buf, xor.value) == m
    decreases |before|
  {
    hide Be16, Xor, XorField, WriteField, XorAddress;
    var fields := before + [XorField(header, m, draft)] + after;
    var f, rest := fields[0], fields[1..];
    FirstField(buf, p, f, WriteFields(rest));
    XorWhereWritten(buf, p, f);
    assert Layout(fields, p)[1..] == Layout(rest, Past(f, p));
    if before == [] {
      XorFieldIsXor(header, m, draft);
      XorFieldRestored(buf, p, header, m, draft);
    } else {
      assert f == before[0];
      assert rest == before[1..] + [XorField(header, m, draft)] + after;
      FirstXorOfFields(buf, Past(f, p), header, before[1..], m, draft, after);
    }
  }

  /** A response with a good header that carries an address, behind whatever other attributes that
      are no XOR-MAPPED-ADDRESS and before whatever else, is read as that address. */
  lemma ResponseReadsBack(header: seq<Byte>, before: seq<Field>, m: Mapped, draft: bool, after: seq<Field>)
    requires |header| == 20 && AllSized(before) && AllSized(after)
    requires forall f | f in before :: !FieldIsXor(f)
    requires GoodHeader(header + WriteFields(before + [XorField(header, m, draft)] + after))
    ensures Parse(header + WriteFields(before + [XorField(header, m, draft)] + after)) == Some(m)
  {
    hide Be16, GoodHeader, Atts, FirstXor, XorAddress, XorField, WriteFields;
    var fields := before + [XorField(header, m, draft)] + after;
    var buf := header + WriteFields(fields);
    assert buf[20..] == WriteFields(fields) && buf[..20] == header;
    assert AllSized(fields);
    AttsOfFields(buf, 20, fields);
    FirstXorOfFields(buf, 20, header, before, m, draft, after);
  }

  /** A good header is that of a binding response, success or error, and not longer than what has arrived. */
  lemma GoodHeaderIff(buf: seq<Byte>)
    ensures GoodHeader(buf) <==>
            |buf| >= 20 && buf[0] == 0x01 && (buf[1] == 0x01 || buf[1] == 0x11)
            && 20 + 256 * buf[2] as nat + buf[3] as nat <= |buf|
  {
    if |buf| >= 20 {
      ResponseType(buf[1]);
    }
  }

  lemma ResponseType(b: Byte)
    ensures b & 0xEF == 0x01 <==> b == 0x01 || b == 0x11
  {}

  // ---- plain addresses ----

  /** An IPv4 MAPPED-ADDRESS (section 15.1 of RFC 5389). */
  function PlainField(m: Mapped): (f: Field)
    ensures Sized(f)
  {
    Field(0x00, 0x01, 0, 8, [0, 1, m.p0, m.p1, m.a0, m.a1, m.a2, m.a3])
  }

  predicate FieldIsPlain(f: Field) {
    Be16(f.t0, f.t1) == MAPPED_ADDRESS && |f.value| == 8 && f.value[1] == 1
  }

  lemma PlainWhereWritten(buf: seq<Byte>, p: nat, f: Field)
    requires FieldAt(buf, p, f) && p >= 20
    ensures Fits(buf, AttOf(f, p)) && (IsPlain(buf, AttOf(f, p)) <==> FieldIsPlain(f))
  {
    hide Be16;
    if |f.value| == 8 {
      assert buf[p + 4 + 1] == f.value[1];
    }
  }

  lemma PlainFieldRead(buf: seq<Byte>, p: nat, m: Mapped)
    requires p >= 20 && FieldAt(buf, p, PlainField(m))
    ensures var a := AttOf(PlainField(m), p); Fits(buf, a) && IsPlain(buf, a) && PlainAddress(buf, a) == m
  {
    hide Be16;
    var f := PlainField(m);
    assert Be16(0x00, 0x01) == 1 by { Be16Values(); }
    PlainWhereWritten(buf, p, f);
    assert buf[p + 4 + 2] == f.value[2] && buf[p + 4 + 3] == f.value[3] && buf[p + 4 + 4] == f.value[4];
    assert buf[p + 4 + 5] == f.value[5] && buf[p + 4 + 6] == f.value[6] && buf[p + 4 + 7] == f.value[7];
  }

  lemma {:induction false} LastPlainCons(buf: seq<Byte>, a: Att, rest: seq<Att>)
    requires AllFit(buf, [a] + rest) && AllFit(buf, rest) && Fits(buf, a)
    ensures LastPlain(buf, [a] + rest)
         == if LastPlain(buf, rest).Some? then LastPlain(buf, rest) else if IsPlain(buf, a) then Some(a) else None
    decreases |rest|
  {
    if rest == [] {
      assert [a] + rest == [] + [a];
      LastPlainAppend(buf, [], a);
    } else {
      var n := |rest| - 1;
      assert rest == rest[..n] + [rest[n]] && [a] + rest == ([a] + rest[..n]) + [rest[n]];
      assert rest[n] in rest && forall x | x in rest[..n] :: x in rest;
      LastPlainCons(buf, a, rest[..n]);
      LastPlainAppend(buf, rest[..n], rest[n]);
      LastPlainAppend(buf, [a] + rest[..n], rest[n]);
    }
  }

  lemma {:induction false} NoneOfFields(buf: seq<Byte>, p: nat, fields: seq<Field>)
    requires 20 <= p && Stands(buf, p, WriteFields(fields)) && AllFit(buf, Layout(fields, p))
    ensures (forall f | f in fields :: !FieldIsXor(f)) ==> FirstXor(buf, Layout(fields, p)) == None
    ensures (forall f | f in fields :: !FieldIsPlain(f)) ==> LastPlain(buf, Layout(fields, p)) == None
    decreases |fields|
  {
    hide Be16, WriteField, IsXor, IsPlain, FieldIsXor, FieldIsPlain;
    if fields != [] {
      var f, rest := fields[0], fields[1..];
      FirstField(buf, p, f, WriteFields(rest));
      XorWhereWritten(buf, p, f);
      PlainWhereWritten(buf, p, f);
      assert Layout(fields, p)[1..] == Layout(rest, Past(f, p));
      NoneOfFields(buf, Past(f, p), rest);
      LastPlainCons(buf, AttOf(f, p), Layout(rest, Past(f, p)));
    }
  }

  lemma {:induction false} LastPlainOfFields(buf: seq<Byte>, p: nat, before: seq<Field>, m: Mapped, after: seq<Field>)
    requires 20 <= p && Stands(buf, p, WriteFields(before + [PlainField(m)] + after))
    requires (forall f | f in after :: !FieldIsPlain(f)) && AllFit(buf, Layout(before + [PlainField(m)] + after, p))
    ensures var plain := LastPlain(buf, Layout(before + [PlainField(m)] + after, p));
            plain.Some? && PlainAddress(buf, plain.value) == m
    decreases |before|
  {
    hide Be16, WriteField, PlainField, PlainAddress, FieldIsPlain, IsPlain;
    var fields := before + [PlainField(m)] + after;
    var f, rest := fields[0], fields[1..];
    FirstField(buf, p, f, WriteFields(rest));
    assert Layout(fields, p)[1..] == Layout(rest, Past(f, p));
    PlainWhereWritten(buf, p, f);
    LastPlainCons(buf, AttOf(f, p), Layout(rest, Past(f, p)));
    if before == [] {
      assert rest == after;
      PlainFieldRead(buf, p, m);
      NoneOfFields(buf, Past(f, p), rest);
    } else {
      assert f == before[0];
      assert rest == before[1..] + [PlainField(m)] + after;
      LastPlainOfFields(buf, Past(f, p), before[1..], m, after);
    }
  }

  /** A response without an XOR-MAPPED-ADDRESS is read as the last MAPPED-ADDRESS that was written to it, and
      without that one either as nothing. */
  lemma PlainReadsBack(header: seq<Byte>, before: seq<Field>, m: Mapped, after: seq<Field>)
    requires |header| == 20 && AllSized(before) && AllSized(after)
    requires forall f | f in before + after :: !FieldIsXor(f)
    requires forall f | f in after :: !FieldIsPlain(f)
    requires GoodHeader(header + WriteFields(before + [PlainField(m)] + after))
    ensures Parse(header + WriteFields(before + [PlainField(m)] + after)) == Some(m)
  {
    hide Be16, GoodHeader, Atts, PlainAddress, FirstXor, LastPlain, WriteFields, FieldIsXor, FieldIsPlain, PlainField;
    var fields := before + [PlainField(m)] + after;
    var buf := header + WriteFields(fields);
    assert buf[20..] == WriteFields(fields);
    assert AllSized(fields);
    PlainIsNotXor(m);
    AttsOfFields(buf, 20, fields);
    NoneOfFields(buf, 20, fields);
    LastPlainOfFields(buf, 20, before, m, after);
  }

  lemma PlainIsNotXor(m: Mapped)
    ensures !FieldIsXor(PlainField(m)) && Sized(PlainField(m))
  {
    hide Be16;
    Be16Values();
  }

  lemma NothingReadBack(header: seq<Byte>, fields: seq<Field>)
    requires |header| == 20 && AllSized(fields) && GoodHeader(header + WriteFields(fields))
    requires forall f | f in fields :: !FieldIsXor(f) && !FieldIsPlain(f)
    ensures Parse(header + WriteFields(fields)) == None
  {
    hide Be16, GoodHeader, Atts, FirstXor, LastPlain, WriteFields, FieldIsXor, FieldIsPlain;
    var buf := header + WriteFields(fields);
    assert buf[20..] == WriteFields(fields);
    AttsOfFields(buf, 20, fields);
    NoneOfFields(buf, 20, fields);
  }

  // ---- the layout of the standard ----

  /** The message, as long as its header says (section 6 of RFC 5389); the loop goes on to the end of the datagram. */
  function Message(buf: seq<Byte>): (msg: seq<Byte>)
    requires GoodHeader(buf)
    ensures |msg| == 20 + Be16(buf[2], buf[3]) <= |buf| && msg == buf[..|msg|]
  {
    buf[..20 + Be16(buf[2], buf[3])]
  }

  /** The attributes as section 15 of RFC 5389 lays them out: each value is padded to a multiple of four. */
  function PaddedAtts(msg: seq<Byte>, p: nat): (atts: seq<Att>)
    ensures forall a | a in atts :: p + 4 <= a.at && a.at + a.len <= |msg|
    decreases |msg| - p
  {
    if p + 4 > |msg| then []
    else
      var a := Att(Be16(msg[p], msg[p + 1]), p + 4, Be16(msg[p + 2], msg[p + 3]));
      if a.at + a.len > |msg| then [] else [a] + PaddedAtts(msg, a.at + Padded(a.len))
  }

  function Padded(len: nat): nat { (len + 3) / 4 * 4 }

  lemma PaddedStep(msg: seq<Byte>, p: nat)
    ensures p + 4 > |msg| ==> PaddedAtts(msg, p) == []
    ensures p + 4 <= |msg| ==>
              var a := Att(Be16(msg[p], msg[p + 1]), p + 4, Be16(msg[p + 2], msg[p + 3]));
              PaddedAtts(msg, p) == if a.at + a.len > |msg| then [] else [a] + PaddedAtts(msg, a.at + Padded(a.len))
  {}

  /** Attribute `i` lies in the message, and takes no padding, or is the last and nothing follows its padding. */
  ghost predicate AsLaidOut(msg: seq<Byte>, atts: seq<Att>, i: nat)
    requires i < |atts|
  {
    atts[i].at + atts[i].len <= |msg|
    && (atts[i].len % 4 == 0 || (i == |atts| - 1 && PaddedAtts(msg, atts[i].at + Padded(atts[i].len)) == []))
  }

  /** The loop, which neither skips padding nor stops at the end of the message, sees the attributes of the
      standard's layout if and only if all it sees lie in the message, every one but the last has a length
      that is a multiple of four, and nothing follows the padding of the last. */
  lemma {:induction false} LayoutSeenIff(buf: seq<Byte>, n: nat, p: nat)
    requires n <= |buf|
    ensures Atts(buf, p) == PaddedAtts(buf[..n], p)
       <==> forall i | 0 <= i < |Atts(buf, p)| :: AsLaidOut(buf[..n], Atts(buf, p), i)
    decreases |buf| - p
  {
    hide Atts, PaddedAtts, Be16;
    var msg := buf[..n];
    AttsStep(buf, p);
    PaddedStep(msg, p);
    if Atts(buf, p) != [] {
      var atts := Atts(buf, p);
      var a := atts[0];
      var rest := Atts(buf, a.at + a.len);
      assert atts == [a] + rest && atts[1..] == rest;
      if a.at + a.len > n {
        assert !AsLaidOut(msg, atts, 0);
      } else {
        LayoutSeenStep(buf, n, p, a, rest);
      }
    }
  }

  lemma LayoutSeenStep(buf: seq<Byte>, n: nat, p: nat, a: Att, rest: seq<Att>)
    requires n <= |buf| && a.at == p + 4 && a.at + a.len <= n
    requires rest == Atts(buf, a.at + a.len) && Atts(buf, p) == [a] + rest
    requires PaddedAtts(buf[..n], p) == [a] + PaddedAtts(buf[..n], a.at + Padded(a.len))
    ensures Atts(buf, p) == PaddedAtts(buf[..n], p)
       <==> forall i | 0 <= i < |Atts(buf, p)| :: AsLaidOut(buf[..n], Atts(buf, p), i)
    decreases |buf| - p, 0
  {
    hide Atts, PaddedAtts, Be16;
    var msg, atts := buf[..n], Atts(buf, p);
    assert atts[1..] == rest && PaddedAtts(msg, p)[1..] == PaddedAtts(msg, a.at + Padded(a.len));
    assert forall i | 0 < i < |atts| :: AsLaidOut(msg, atts, i) <==> AsLaidOut(msg, rest, i - 1);
    if a.len % 4 == 0 {
      assert Padded(a.len) == a.len && AsLaidOut(msg, atts, 0);
      LayoutSeenIff(buf, n, a.at + a.len);
      assert forall i | 0 <= i < |rest| :: AsLaidOut(msg, rest, i) <==> AsLaidOut(msg, atts, i + 1);
    } else {
      FirstStands(buf, a.at + a.len);
      FirstStandsPadded(msg, a.at + Padded(a.len));
      assert Padded(a.len) != a.len;
      if rest == [] && PaddedAtts(msg, a.at + Padded(a.len)) == [] {
        assert AsLaidOut(msg, atts, 0);
      } else {
        assert !AsLaidOut(msg, atts, 0);
      }
    }
  }

  lemma FirstStands(buf: seq<Byte>, p: nat)
    ensures Atts(buf, p) != [] ==> Atts(buf, p)[0].at == p + 4
  {}

  lemma FirstStandsPadded(buf: seq<Byte>, p: nat)
    ensures PaddedAtts(buf, p) != [] ==> PaddedAtts(buf, p)[0].at == p + 4
  {}

  /** What the response says in the standard's layout: the attributes that stand in the message, padded. The
      choice among them is the code's; type 0x8020, which it also accepts, is from an older draft and not in
      RFC 5389. */
  ghost function ParseStandard(buf: seq<Byte>): Option<Mapped> {
    if GoodHeader(buf) then Choose(Message(buf), PaddedAtts(Message(buf), 20)) else None
  }

  lemma {:induction false} FirstXorCut(buf: seq<Byte>, n: nat, atts: seq<Att>)
    requires n <= |buf| && AllFit(buf[..n], atts)
    ensures AllFit(buf, atts) && FirstXor(buf[..n], atts) == FirstXor(buf, atts)
  {
    if atts != [] {
      FirstXorCut(buf, n, atts[1..]);
    }
  }

  lemma {:induction false} LastPlainCut(buf: seq<Byte>, n: nat, atts: seq<Att>)
    requires n <= |buf| && AllFit(buf[..n], atts)
    ensures AllFit(buf, atts) && LastPlain(buf[..n], atts) == LastPlain(buf, atts)
  {
    if atts != [] {
      LastPlainCut(buf, n, atts[..|atts| - 1]);
    }
  }

  /** Attributes inside the message say the same there as in the datagram. */
  lemma ChooseCut(buf: seq<Byte>, n: nat, atts: seq<Att>)
    requires n <= |buf| && AllFit(buf[..n], atts)
    ensures AllFit(buf, atts) && Choose(buf[..n], atts) == Choose(buf, atts)
  {
    hide Xor;
    FirstXorCut(buf, n, atts);
    LastPlainCut(buf, n, atts);
    if atts != [] {
      assert Fits(buf[..n], atts[0]);
      assert forall k | 0 <= k < 20 :: buf[..n][k] == buf[k];
    }
  }

  /** A response whose attributes all lie in the message, with lengths that are multiples of four, is read
      as the standard lays it out. */
  lemma LaidOutReadAsStandard(buf: seq<Byte>)
    requires GoodHeader(buf)
    requires forall i | 0 <= i < |Atts(buf, 20)| :: AsLaidOut(Message(buf), Atts(buf, 20), i)
    ensures Parse(buf) == ParseStandard(buf)
  {
    hide Atts, PaddedAtts, Choose, GoodHeader, Be16;
    var n := |Message(buf)|;
    LayoutSeenIff(buf, n, 20);
    ChooseCut(buf, n, PaddedAtts(Message(buf), 20));
  }

  /** A server name of one byte before the address hides the address. */
  const UNALIGNED: seq<Byte> :=
    [0x01, 0x01, 0, 20, 0x21, 0x12, 0xA4, 0x42, 0, 0, 0, 0, 0, 0, 0, 0, 0, 0, 0, 0,
     0x80, 0x22, 0, 1, 65, 0, 0, 0,
     0x00, 0x20, 0, 8, 0, 1, 0x30, 0x39, 0xC0, 0x00, 0x02, 0x01]

  lemma Be16Values()
    ensures Be16(0, 0) == 0 && Be16(0, 1) == 1 && Be16(0, 8) == 8 && Be16(0, 20) == 20 && Be16(8, 0) == 2048
    ensures Be16(0x00, 0x20) == 0x20 && Be16(0x20, 0x00) == 0x2000 && Be16(0x80, 0x22) == 0x8022
  {}

  lemma AttsFound(buf: seq<Byte>, p: nat, a: Att)
    requires p + 4 == a.at && a.at + a.len <= |buf|
    requires Be16(buf[p], buf[p + 1]) == a.kind && Be16(buf[p + 2], buf[p + 3]) == a.len
    ensures Atts(buf, p) == [a] + Atts(buf, a.at + a.len)
    ensures PaddedAtts(buf, p) == [a] + PaddedAtts(buf, a.at + Padded(a.len))
  {
    hide Be16, Atts, PaddedAtts;
    AttsStep(buf, p);
    PaddedStep(buf, p);
  }

  lemma UnalignedFirst()
    ensures Atts(UNALIGNED, 20) == [Att(0x8022, 24, 1)] + Atts(UNALIGNED, 25)
    ensures PaddedAtts(UNALIGNED, 20) == [Att(0x8022, 24, 1)] + PaddedAtts(UNALIGNED, 28)
  {
    hide Be16, Atts, PaddedAtts;
    Be16Values();
    AttsFound(UNALIGNED, 20, Att(0x8022, 24, 1));
  }

  /** The loop takes the padding and half of the next header for an attribute, and then finds a truncated one. */
  lemma UnalignedWalk()
    ensures Atts(UNALIGNED, 20) == [Att(0x8022, 24, 1), Att(0, 29, 0)]
  {
    hide Be16, Atts, PaddedAtts;
    Be16Values();
    UnalignedFirst();
    AttsFound(UNALIGNED, 25, Att(0, 29, 0));
    AttsStep(UNALIGNED, 29);
  }

  lemma UnalignedStandardWalk()
    ensures PaddedAtts(UNALIGNED, 20) == [Att(0x8022, 24, 1), Att(0x20, 32, 8)]
  {
    hide Be16, Atts, PaddedAtts;
    Be16Values();
    UnalignedFirst();
    AttsFound(UNALIGNED, 28, Att(0x20, 32, 8));
    PaddedStep(UNALIGNED, 40);
  }

  lemma UnalignedMessage()
    ensures GoodHeader(UNALIGNED) && Message(UNALIGNED) == UNALIGNED
  {
    hide Be16, Atts, PaddedAtts;
    Be16Values();
    assert UNALIGNED[..40] == UNALIGNED;
  }

  lemma UnalignedIsLost()
    ensures GoodHeader(UNALIGNED) && Parse(UNALIGNED) == None && ParseStandard(UNALIGNED).Some?
  {
    hide Be16, Atts, PaddedAtts, XorAddress, Choose;
    Be16Values();
    UnalignedMessage();
    UnalignedWalk();
    UnalignedStandardWalk();
    NeverChosen(UNALIGNED, [Att(0x8022, 24, 1), Att(0, 29, 0)]);
    SecondChosen(UNALIGNED, Att(0x8022, 24, 1), Att(0x20, 32, 8));
  }

  lemma SecondChosen(buf: seq<Byte>, a: Att, b: Att)
    requires Fits(buf, a) && Fits(buf, b) && IsXor(buf, b)
    ensures AllFit(buf, [a, b]) && Choose(buf, [a, b]).Some?
  {
    hide XorAddress;
    assert [a, b][1..] == [b];
    assert FirstXor(buf, [b]) == Some(b);
  }

  lemma NeverChosen(buf: seq<Byte>, atts: seq<Att>)
    requires AllFit(buf, atts) && forall a | a in atts :: !IsXor(buf, a) && !IsPlain(buf, a)
    ensures Choose(buf, atts) == None
  {}

  /** An address behind the end of the message: the header gives the message no attributes at all. */
  const BEHIND: seq<Byte> :=
    [0x01, 0x01, 0, 0, 0x21, 0x12, 0xA4, 0x42, 0, 0, 0, 0, 0, 0, 0, 0, 0, 0, 0, 0,
     0x00, 0x20, 0, 8, 0, 1, 0x30, 0x39, 0xC0, 0x00, 0x02, 0x01]

  lemma BehindWalk()
    ensures GoodHeader(BEHIND) && |Message(BEHIND)| == 20
    ensures Atts(BEHIND, 20) == [Att(0x20, 24, 8)]
  {
    hide Be16, Atts, PaddedAtts;
    Be16Values();
    AttsFound(BEHIND, 20, Att(0x20, 24, 8));
    AttsStep(BEHIND, 32);
  }

  lemma BehindIsTaken()
    ensures GoodHeader(BEHIND) && Parse(BEHIND).Some? && ParseStandard(BEHIND) == None
  {
    hide Be16, Atts, PaddedAtts, XorAddress, Choose;
    Be16Values();
    BehindWalk();
    PaddedStep(Message(BEHIND), 20);
    NeverChosen(Message(BEHIND), []);
    FirstChosen(BEHIND, Att(0x20, 24, 8));
  }

  lemma FirstChosen(buf: seq<Byte>, a: Att)
    requires Fits(buf, a) && IsXor(buf, a)
    ensures AllFit(buf, [a]) && Choose(buf, [a]).Some?
  {
    hide XorAddress;
    assert FirstXor(buf, [a]) == Some(a);
  }
}
