/** codelength.h, and the message minissdp.c builds with it: lengths in groups of seven bits, most
    significant group first, a set top bit meaning that another byte follows. */
module CodeLength {
  import opened Net

  /** CODELENGTH(n, p): the bytes written; `(n >> s) | 0x80` is cut to an unsigned char. */
  function Encode(n: U32): (code: seq<Byte>)
    ensures 1 <= |code| <= 5
  {
    (if n >= 268435456 then [128 + (n / 268435456) % 128] else [])
    + (if n >= 2097152 then [128 + (n / 2097152) % 128] else [])
    + (if n >= 16384 then [128 + (n / 16384) % 128] else [])
    + (if n >= 128 then [128 + (n / 128) % 128] else [])
    + [n % 128]
  }

  /** `n = (n << 7) | (b & 0x7f)` on 32 bits. */
  function ShiftIn(n: U32, b: Byte): U32 {
    (n * 128) % 0x1_0000_0000 + b % 128
  }

  const MORE := 0x200_0000

  /** DECODELENGTH_CHECKLIMIT from `p` on, with `n` collected so far: the length and where it ends.
      DECODELENGTH does the same as long as the code ends in the buffer. */
  function Decode(buf: seq<Byte>, p: nat, n: U32): (U32, nat)
    decreases |buf| - p
  {
    if p >= |buf| then (n, p)
    else
      var n' := ShiftIn(n, buf[p]);
      if buf[p] >= 128 && n' < MORE then Decode(buf, p + 1, n') else (n', p + 1)
  }

  /** The groups before the last one. */
  function Leading(m: nat): seq<Byte> {
    if m == 0 then [] else Leading(m / 128) + [128 + m % 128]
  }

  lemma Shifts(n: U32)
    ensures n / 128 / 128 == n / 16384 && n / 16384 / 128 == n / 2097152
    ensures n / 2097152 / 128 == n / 268435456 && n / 268435456 / 128 == 0
    ensures n >= 128 <==> n / 128 != 0
    ensures n >= 16384 <==> n / 16384 != 0
    ensures n >= 2097152 <==> n / 2097152 != 0
    ensures n >= 268435456 <==> n / 268435456 != 0
  {}

  lemma LeadingStep(m: nat)
    ensures Leading(m) == if m == 0 then [] else Leading(m / 128) + [128 + m % 128]
  {}

  /** The macro writes the leading groups and the last one. */
  lemma EncodeIsGroups(n: U32)
    ensures Encode(n) == Leading(n / 128) + [n % 128]
  {
    hide Leading;
    Shifts(n);
    LeadingStep(n / 128);
    LeadingStep(n / 16384);
    LeadingStep(n / 2097152);
    LeadingStep(n / 268435456);
    LeadingStep(0);
  }

  /** 300 is 2 * 128 + 44. */
  lemma EncodedText()
    ensures Encode(300) == [0x82, 0x2c] && Encode(127) == [0x7f] && Encode(16384) == [0x81, 0x80, 0x00]
  {}

  /** `s` stands at `p`. */
  predicate Stands(buf: seq<Byte>, p: nat, s: seq<Byte>) {
    p + |s| <= |buf| && buf[p..p + |s|] == s
  }

  lemma StandsSplit(buf: seq<Byte>, p: nat, a: seq<Byte>, b: seq<Byte>)
    requires Stands(buf, p, a + b)
    ensures Stands(buf, p, a) && Stands(buf, p + |a|, b) && p + |a| + |b| <= |buf|
  {
    assert buf[p..p + |a|] == buf[p..p + |a + b|][..|a|];
    assert buf[p + |a|..p + |a| + |b|] == buf[p..p + |a + b|][|a|..];
  }

  lemma StandsOne(buf: seq<Byte>, p: nat, b: Byte)
    requires Stands(buf, p, [b])
    ensures p < |buf| && buf[p] == b
  {
    assert buf[p..p + 1][0] == b;
  }

  lemma DecodeMore(buf: seq<Byte>, p: nat, n: nat, b: Byte)
    requires p < |buf| && buf[p] == 128 + b && n * 128 + b < MORE && b < 128
    ensures Decode(buf, p, n) == Decode(buf, p + 1, n * 128 + b)
  {}

  /** Reading the leading groups collects their value, and reading goes on. */
  lemma {:induction false} DecodeLeading(buf: seq<Byte>, p: nat, m: nat)
    requires m < MORE && Stands(buf, p, Leading(m))
    ensures Decode(buf, p, 0) == Decode(buf, p + |Leading(m)|, m)
  {
    hide Decode, Stands;
    if m > 0 {
      var q := p + |Leading(m / 128)|;
      StandsSplit(buf, p, Leading(m / 128), [128 + m % 128]);
      StandsOne(buf, q, 128 + m % 128);
      DecodeLeading(buf, p, m / 128);
      DecodeMore(buf, q, m / 128, m % 128);
    }
  }

  lemma DecodeLast(buf: seq<Byte>, p: nat, m: nat, n: U32)
    requires p < |buf| && m == n / 128 && buf[p] == n % 128
    ensures Decode(buf, p, m) == (n, p + 1)
  {}

  /** Decoding what CODELENGTH wrote gives the length back and stops behind it, whatever stands
      before or follows. */
  lemma DecodeEncode(buf: seq<Byte>, p: nat, n: U32)
    requires Stands(buf, p, Encode(n))
    ensures Decode(buf, p, 0) == (n, p + |Encode(n)|)
  {
    hide Decode, Stands, Encode;
    var m := n / 128;
    EncodeIsGroups(n);
    StandsSplit(buf, p, Leading(m), [n % 128]);
    StandsOne(buf, p + |Leading(m)|, n % 128);
    DecodeLeading(buf, p, m);
    DecodeLast(buf, p + |Leading(m)|, m, n);
  }

  /** No shift ever loses a bit: on the way the collected value stays below 2^25. */
  function DecodeExact(buf: seq<Byte>, p: nat, n: nat): (nat, nat)
    decreases |buf| - p
  {
    if p >= |buf| then (n, p)
    else
      var n' := n * 128 + buf[p] % 128;
      if buf[p] >= 128 && n' < MORE then DecodeExact(buf, p + 1, n') else (n', p + 1)
  }

  lemma {:induction false} DecodeNeverOverflows(buf: seq<Byte>, p: nat, n: U32)
    requires n < MORE
    ensures Decode(buf, p, n) == DecodeExact(buf, p, n)
    ensures p <= |buf| ==> p <= Decode(buf, p, n).1 <= |buf|
    decreases |buf| - p
  {
    if p < |buf| {
      var n' := ShiftIn(n, buf[p]);
      if buf[p] >= 128 && n' < MORE {
        DecodeNeverOverflows(buf, p + 1, n');
      }
    }
  }

  /** DECODELENGTH_CHECKLIMIT(n, p, p_limit): nothing at or behind the limit is read. */
  method DecodeCheckLimit(buf: seq<Byte>, p0: nat, limit: nat) returns (n: U32, p: nat)
    requires limit <= |buf|
    ensures (n, p) == Decode(buf[..limit], p0, 0)
  {
    n, p := 0, p0;
    ghost var visible := buf[..limit];
    while true
      invariant n < MORE && Decode(visible, p0, 0) == Decode(visible, p, n)
      decreases |buf| - p
    {
      if p >= limit {
        return;
      }
      var b := buf[p];
      n := ShiftIn(n, b);
      p := p + 1;
      if !(b >= 128 && n < MORE) {
        return;
      }
    }
  }

  /** DECODELENGTH(n, p): the code has to end somewhere in the buffer, and then both decoders agree. */
  method DecodeUnlimited(buf: seq<Byte>, p0: nat) returns (n: U32, p: nat)
    requires exists q :: p0 <= q < |buf| && buf[q] < 128
    ensures (n, p) == Decode(buf, p0, 0)
  {
    n, p := 0, p0;
    ghost var q :| p0 <= q < |buf| && buf[q] < 128;
    while true
      invariant p0 <= p <= q && Decode(buf, p0, 0) == Decode(buf, p, n)
      decreases q - p
    {
      var b := buf[p];
      n := ShiftIn(n, b);
      p := p + 1;
      if !(b >= 128 && n < MORE) {
        return;
      }
    }
  }

  // ---- the message to minissdpd ----

  type Text = seq<Byte>

  ghost predicate Short(parts: seq<Text>) {
    forall s | s in parts :: |s| < 0x1_0000_0000
  }

  /** The strings of a request, each behind its length. */
  function Fields(parts: seq<Text>): seq<Byte>
    requires Short(parts)
  {
    if parts == [] then [] else Encode(|parts[0]|) + parts[0] + Fields(parts[1..])
  }

  /** A "submit service" request: type, server, location and all. */
  function Message(parts: seq<Text>): seq<Byte>
    requires Short(parts)
  {
    [4] + Fields(parts)
  }

  /** Reading `k` strings back. */
  function ReadFields(buf: seq<Byte>, p: nat, k: nat): Option<seq<Text>>
    decreases k
  {
    if k == 0 then Some([])
    else
      var (n, q) := Decode(buf, p, 0);
      if q + n > |buf| then None
      else
        var rest := ReadFields(buf, q + n, k - 1);
        if rest.None? then None else Some([buf[q..q + n]] + rest.value)
  }

  lemma {:induction false} FieldsReadBack(buf: seq<Byte>, p: nat, parts: seq<Text>)
    requires Short(parts) && Stands(buf, p, Fields(parts))
    ensures ReadFields(buf, p, |parts|) == Some(parts)
    decreases |parts|
  {
    hide Decode, Encode, Stands;
    if parts != [] {
      var s, rest := parts[0], parts[1..];
      var code := Encode(|s|);
      StandsSplit(buf, p, code + s, Fields(rest));
      StandsSplit(buf, p, code, s);
      DecodeEncode(buf, p, |s|);
      FieldsReadBack(buf, p + |code| + |s|, rest);
      StandsWhole(buf, p + |code|, s);
      assert parts == [s] + rest;
    }
  }

  lemma StandsWhole(buf: seq<Byte>, p: nat, s: seq<Byte>)
    requires Stands(buf, p, s)
    ensures p + |s| <= |buf| && buf[p..p + |s|] == s
  {}

  /** A request whose strings are read back is the request that was built. */
  lemma MessageReadsBack(parts: seq<Text>, after: seq<Byte>)
    requires Short(parts)
    ensures Message(parts)[0] == 4 && ReadFields(Message(parts) + after, 1, |parts|) == Some(parts)
  {
    assert (Message(parts) + after)[1..1 + |Fields(parts)|] == Fields(parts);
    FieldsReadBack(Message(parts) + after, 1, parts);
  }

  /** Two messages of the same number of strings are equal only if the strings are. */
  lemma MessageIsUnique(a: seq<Text>, b: seq<Text>)
    requires Short(a) && Short(b) && |a| == |b| && Message(a) == Message(b)
    ensures a == b
  {
    MessageReadsBack(a, []);
    MessageReadsBack(b, []);
  }

  /** CODELENGTH into a buffer, through an advancing pointer. */
  method WriteLength(buffer: array<Byte>, p0: nat, n: U32) returns (p: nat)
    requires p0 + |Encode(n)| <= buffer.Length
    modifies buffer
    ensures p == p0 + |Encode(n)| && buffer[..p] == old(buffer[..p0]) + Encode(n)
  {
    p := p0;
    ghost var head := buffer[..p0];
    if n >= 268435456 {
      p := WriteByte(buffer, p, 128 + (n / 268435456) % 128);
    }
    if n >= 2097152 {
      p := WriteByte(buffer, p, 128 + (n / 2097152) % 128);
    }
    if n >= 16384 {
      p := WriteByte(buffer, p, 128 + (n / 16384) % 128);
    }
    if n >= 128 {
      p := WriteByte(buffer, p, 128 + (n / 128) % 128);
    }
    p := WriteByte(buffer, p, n % 128);
    assert buffer[..p] == head + Encode(n);
  }

  method WriteByte(buffer: array<Byte>, p0: nat, b: Byte) returns (p: nat)
    requires p0 < buffer.Length
    modifies buffer
    ensures p == p0 + 1 && buffer[..p] == old(buffer[..p0]) + [b]
  {
    buffer[p0] := b;
    p := p0 + 1;
  }

  /** The message of SubmitServicesToMiniSSDPD(): the four strings fit into its 2048 bytes. */
  method BuildMessage(buffer: array<Byte>, parts: seq<Text>) returns (n: nat)
    requires Short(parts) && |Message(parts)| <= buffer.Length
    modifies buffer
    ensures n == |Message(parts)| && buffer[..n] == Message(parts)
  {
    hide Encode;
    n := WriteByte(buffer, 0, 4);
    assert buffer[..0] == [];
    var i := 0;
    assert parts[0..] == parts && [4] + Fields(parts) == Message(parts);
    while i < |parts|
      invariant 0 <= i <= |parts| && n <= buffer.Length
      invariant buffer[..n] + Fields(parts[i..]) == Message(parts)
    {
      var s := parts[i];
      ghost var head, rest := buffer[..n], Fields(parts[i + 1..]);
      assert parts[i..][1..] == parts[i + 1..];
      assert head + (Encode(|s|) + s + rest) == head + Encode(|s|) + s + rest;
      n := WriteLength(buffer, n, |s|);
      forall k | 0 <= k < |s| {
        buffer[n + k] := s[k];
      }
      n := n + |s|;
      assert buffer[..n] == head + Encode(|s|) + s;
      i := i + 1;
    }
    assert buffer[..n] + [] == buffer[..n];
  }
}
