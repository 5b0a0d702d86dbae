/** upnphttp.c: where the headers of a request end, and what ParseHttpHeaders() takes from them. */
module HttpHeaders {
  import opened Net

  // ---- the end of the headers ----

  /** An empty line after a line: CR LF CR LF. */
  predicate EndHere(s: string, i: nat) {
    i + 4 <= |s| && s[i] == '\r' && s[i + 1] == '\n' && s[i + 2] == '\r' && s[i + 3] == '\n'
  }

  ghost predicate FirstEnd(s: string, i: nat) {
    EndHere(s, i) && forall j: nat | j < i :: !EndHere(s, j)
  }

  ghost predicate NoEnd(s: string) {
    forall j: nat :: !EndHere(s, j)
  }

  /** findendheaders() */
  method FindEndHeaders(s: string) returns (r: Option<nat>)
    ensures r.Some? ==> FirstEnd(s, r.value)
    ensures r.None? ==> NoEnd(s)
  {
    var i, len := 0, |s|;
    while len > 3
      invariant len >= 0 && i + len == |s|
      invariant forall j: nat | j < i :: !EndHere(s, j)
      decreases len
    {
      if s[i] == '\r' && s[i + 1] == '\n' && s[i + 2] == '\r' && s[i + 3] == '\n' {
        return Some(i);
      }
      i, len := i + 1, len - 1;
    }
    return None;
  }

  // ---- scanning ----

  /** What a scan stops at. */
  datatype Stop = ColonOrEol | DigitOrEol | NotSeparator | Unprintable | Blank | NotSpace | NotDigit

  predicate IsDigit(c: char) { '0' <= c <= '9' }

  predicate IsSpace(c: char) { c == ' ' || '\t' <= c <= '\r' }

  /** Comparisons are those of a signed char. */
  predicate Stops(stop: Stop, c: char) {
    match stop
    case ColonOrEol => c == ':' || c == '\r' || c == '\n'
    case DigitOrEol => IsDigit(c) || c == '\r' || c == '\n'
    case NotSeparator => c != ':' && c != ' ' && c != '\t'
    case Unprintable => c < ' ' || c as int > 127
    case Blank => c <= ' ' || c as int > 127
    case NotSpace => !IsSpace(c)
    case NotDigit => !IsDigit(c)
  }

  function Scan(s: string, i: nat, stop: Stop): (r: nat)
    ensures i <= r && (i <= |s| ==> r <= |s|)
    ensures forall k | i <= k < r :: k < |s| && !Stops(stop, s[k])
    ensures r < |s| ==> Stops(stop, s[r])
    decreases |s| - i
  {
    if i < |s| && !Stops(stop, s[i]) then Scan(s, i + 1, stop) else i
  }

  /** A scan that meets its stop is the same whatever follows. */
  lemma ScanIs(s: string, i: nat, stop: Stop, r: nat)
    requires i <= r < |s| && Stops(stop, s[r]) && forall k | i <= k < r :: !Stops(stop, s[k])
    ensures Scan(s, i, stop) == r
  {
    var q := Scan(s, i, stop);
    if q < r {
      assert false;
    }
  }

  function Lower(c: char): char {
    if 'A' <= c <= 'Z' then (c as int + 32) as char else c
  }

  /** strncasecmp() of the text at `i` with a name, both ending with the name. */
  predicate Named(s: string, i: nat, name: string) {
    i + |name| <= |s| && forall k | 0 <= k < |name| :: Lower(s[i + k]) == name[k]
  }

  /** Where the first CR LF at or after `i` is. */
  function LineEnd(s: string, i: nat): (r: nat)
    ensures i <= r && (i <= |s| ==> r <= |s|)
    ensures forall k | i <= k < r :: !(k + 1 < |s| && s[k] == '\r' && s[k + 1] == '\n')
    ensures r < |s| ==> r + 1 < |s| && s[r] == '\r' && s[r + 1] == '\n'
    decreases |s| - i
  {
    if i < |s| && !(i + 1 < |s| && s[i] == '\r' && s[i + 1] == '\n') then LineEnd(s, i + 1) else i
  }

  lemma LineEndIs(s: string, i: nat, r: nat)
    requires i <= r && r + 1 < |s| && s[r] == '\r' && s[r + 1] == '\n'
    requires forall k | i <= k < r :: !(s[k] == '\r' && s[k + 1] == '\n')
    ensures LineEnd(s, i) == r
  {}

  // ---- numbers ----

  function DigitValue(c: char): nat
    requires IsDigit(c)
  {
    (c - '0') as nat
  }

  function Digits(s: string, i: nat, acc: nat): nat
    decreases |s| - i
  {
    if i < |s| && IsDigit(s[i]) then Digits(s, i + 1, acc * 10 + DigitValue(s[i])) else acc
  }

  /** The digits after an optional sign. */
  function Signed(s: string, i: nat): int {
    if i < |s| && s[i] == '-' then 0 - Digits(s, i + 1, 0)
    else if i < |s| && s[i] == '+' then Digits(s, i + 1, 0)
    else Digits(s, i, 0)
  }

  /** The value that strtol() returns, cut to 32 bits, and 0 for a negative one. */
  function ToLength(n: int): nat {
    var long := if n > 0x7FFF_FFFF_FFFF_FFFF then 0x7FFF_FFFF_FFFF_FFFF
                else if n < -0x8000_0000_0000_0000 then -0x8000_0000_0000_0000 else n;
    var low := long % 0x1_0000_0000;
    if low < 0x8000_0000 then low else 0
  }

  /** atoi() at `i`: white space, line ends included, is skipped first. */
  function NumberAt(s: string, i: nat): nat {
    ToLength(Signed(s, Scan(s, i, NotSpace)))
  }

  // ---- the headers ----

  /** The headers that matter: where the text of a Content-Length starts, and the others with their lengths. */
  datatype Headers = Headers(lengthAt: Option<nat>, host: Option<(nat, nat)>, soapAction: Option<(nat, int)>, wantsContinue: bool)

  const NO_HEADERS := Headers(None, None, None, false)

  /** A value in quotes loses them. */
  function Unquoted(s: string, p: nat, n: nat): (nat, int)
    requires p + n <= |s|
  {
    if n > 0 && ((s[p] == '"' && s[p + n - 1] == '"') || (s[p] == '\'' && s[p + n - 1] == '\'')) then (p + 1, n - 2)
    else (p, n)
  }

  /** One line of the header block. */
  function ParseLine(s: string, line: nat, h: Headers): Headers
    requires line <= |s|
  {
    var colon := Scan(s, line, ColonOrEol);
    if colon >= |s| || s[colon] != ':' then h
    else if Named(s, line, "content-length:") then h.(lengthAt := Some(Scan(s, colon, DigitOrEol)))
    else
      var p := Scan(s, colon, NotSeparator);
      if Named(s, line, "host:") then h.(host := Some((p, Scan(s, p, Blank) - p)))
      else if Named(s, line, "soapaction:") then h.(soapAction := Some(Unquoted(s, p, Scan(s, p, Unprintable) - p)))
      else if Named(s, line, "expect:") && Named(s, p, "100-continue") then h.(wantsContinue := true)
      else h
  }

  /** The lines from `line` on, up to `off`. */
  function ParseLines(s: string, line: nat, off: nat, h: Headers): Headers
    requires line <= |s| && off <= |s|
    decreases |s| - line
  {
    if line >= off || LineEnd(s, line) + 2 > |s| then h
    else ParseLines(s, LineEnd(s, line) + 2, off, ParseLine(s, line, h))
  }

  function Parsed(s: string, off: nat): Headers
    requires off <= |s|
  {
    ParseLines(s, 0, off, NO_HEADERS)
  }

  /** The Content-Length that the daemon takes from `s`. */
  function Length(s: string, h: Headers): nat {
    if h.lengthAt.Some? then NumberAt(s, h.lengthAt.value) else 0
  }

  method ScanFrom(s: string, i: nat, stop: Stop) returns (r: nat)
    requires i <= |s|
    ensures r == Scan(s, i, stop)
  {
    r := i;
    while r < |s| && !Stops(stop, s[r])
      invariant i <= r <= |s| && Scan(s, i, stop) == Scan(s, r, stop)
    {
      r := r + 1;
    }
  }

  /** ParseHttpHeaders(), called when the headers are known to end at `off`. */
  method ParseHttpHeaders(s: string, off: nat) returns (h: Headers)
    requires off >= 4 && off <= |s| && FirstEnd(s, off - 4)
    ensures h == Parsed(s, off)
  {
    hide Named, ParseLines, Scan, LineEnd;
    h := NO_HEADERS;
    var line := 0;
    while line < off
      invariant LineStart(s, off, line) && Parsed(s, off) == ParseLines(s, line, off, h)
      decreases off - line
    {
      ParseStep(s, line, off, h);
      ghost var start, h0 := line, h;
      var colon := ScanFrom(s, line, ColonOrEol);
      if colon < |s| && s[colon] == ':' {
        if Named(s, line, "content-length:") {
          var p := ScanFrom(s, colon, DigitOrEol);
          h := h.(lengthAt := Some(p));
        } else {
          var p := ScanFrom(s, colon, NotSeparator);
          if Named(s, line, "host:") {
            var end := ScanFrom(s, p, Blank);
            h := h.(host := Some((p, end - p)));
          } else if Named(s, line, "soapaction:") {
            var end := ScanFrom(s, p, Unprintable);
            h := h.(soapAction := Some(Unquoted(s, p, end - p)));
          } else if Named(s, line, "expect:") && Named(s, p, "100-continue") {
            h := h.(wantsContinue := true);
          }
        }
      }
      assert h == ParseLine(s, start, h0);
      while !(s[line] == '\r' && s[line + 1] == '\n')
        invariant start <= line <= LineEnd(s, start) && LineEnd(s, start) + 2 <= off
        decreases LineEnd(s, start) - line
      {
        line := line + 1;
      }
      line := line + 2;
      assert line == LineEnd(s, start) + 2;
    }
    ParseDone(s, line, off, h);
  }

  /** Where a line of the block can start: "the loop below won't run off the end of the buffer". */
  ghost predicate LineStart(s: string, off: nat, line: nat)
    requires 4 <= off <= |s|
  {
    line <= off - 4 || line == off - 2 || line == off
  }

  /** The end of a line is inside the block, and so is the start of the next one. */
  lemma ParseStep(s: string, line: nat, off: nat, h: Headers)
    requires 4 <= off <= |s| && FirstEnd(s, off - 4) && LineStart(s, off, line) && line < off
    ensures var end := LineEnd(s, line);
            line <= end && end + 2 <= off && LineStart(s, off, end + 2) && s[end] == '\r' && s[end + 1] == '\n'
            && (forall k | line <= k < end :: !(s[k] == '\r' && s[k + 1] == '\n'))
            && ParseLines(s, line, off, h) == ParseLines(s, end + 2, off, ParseLine(s, line, h))
  {
    hide ParseLine;
    var e := if line <= off - 4 then off - 4 else off - 2;
    assert s[e] == '\r' && s[e + 1] == '\n';
    assert LineEnd(s, line) <= e;
  }

  lemma ParseDone(s: string, line: nat, off: nat, h: Headers)
    requires off <= line <= |s|
    ensures ParseLines(s, line, off, h) == h
  {}

  // ---- the last header of a name wins ----

  /** Where the lines of the block start. */
  function LineStarts(s: string, line: nat, off: nat): seq<nat>
    requires line <= |s| && off <= |s|
    decreases |s| - line
  {
    if line >= off || LineEnd(s, line) + 2 > |s| then [] else [line] + LineStarts(s, LineEnd(s, line) + 2, off)
  }

  /** The line is a header of that name. */
  predicate IsField(s: string, line: nat, name: string) {
    var colon := Scan(s, line, ColonOrEol);
    colon < |s| && s[colon] == ':' && Named(s, line, name)
  }

  function LastField(s: string, starts: seq<nat>, name: string): (r: Option<nat>)
    ensures r.Some? ==> IsField(s, r.value, name)
    ensures r.Some? <==> exists line :: line in starts && IsField(s, line, name)
  {
    if starts == [] then None
    else
      var n := |starts| - 1;
      if IsField(s, starts[n], name) then assert starts[n] in starts; Some(starts[n])
      else
        assert forall line | line in starts :: line == starts[n] || line in starts[..n];
        LastField(s, starts[..n], name)
  }

  lemma LastFieldStep(s: string, starts: seq<nat>, last: nat, name: string)
    ensures LastField(s, starts + [last], name) == if IsField(s, last, name) then Some(last) else LastField(s, starts, name)
  {
    assert (starts + [last])[..|starts|] == starts;
  }

  lemma {:induction false} LastFieldCons(s: string, line: nat, rest: seq<nat>, name: string)
    ensures LastField(s, [line] + rest, name)
         == if LastField(s, rest, name).Some? then LastField(s, rest, name) else if IsField(s, line, name) then Some(line) else None
    decreases |rest|
  {
    hide LastField, IsField;
    if rest == [] {
      NoFields(s, name);
      LastFieldStep(s, [], line, name);
      assert [line] + [] == [] + [line];
    } else {
      var n := |rest| - 1;
      LastFieldCons(s, line, rest[..n], name);
      LastFieldStep(s, [line] + rest[..n], rest[n], name);
      LastFieldStep(s, rest[..n], rest[n], name);
      assert rest == rest[..n] + [rest[n]] && [line] + rest == [line] + rest[..n] + [rest[n]];
    }
  }

  lemma NoFields(s: string, name: string)
    ensures LastField(s, [], name) == None
  {}

  /** Where the number of a Content-Length is looked for, */
  function LengthText(s: string, line: nat): nat {
    Scan(s, Scan(s, line, ColonOrEol), DigitOrEol)
  }

  /** where the text of another header begins, */
  function TextOf(s: string, line: nat): nat {
    Scan(s, Scan(s, line, ColonOrEol), NotSeparator)
  }

  /** the host with its length, */
  function HostText(s: string, line: nat): (nat, nat) {
    (TextOf(s, line), Scan(s, TextOf(s, line), Blank) - TextOf(s, line))
  }

  /** and the SOAP action without its quotes. */
  function ActionText(s: string, line: nat): (nat, int)
    requires line <= |s|
  {
    Unquoted(s, TextOf(s, line), Scan(s, TextOf(s, line), Unprintable) - TextOf(s, line))
  }

  predicate AsksContinue(s: string, line: nat) {
    IsField(s, line, "expect:") && Named(s, TextOf(s, line), "100-continue")
  }

  lemma LineFields(s: string, line: nat, h: Headers)
    requires line <= |s|
    ensures var r := ParseLine(s, line, h);
            && r.lengthAt == (if IsField(s, line, "content-length:") then Some(LengthText(s, line)) else h.lengthAt)
            && r.host == (if IsField(s, line, "host:") then Some(HostText(s, line)) else h.host)
            && r.soapAction == (if IsField(s, line, "soapaction:") then Some(ActionText(s, line)) else h.soapAction)
            && r.wantsContinue == (h.wantsContinue || AsksContinue(s, line))
  {
    hide Scan, Unquoted, Named;
    OneName(s, line, "content-length:", "host:");
    OneName(s, line, "content-length:", "soapaction:");
    OneName(s, line, "content-length:", "expect:");
    OneName(s, line, "host:", "soapaction:");
    OneName(s, line, "host:", "expect:");
    OneName(s, line, "soapaction:", "expect:");
  }

  lemma OneName(s: string, line: nat, a: string, b: string)
    requires a != "" && b != "" && a[0] != b[0]
    ensures !(Named(s, line, a) && Named(s, line, b))
  {
    if line < |s| {
      assert s[line + 0] == s[line];
    }
  }

  lemma {:induction false} StartsInside(s: string, line: nat, off: nat)
    requires line <= |s| && off <= |s|
    ensures forall l | l in LineStarts(s, line, off) :: l <= |s|
    decreases |s| - line
  {
    if line < off && LineEnd(s, line) + 2 <= |s| {
      StartsInside(s, LineEnd(s, line) + 2, off);
    }
  }

  /** What the headers are, given the lines: what counts is the last line of a name, or what was known before. */
  ghost predicate ByLast(s: string, starts: seq<nat>, h: Headers, r: Headers)
    requires forall l | l in starts :: l <= |s|
  {
    var length, host, action := LastField(s, starts, "content-length:"), LastField(s, starts, "host:"), LastField(s, starts, "soapaction:");
    && r.lengthAt == (if length.Some? then Some(LengthText(s, length.value)) else h.lengthAt)
    && r.host == (if host.Some? then Some(HostText(s, host.value)) else h.host)
    && (action.Some? ==> action.value <= |s|)
    && r.soapAction == (if action.Some? then Some(ActionText(s, action.value)) else h.soapAction)
    && (r.wantsContinue <==> h.wantsContinue || exists l :: l in starts && AsksContinue(s, l))
  }

  lemma ByLastCons(s: string, line: nat, rest: seq<nat>, h: Headers, r: Headers)
    requires line <= |s| && forall l | l in rest :: l <= |s|
    requires ByLast(s, rest, ParseLine(s, line, h), r)
    ensures ByLast(s, [line] + rest, h, r)
  {
    hide ParseLine, Scan, IsField, LastField, LengthText, HostText, ActionText, TextOf, AsksContinue;
    LineFields(s, line, h);
    LastFieldCons(s, line, rest, "content-length:");
    LastFieldCons(s, line, rest, "host:");
    LastFieldCons(s, line, rest, "soapaction:");
    assert forall l :: l in [line] + rest <==> l == line || l in rest;
  }

  lemma ByLastNothing(s: string, h: Headers)
    ensures ByLast(s, [], h, h)
  {}

  lemma {:induction false} LinesByLast(s: string, line: nat, off: nat, h: Headers)
    requires line <= |s| && off <= |s|
    ensures forall l | l in LineStarts(s, line, off) :: l <= |s|
    ensures ByLast(s, LineStarts(s, line, off), h, ParseLines(s, line, off, h))
    decreases |s| - line
  {
    hide ParseLine, ByLast;
    StartsInside(s, line, off);
    if line < off && LineEnd(s, line) + 2 <= |s| {
      var next := LineEnd(s, line) + 2;
      LinesByLast(s, next, off, ParseLine(s, line, h));
      ByLastCons(s, line, LineStarts(s, next, off), h, ParseLines(s, line, off, h));
    } else {
      ByLastNothing(s, h);
    }
  }

  /** What ParseHttpHeaders() finds: of each header the value on the last line of the block that carries its
      name, or none; "Expect: 100-continue" counts on any line. */
  lemma LastHeaderWins(s: string, off: nat)
    requires off <= |s|
    ensures forall l | l in LineStarts(s, 0, off) :: l <= |s|
    ensures ByLast(s, LineStarts(s, 0, off), NO_HEADERS, Parsed(s, off))
  {
    hide ByLast;
    LinesByLast(s, 0, off, NO_HEADERS);
  }

  // ---- what the headers depend on ----

  /** A complete header block: the first empty line ends it. */
  ghost predicate Block(b: string) {
    |b| >= 4 && FirstEnd(b, |b| - 4)
  }

  lemma BlockStays(b: string, t: string)
    requires Block(b)
    ensures FirstEnd(b + t, |b| - 4)
  {
    assert (b + t)[..|b|] == b;
    forall j: nat | j < |b| - 4 ensures !EndHere(b + t, j) {
      assert !EndHere(b, j);
    }
  }

  lemma ScanLocal(b: string, t: string, i: nat, stop: Stop)
    requires Block(b) && i <= |b| - 2 && Stops(stop, '\r')
    ensures Scan(b + t, i, stop) == Scan(b, i, stop) <= |b| - 2
  {
    var r := Scan(b, i, stop);
    assert r <= |b| - 2;
    assert forall k | 0 <= k < |b| :: (b + t)[k] == b[k];
    ScanIs(b + t, i, stop, r);
  }

  lemma NamedLocal(b: string, t: string, i: nat, name: string)
    requires Block(b) && i <= |b| - 2 && '\r' !in name
    ensures Named(b + t, i, name) <==> Named(b, i, name)
  {
    assert forall k | 0 <= k < |b| :: (b + t)[k] == b[k];
    if i + |name| > |b| - 2 {
      var k := |b| - 2 - i;
      assert b[i + k] == '\r' && Lower('\r') == '\r' && name[k] in name;
      assert !Named(b, i, name) && !Named(b + t, i, name);
    }
  }

  lemma UnquotedLocal(b: string, t: string, p: nat, n: nat)
    requires p + n <= |b|
    ensures Unquoted(b + t, p, n) == Unquoted(b, p, n)
  {}

  lemma LineLocal(b: string, t: string, line: nat, h: Headers)
    requires Block(b) && line <= |b| - 2
    ensures ParseLine(b + t, line, h) == ParseLine(b, line, h)
  {
    hide Named, Scan, Block, Lower, Unquoted;
    ScanLocal(b, t, line, ColonOrEol);
    NamedLocal(b, t, line, "content-length:");
    NamedLocal(b, t, line, "host:");
    NamedLocal(b, t, line, "soapaction:");
    NamedLocal(b, t, line, "expect:");
    var colon := Scan(b, line, ColonOrEol);
    assert (b + t)[colon] == b[colon];
    ScanLocal(b, t, colon, DigitOrEol);
    ScanLocal(b, t, colon, NotSeparator);
    var p := Scan(b, colon, NotSeparator);
    ScanLocal(b, t, p, Blank);
    ScanLocal(b, t, p, Unprintable);
    UnquotedLocal(b, t, p, Scan(b, p, Unprintable) - p);
    NamedLocal(b, t, p, "100-continue");
  }

  lemma {:induction false} LinesLocal(b: string, t: string, line: nat, h: Headers)
    requires Block(b) && LineStart(b, |b|, line)
    ensures ParseLines(b + t, line, |b|, h) == ParseLines(b, line, |b|, h)
    decreases |b| - line
  {
    hide ParseLines, ParseLine, LineEnd;
    if line == |b| {
      ParseDone(b, line, |b|, h);
      ParseDone(b + t, line, |b|, h);
    } else {
      BlockStays(b, t);
      ParseStep(b, line, |b|, h);
      ParseStep(b + t, line, |b|, h);
      LineLocal(b, t, line, h);
      SameLineEnd(b, t, line);
      LinesLocal(b, t, LineEnd(b, line) + 2, ParseLine(b, line, h));
    }
  }

  lemma SameLineEnd(b: string, t: string, line: nat)
    requires Block(b) && LineStart(b, |b|, line) && line < |b|
    ensures LineEnd(b + t, line) == LineEnd(b, line)
  {
    ParseStep(b, line, |b|, NO_HEADERS);
    assert forall k | 0 <= k < |b| :: (b + t)[k] == b[k];
    LineEndIs(b + t, line, LineEnd(b, line));
  }

  /** Every header is found, and every value delimited, inside the block, whatever follows it. */
  lemma HeadersAreLocal(b: string, t: string)
    requires Block(b)
    ensures Parsed(b + t, |b|) == Parsed(b, |b|)
  {
    LinesLocal(b, t, 0, NO_HEADERS);
  }

  // ---- the one value that is not ----

  /** The last Content-Length has no number, and only white space follows it in the block. */
  predicate Spills(b: string) {
    var h := Parsed(b, |b|);
    h.lengthAt.Some? && Scan(b, h.lengthAt.value, NotSpace) >= |b|
  }

  lemma {:induction false} DigitsLocal(b: string, t: string, i: nat, acc: nat)
    requires exists k :: i <= k < |b| && !IsDigit(b[k])
    ensures Digits(b + t, i, acc) == Digits(b, i, acc)
    decreases |b| - i
  {
    assert (b + t)[i] == b[i];
    if IsDigit(b[i]) {
      var k :| i <= k < |b| && !IsDigit(b[k]);
      assert k >= i + 1;
      DigitsLocal(b, t, i + 1, acc * 10 + DigitValue(b[i]));
    }
  }

  lemma {:induction false} DigitsShift(b: string, t: string, i: nat, acc: nat)
    ensures Digits(b + t, |b| + i, acc) == Digits(t, i, acc)
    decreases |t| - i
  {
    if i < |t| {
      assert (b + t)[|b| + i] == t[i];
      if IsDigit(t[i]) {
        DigitsShift(b, t, i + 1, acc * 10 + DigitValue(t[i]));
      }
    }
  }

  lemma {:induction false} ScanShift(b: string, t: string, i: nat, stop: Stop)
    ensures Scan(b + t, |b| + i, stop) == |b| + Scan(t, i, stop)
    decreases |t| - i
  {
    if i < |t| {
      assert (b + t)[|b| + i] == t[i];
      if !Stops(stop, t[i]) {
        ScanShift(b, t, i + 1, stop);
      }
    }
  }

  lemma {:induction false} ScanOver(s: string, i: nat, j: nat, stop: Stop)
    requires i <= j <= |s| && forall k | i <= k < j :: !Stops(stop, s[k])
    ensures Scan(s, i, stop) == Scan(s, j, stop)
    decreases j - i
  {
    if i < j {
      ScanOver(s, i + 1, j, stop);
    }
  }

  /** A number that starts inside the block also ends there. */
  lemma NumberLocal(b: string, t: string, i: nat)
    requires Block(b) && i <= |b| && Scan(b, i, NotSpace) < |b|
    ensures NumberAt(b + t, i) == NumberAt(b, i)
  {
    hide ToLength, Digits, Scan;
    var q := Scan(b, i, NotSpace);
    assert forall k | 0 <= k < |b| :: (b + t)[k] == b[k];
    ScanIs(b + t, i, NotSpace, q);
    assert b[|b| - 2] == '\r' && b[|b| - 1] == '\n' && !IsDigit('\r');
    assert q < |b| - 2;
    DigitsLocal(b, t, q, 0);
    DigitsLocal(b, t, q + 1, 0);
  }

  lemma SignedShift(b: string, t: string, q: nat)
    requires q <= |t|
    ensures Signed(b + t, |b| + q) == Signed(t, q)
  {
    hide Digits;
    if q < |t| {
      assert (b + t)[|b| + q] == t[q];
    }
    DigitsShift(b, t, q, 0);
    DigitsShift(b, t, q + 1, 0);
  }

  /** With only white space left in the block, the number is read from what follows. */
  lemma NumberSpills(b: string, t: string, i: nat)
    requires i <= |b| && Scan(b, i, NotSpace) >= |b|
    ensures NumberAt(b + t, i) == NumberAt(t, 0)
  {
    hide ToLength, Signed, Scan;
    forall k | i <= k < |b| ensures !Stops(NotSpace, (b + t)[k]) {
      assert (b + t)[k] == b[k];
    }
    ScanOver(b + t, i, |b|, NotSpace);
    ScanShift(b, t, 0, NotSpace);
    SignedShift(b, t, Scan(t, 0, NotSpace));
  }

  /** The Content-Length is the block's own unless it spills, and then it is the number that the bytes
      after the block start with, as far as they have arrived. */
  lemma LengthOf(b: string, t: string)
    requires Block(b)
    ensures Length(b + t, Parsed(b + t, |b|)) == if Spills(b) then NumberAt(t, 0) else Length(b, Parsed(b, |b|))
    ensures Spills(b) ==> Length(b, Parsed(b, |b|)) == 0
  {
    hide Parsed, NumberAt, Block;
    HeadersAreLocal(b, t);
    var h := Parsed(b, |b|);
    if h.lengthAt.Some? {
      ParsedInBounds(b, |b|);
      if Spills(b) {
        NumberSpills(b, t, h.lengthAt.value);
        NumberSpills(b, "", h.lengthAt.value);
        assert b + "" == b;
        NothingIsZero();
      } else {
        NumberLocal(b, t, h.lengthAt.value);
      }
    }
  }

  lemma NothingIsZero()
    ensures NumberAt("", 0) == 0
  {}

  /** Every header recorded lies inside the text. */
  predicate InBounds(s: string, h: Headers) {
    && (h.lengthAt.Some? ==> h.lengthAt.value <= |s|)
    && (h.host.Some? ==> h.host.value.0 + h.host.value.1 <= |s|)
    && (h.soapAction.Some? ==> h.soapAction.value.0 <= |s| && h.soapAction.value.0 + h.soapAction.value.1 <= |s|)
  }

  lemma LineInBounds(s: string, line: nat, h: Headers)
    requires line <= |s| && InBounds(s, h)
    ensures InBounds(s, ParseLine(s, line, h))
  {
    hide Named;
  }

  lemma {:induction false} LinesInBounds(s: string, line: nat, off: nat, h: Headers)
    requires line <= |s| && off <= |s| && InBounds(s, h)
    ensures InBounds(s, ParseLines(s, line, off, h))
    decreases |s| - line
  {
    hide ParseLine, InBounds;
    if line < off && LineEnd(s, line) + 2 <= |s| {
      LineInBounds(s, line, h);
      LinesInBounds(s, LineEnd(s, line) + 2, off, ParseLine(s, line, h));
    }
  }

  lemma ParsedInBounds(s: string, off: nat)
    requires off <= |s|
    ensures InBounds(s, Parsed(s, off))
  {
    LinesInBounds(s, 0, off, NO_HEADERS);
  }
}
