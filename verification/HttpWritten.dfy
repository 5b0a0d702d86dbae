/** Requests as a control point writes them, and what the daemon makes of them: header names in any
    spelling, values, the length of the body, and the SOAP action that is run. */
module HttpWritten {
  import opened Net
  import opened HttpHeaders
  import opened Http

  datatype Field = Field(name: string, value: string)

  function FieldText(f: Field): string {
    f.name + (": " + (f.value + "\r\n"))
  }

  function FieldsText(fs: seq<Field>): string {
    if fs == [] then "" else FieldText(fs[0]) + FieldsText(fs[1..])
  }

  /** A request line, header fields and an empty line. */
  function BlockText(start: string, fs: seq<Field>): string {
    start + ("\r\n" + (FieldsText(fs) + "\r\n"))
  }

  /** `a` is the small letter `b`, or its capital. */
  predicate SameLetter(a: char, b: char) {
    a == b || ('a' <= b <= 'z' && a as int + 32 == b as int)
  }

  /** A spelling of a name in small letters and capitals. */
  predicate Spelled(text: string, name: string) {
    |text| == |name| && forall i | 0 <= i < |name| :: SameLetter(text[i], name[i])
  }

  predicate Separator(c: char) { c == ':' || c == ' ' || c == '\t' }

  predicate Printable(c: char) { ' ' <= c && c as int <= 127 }

  /** A header field that is one line; its value begins with its first character that is no separator. */
  predicate GoodField(f: Field) {
    && (forall c | c in f.name :: c != ':' && c != '\r' && c != '\n')
    && (forall c | c in f.value :: Printable(c))
    && (f.value != "" ==> !Separator(f.value[0]))
  }

  predicate GoodFields(fs: seq<Field>) {
    forall f | f in fs :: GoodField(f)
  }

  /** The text begins with a spelling of the name. */
  predicate Begins(text: string, name: string) {
    |name| <= |text| && Spelled(text[..|name|], name)
  }

  /** A request line is one line, and none of the headers that are looked for. */
  predicate GoodStart(start: string) {
    && '\r' !in start && '\n' !in start
    && !Begins(start, "content-length:") && !Begins(start, "host:") && !Begins(start, "soapaction:") && !Begins(start, "expect:")
  }

  /** The value of the last field of a name. */
  function LastValue(fs: seq<Field>, name: string): Option<string> {
    if fs == [] then None
    else
      var n := |fs| - 1;
      if Spelled(fs[n].name, name) then Some(fs[n].value) else LastValue(fs[..n], name)
  }

  lemma LastValueStep(fs: seq<Field>, f: Field, name: string)
    ensures LastValue(fs + [f], name) == if Spelled(f.name, name) then Some(f.value) else LastValue(fs, name)
  {
    assert (fs + [f])[..|fs|] == fs;
  }

  /** A value in quotes loses them. */
  function StripQuotes(v: string): string {
    if v != "" && v[0] == v[|v| - 1] && (v[0] == '"' || v[0] == '\'') then
      if |v| == 1 then "" else v[1..|v| - 1]
    else v
  }

  predicate AsksForContinue(f: Field) {
    Spelled(f.name, "expect") && Begins(f.value, "100-continue")
  }

  // ---- text in the buffer ----

  predicate Placed(s: string, p: nat, text: string) {
    p + |text| <= |s| && s[p..p + |text|] == text
  }

  lemma PlacedSplit(s: string, p: nat, a: string, b: string)
    requires Placed(s, p, a + b)
    ensures Placed(s, p, a) && Placed(s, p + |a|, b) && p + |a| + |b| <= |s|
  {
    assert s[p..p + |a|] == s[p..p + |a + b|][..|a|];
    assert s[p + |a|..p + |a| + |b|] == s[p..p + |a + b|][|a|..];
  }

  lemma PlacedChars(s: string, p: nat, text: string)
    requires Placed(s, p, text)
    ensures p + |text| <= |s|
    ensures forall k | p <= k < p + |text| :: s[k] == text[k - p] && s[k] in text
  {
    forall k | p <= k < p + |text| ensures s[k] == text[k - p] {
      assert s[p..p + |text|][k - p] == s[k];
    }
  }

  // ---- one line ----

  /** strncasecmp() against a text that is in the buffer, and the character behind it. */
  lemma NamedText(s: string, p: nat, text: string, name: string)
    requires Placed(s, p, text) && p + |text| < |s|
    requires s[p + |text|] !in name && !('A' <= s[p + |text|] <= 'Z')
    requires forall c | c in name :: !('A' <= c <= 'Z')
    ensures Named(s, p, name) <==> Begins(text, name)
  {
    PlacedChars(s, p, text);
    if |name| <= |text| {
      assert forall k | 0 <= k < |name| :: s[p + k] == text[..|name|][k] && name[k] in name;
    } else {
      assert name[|text|] in name;
    }
  }

  /** The name of a field, up to its colon. */
  lemma FieldNamed(s: string, p: nat, f: Field, name: string)
    requires GoodField(f) && Placed(s, p, f.name + ": ")
    requires forall c | c in name :: c == '-' || 'a' <= c <= 'z'
    ensures Named(s, p, name + ":") <==> Spelled(f.name, name)
  {
    var text := f.name + ":";
    assert f.name + ": " == text + " ";
    PlacedSplit(s, p, text, " ");
    PlacedChars(s, p + |text|, " ");
    NamedText(s, p, text, name + ":");
    if |name| + 1 <= |text| {
      var cut := text[..|name| + 1];
      assert cut[..|name|] == f.name[..|name|];
      if |name| < |f.name| {
        assert cut[|name|] == f.name[|name|] && f.name[|name|] in f.name && (name + ":")[|name|] == ':';
      } else {
        assert cut == f.name + ":";
        assert forall i | 0 <= i < |name| :: (f.name + ":")[i] == f.name[i] && (name + ":")[i] == name[i];
      }
    }
  }

  /** The characters of a field line: name, colon, blank, value, end. */
  ghost predicate FieldAt(s: string, p: nat, c: nat, e: nat) {
    && p <= c && c + 2 <= e && e + 2 <= |s|
    && (forall k | p <= k < c :: s[k] != ':' && s[k] != '\r' && s[k] != '\n')
    && s[c] == ':' && s[c + 1] == ' ' && s[e] == '\r' && s[e + 1] == '\n'
    && (forall k | c + 2 <= k < e :: Printable(s[k]))
    && (c + 2 < e ==> !Separator(s[c + 2]))
  }

  lemma FieldParts(s: string, p: nat, f: Field)
    requires Placed(s, p, FieldText(f))
    ensures var c := p + |f.name|;
            && Placed(s, p, f.name + ": ") && Placed(s, p, f.name) && Placed(s, c, ": ")
            && Placed(s, c + 2, f.value) && Placed(s, c + 2 + |f.value|, "\r\n")
            && |FieldText(f)| == |f.name| + |f.value| + 4
  {
    hide Placed;
    assert FieldText(f) == (f.name + ": ") + (f.value + "\r\n");
    PlacedSplit(s, p, f.name + ": ", f.value + "\r\n");
    PlacedSplit(s, p, f.name, ": ");
    PlacedSplit(s, p + |f.name| + 2, f.value, "\r\n");
  }

  lemma FieldChars(s: string, p: nat, f: Field)
    requires GoodField(f) && Placed(s, p, FieldText(f))
    ensures FieldAt(s, p, p + |f.name|, p + |f.name| + 2 + |f.value|)
  {
    hide Placed;
    var c := p + |f.name|;
    var v := c + 2;
    FieldParts(s, p, f);
    hide FieldText;
    PlacedChars(s, p, f.name);
    PlacedChars(s, c, ": ");
    PlacedChars(s, v, f.value);
    PlacedChars(s, v + |f.value|, "\r\n");
  }

  /** Where the scans of a field line stop. */
  lemma FieldScans(s: string, p: nat, c: nat, e: nat)
    requires FieldAt(s, p, c, e)
    ensures LineEnd(s, p) == e
    ensures Scan(s, p, ColonOrEol) == c
    ensures TextOf(s, p) == c + 2
    ensures Scan(s, c + 2, Unprintable) == e
    ensures (forall k | c + 2 <= k < e :: s[k] != ' ') ==> Scan(s, c + 2, Blank) == e
    ensures c + 2 < e && IsDigit(s[c + 2]) ==> LengthText(s, p) == c + 2
  {
    hide Scan;
    LineEndIs(s, p, e);
    ScanIs(s, p, ColonOrEol, c);
    ScanIs(s, c, NotSeparator, c + 2);
    ScanIs(s, c + 2, Unprintable, e);
    if forall k | c + 2 <= k < e :: s[k] != ' ' {
      ScanIs(s, c + 2, Blank, e);
    }
    if c + 2 < e && IsDigit(s[c + 2]) {
      ScanIs(s, c, DigitOrEol, c + 2);
    }
  }

  // ---- what is known after some lines ----

  /** `part` is the text that the daemon takes from `p` on, `n` characters long; a negative length is none. */
  predicate Taken(s: string, p: nat, n: int, part: string) {
    if n < 0 then part == "" else n == |part| && Placed(s, p, part)
  }

  /** The headers found are those of the last field of each name. */
  ghost predicate Describes(s: string, h: Headers, fs: seq<Field>) {
    var length, host, action := LastValue(fs, "content-length"), LastValue(fs, "host"), LastValue(fs, "soapaction");
    && (h.lengthAt.None? <==> length.None?)
    && (length.Some? && length.value != "" && IsDigit(length.value[0]) ==> Placed(s, h.lengthAt.value, length.value + "\r"))
    && (h.host.None? <==> host.None?)
    && (host.Some? && ' ' !in host.value ==> h.host.value.0 > 0 && Taken(s, h.host.value.0, h.host.value.1, host.value))
    && (h.soapAction.None? <==> action.None?)
    && (action.Some? ==> Taken(s, h.soapAction.value.0, h.soapAction.value.1, StripQuotes(action.value)))
    && (h.wantsContinue <==> exists f :: f in fs && AsksForContinue(f))
  }

  lemma UnquotedTaken(s: string, p: nat, v: string)
    requires Placed(s, p, v)
    ensures p + |v| <= |s|
    ensures var (q, n) := Unquoted(s, p, |v|); Taken(s, q, n, StripQuotes(v))
  {
    PlacedChars(s, p, v);
    if |v| > 1 {
      assert s[p + 1..p + 1 + (|v| - 2)] == v[1..|v| - 1];
    }
  }

  lemma LengthPlaced(s: string, p: nat, f: Field)
    requires GoodField(f) && Placed(s, p, FieldText(f))
    ensures Placed(s, p + |f.name| + 2, f.value + "\r")
  {
    assert FieldText(f) == (f.name + ": ") + ((f.value + "\r") + "\n");
    PlacedSplit(s, p, f.name + ": ", (f.value + "\r") + "\n");
    PlacedSplit(s, p + |f.name| + 2, f.value + "\r", "\n");
  }

  /** What is found on the line of a field. */
  lemma FieldFound(s: string, p: nat, f: Field)
    requires GoodField(f) && Placed(s, p, FieldText(f))
    ensures p <= |s| && LineEnd(s, p) == p + |FieldText(f)| - 2
    ensures IsField(s, p, "content-length:") <==> Spelled(f.name, "content-length")
    ensures IsField(s, p, "host:") <==> Spelled(f.name, "host")
    ensures IsField(s, p, "soapaction:") <==> Spelled(f.name, "soapaction")
    ensures AsksContinue(s, p) <==> AsksForContinue(f)
    ensures f.value != "" && IsDigit(f.value[0]) ==> Placed(s, LengthText(s, p), f.value + "\r")
    ensures ' ' !in f.value ==> HostText(s, p).0 > 0 && Taken(s, HostText(s, p).0, HostText(s, p).1, f.value)
    ensures Taken(s, ActionText(s, p).0, ActionText(s, p).1, StripQuotes(f.value))
  {
    hide Placed, Scan, Spelled, Named, StripQuotes, Unquoted, LineEnd;
    var c := p + |f.name|;
    var e := c + 2 + |f.value|;
    FieldParts(s, p, f);
    FieldChars(s, p, f);
    FieldScans(s, p, c, e);
    FieldNamed(s, p, f, "content-length");
    FieldNamed(s, p, f, "host");
    FieldNamed(s, p, f, "soapaction");
    FieldNamed(s, p, f, "expect");
    PlacedChars(s, c + 2, f.value);
    NamedText(s, c + 2, f.value, "100-continue");
    LengthPlaced(s, p, f);
    UnquotedTaken(s, c + 2, f.value);
    assert "content-length" + ":" == "content-length:" && "host" + ":" == "host:";
    assert "soapaction" + ":" == "soapaction:" && "expect" + ":" == "expect:";
  }

  /** A field line brings its own header up to date, and no other. */
  lemma DescribesStep(s: string, h: Headers, before: seq<Field>, p: nat, f: Field)
    requires Describes(s, h, before) && GoodField(f) && Placed(s, p, FieldText(f))
    ensures p <= |s| && Describes(s, ParseLine(s, p, h), before + [f])
  {
    hide ParseLine, Placed, Taken, Spelled, LastValue, IsField, AsksContinue, AsksForContinue, LengthText, HostText, ActionText, StripQuotes, GoodField, FieldText;
    FieldFound(s, p, f);
    LineFields(s, p, h);
    LastValueStep(before, f, "content-length");
    LastValueStep(before, f, "host");
    LastValueStep(before, f, "soapaction");
  }

  lemma ParseLinesStep(s: string, line: nat, off: nat, h: Headers)
    requires line < off <= |s| && LineEnd(s, line) + 2 <= |s|
    ensures ParseLines(s, line, off, h) == ParseLines(s, LineEnd(s, line) + 2, off, ParseLine(s, line, h))
  {
    hide ParseLine, LineEnd;
  }

  /** The empty line at the end. */
  lemma LastLine(s: string, p: nat, h: Headers)
    requires Placed(s, p, "\r\n")
    ensures p + 2 <= |s| && ParseLines(s, p, p + 2, h) == h
  {
    PlacedChars(s, p, "\r\n");
    LineEndIs(s, p, p);
    ScanIs(s, p, ColonOrEol, p);
    ParseLinesStep(s, p, p + 2, h);
    ParseDone(s, p + 2, p + 2, h);
  }

  /** The first of some fields, and the others behind it. */
  lemma FieldsSplit(s: string, p: nat, fs: seq<Field>)
    requires fs != [] && GoodFields(fs) && Placed(s, p, FieldsText(fs) + "\r\n")
    ensures GoodField(fs[0]) && GoodFields(fs[1..])
    ensures Placed(s, p, FieldText(fs[0])) && Placed(s, p + |FieldText(fs[0])|, FieldsText(fs[1..]) + "\r\n")
    ensures |FieldsText(fs)| == |FieldText(fs[0])| + |FieldsText(fs[1..])|
    ensures |FieldText(fs[0])| >= 4 && p + |FieldsText(fs)| + 2 <= |s|
  {
    hide Placed, GoodField;
    var f, rest := fs[0], fs[1..];
    assert f in fs && forall x | x in rest :: x in fs;
    PlacedChars(s, p, FieldsText(fs) + "\r\n");
    assert FieldsText(fs) + "\r\n" == FieldText(f) + (FieldsText(rest) + "\r\n");
    PlacedSplit(s, p, FieldText(f), FieldsText(rest) + "\r\n");
  }

  lemma NoFieldsText()
    ensures FieldsText([]) + "\r\n" == "\r\n"
  {}

  lemma {:induction false} FieldsDescribed(s: string, h: Headers, before: seq<Field>, p: nat, fs: seq<Field>)
    requires Describes(s, h, before) && GoodFields(fs) && Placed(s, p, FieldsText(fs) + "\r\n")
    ensures var off := p + |FieldsText(fs)| + 2;
            off <= |s| && Describes(s, ParseLines(s, p, off, h), before + fs)
    decreases |fs|
  {
    hide Describes, Placed, ParseLine, ParseLines, LineEnd, GoodField, GoodFields, FieldText, FieldsText,
         IsField, AsksContinue, LengthText, HostText, ActionText, Spelled, Taken, StripQuotes;
    if fs == [] {
      NoFieldsText();
      assert before + fs == before;
      LastLine(s, p, h);
    } else {
      FieldsSplit(s, p, fs);
      var q, off := p + |FieldText(fs[0])|, p + |FieldsText(fs)| + 2;
      DescribesStep(s, h, before, p, fs[0]);
      FieldFound(s, p, fs[0]);
      ParseLinesStep(s, p, off, h);
      FieldsDescribed(s, ParseLine(s, p, h), before + [fs[0]], q, fs[1..]);
      assert before + [fs[0]] + fs[1..] == before + fs;
    }
  }

  lemma NoHeader(s: string, start: string, h: Headers)
    requires GoodStart(start) && Placed(s, 0, start) && |start| < |s| && s[|start|] == '\r'
    ensures ParseLine(s, 0, h) == h
  {
    hide Scan, Named, ParseLine, LengthText, HostText, ActionText, Placed, Begins;
    NamedText(s, 0, start, "content-length:");
    NamedText(s, 0, start, "host:");
    NamedText(s, 0, start, "soapaction:");
    NamedText(s, 0, start, "expect:");
    LineFields(s, 0, h);
  }

  /** The request line is no header. */
  lemma StartLine(s: string, start: string, h: Headers)
    requires GoodStart(start) && Placed(s, 0, start + "\r\n")
    ensures |start| + 2 <= |s| && LineEnd(s, 0) == |start| && ParseLine(s, 0, h) == h
  {
    hide Scan, ParseLine, Placed, LineEnd, Begins;
    PlacedSplit(s, 0, start, "\r\n");
    PlacedChars(s, 0, start);
    PlacedChars(s, |start|, "\r\n");
    LineEndIs(s, 0, |start|);
    NoHeader(s, start, h);
  }

  // ---- the end of the block ----

  lemma {:induction false} EndIsLast(s: string, p: nat, fs: seq<Field>, j: nat)
    requires p >= 2 && GoodFields(fs) && Placed(s, p, FieldsText(fs) + "\r\n")
    requires s[p - 2] == '\r' && s[p - 1] == '\n' && p - 2 <= j < p + |FieldsText(fs)| - 2
    ensures !EndHere(s, j)
    decreases |fs|
  {
    hide Placed, GoodField, FieldText;
    var f, rest := fs[0], fs[1..];
    assert f in fs && forall x | x in rest :: x in fs;
    var e := p + |f.name| + 2 + |f.value|;
    assert FieldsText(fs) + "\r\n" == FieldText(f) + (FieldsText(rest) + "\r\n");
    PlacedSplit(s, p, FieldText(f), FieldsText(rest) + "\r\n");
    FieldParts(s, p, f);
    FieldChars(s, p, f);
    if j < e {
      assert s[j] != '\r' || (j == p - 2 && s[j + 2] != '\r');
    } else {
      EndIsLast(s, e + 2, rest, j);
    }
  }

  lemma BlockParts(start: string, fs: seq<Field>, t: string)
    ensures var s, p := BlockText(start, fs) + t, |start| + 2;
            && Placed(s, 0, start + "\r\n") && Placed(s, p, FieldsText(fs) + "\r\n")
            && |BlockText(start, fs)| == p + |FieldsText(fs)| + 2 <= |s|
  {
    hide Placed, FieldsText;
    var s, rest := BlockText(start, fs) + t, FieldsText(fs) + "\r\n";
    assert s == (start + "\r\n") + (rest + t);
    WholePlaced(s);
    PlacedSplit(s, 0, start + "\r\n", rest + t);
    PlacedSplit(s, |start| + 2, rest, t);
  }

  lemma WholePlaced(s: string)
    ensures Placed(s, 0, s)
  {}

  lemma NoEarlierEnd(start: string, fs: seq<Field>, j: nat)
    requires GoodStart(start) && GoodFields(fs) && j < |BlockText(start, fs)| - 4
    ensures !EndHere(BlockText(start, fs), j)
  {
    var s, p := BlockText(start, fs), |start| + 2;
    hide Placed, FieldsText, BlockText, EndHere, GoodFields;
    assert s + "" == s;
    BlockParts(start, fs, "");
    PlacedSplit(s, 0, start, "\r\n");
    PlacedChars(s, 0, start);
    PlacedChars(s, |start|, "\r\n");
    if j < |start| {
      assert s[j] in start;
      EndStarts(s, j);
    } else {
      EndIsLast(s, p, fs, j);
    }
  }

  lemma EndStarts(s: string, j: nat)
    ensures EndHere(s, j) ==> j + 4 <= |s| && s[j] == '\r'
  {}

  lemma LineBreak(s: string, p: nat)
    requires Placed(s, p, "\r\n")
    ensures p + 2 <= |s| && s[p] == '\r' && s[p + 1] == '\n'
  {
    PlacedChars(s, p, "\r\n");
  }

  lemma EndIsThere(start: string, fs: seq<Field>)
    ensures var s := BlockText(start, fs); |s| >= 4 && EndHere(s, |s| - 4)
  {
    var s, p := BlockText(start, fs), |start| + 2;
    hide Placed, FieldsText, BlockText, EndHere;
    assert s + "" == s;
    BlockParts(start, fs, "");
    PlacedSplit(s, 0, start, "\r\n");
    PlacedSplit(s, p, FieldsText(fs), "\r\n");
    LineBreak(s, |start|);
    LineBreak(s, |s| - 2);
    BeforeEnd(s, p, fs);
    EndStands(s, |s| - 4);
  }

  /** The header block as written is the one that is found. */
  lemma WrittenIsBlock(start: string, fs: seq<Field>)
    requires GoodStart(start) && GoodFields(fs)
    ensures Block(BlockText(start, fs))
  {
    var s := BlockText(start, fs);
    hide BlockText, EndHere, GoodFields, GoodStart;
    EndIsThere(start, fs);
    forall j: nat | j < |s| - 4 ensures !EndHere(s, j) {
      NoEarlierEnd(start, fs, j);
    }
  }

  lemma EndStands(s: string, j: nat)
    requires j + 4 <= |s| && s[j] == '\r' && s[j + 1] == '\n' && s[j + 2] == '\r' && s[j + 3] == '\n'
    ensures EndHere(s, j)
  {}

  lemma {:induction false} BeforeEnd(s: string, p: nat, fs: seq<Field>)
    requires p >= 2 && Placed(s, p, FieldsText(fs) + "\r\n") && s[p - 2] == '\r' && s[p - 1] == '\n'
    ensures var e := p + |FieldsText(fs)|; e <= |s| && s[e - 2] == '\r' && s[e - 1] == '\n'
    decreases |fs|
  {
    hide Placed, FieldText;
    PlacedChars(s, p, FieldsText(fs) + "\r\n");
    if fs != [] {
      var f, rest := fs[0], fs[1..];
      assert FieldsText(fs) + "\r\n" == FieldText(f) + (FieldsText(rest) + "\r\n");
      PlacedSplit(s, p, FieldText(f), FieldsText(rest) + "\r\n");
      FieldParts(s, p, f);
      PlacedChars(s, p + |FieldText(f)| - 2, "\r\n");
      BeforeEnd(s, p + |FieldText(f)|, rest);
    }
  }

  /** The headers found in a written block, whatever follows it, are those of the last field of each name. */
  lemma WrittenIsFound(start: string, fs: seq<Field>, t: string)
    requires GoodStart(start) && GoodFields(fs)
    ensures var b := BlockText(start, fs);
            Describes(b + t, Parsed(b + t, |b|), fs)
  {
    hide Placed, Describes, ParseLine, ParseLines, LineEnd, FieldsText, GoodField, GoodStart;
    var b := BlockText(start, fs);
    var s, p := b + t, |start| + 2;
    BlockParts(start, fs, t);
    StartLine(s, start, NO_HEADERS);
    ParseLinesStep(s, 0, |b|, NO_HEADERS);
    NothingDescribed(s);
    FieldsDescribed(s, NO_HEADERS, [], p, fs);
    assert [] + fs == fs;
  }

  lemma NothingDescribed(s: string)
    ensures Describes(s, NO_HEADERS, [])
  {}

  // ---- the length of the body ----

  predicate AllDigits(t: string) {
    forall c | c in t :: IsDigit(c)
  }

  /** The digits of `t` behind a number `acc`. */
  function Value(t: string, acc: nat): nat
    requires AllDigits(t)
  {
    if t == "" then acc else assert t[0] in t; assert forall c | c in t[1..] :: c in t; Value(t[1..], acc * 10 + DigitValue(t[0]))
  }

  lemma {:induction false} ValueSnoc(t: string, c: char, acc: nat)
    requires AllDigits(t) && IsDigit(c)
    ensures AllDigits(t + [c]) && Value(t + [c], acc) == Value(t, acc) * 10 + DigitValue(c)
  {
    if t != "" {
      assert (t + [c])[1..] == t[1..] + [c] && t[0] in t;
      assert forall x | x in t[1..] :: x in t;
      ValueSnoc(t[1..], c, acc * 10 + DigitValue(t[0]));
    } else {
      assert t + [c] == [c] && [c][1..] == "";
    }
  }

  lemma {:induction false} ValueOfDecimal(n: nat)
    ensures AllDigits(Decimal(n)) && Value(Decimal(n), 0) == n
  {
    if n >= 10 {
      ValueOfDecimal(n / 10);
      ValueSnoc(Decimal(n / 10), DigitChar(n % 10), 0);
    } else {
      ValueSnoc("", DigitChar(n), 0);
      assert "" + [DigitChar(n)] == Decimal(n);
    }
  }

  lemma PlacedInside(s: string, p: nat, text: string)
    requires Placed(s, p, text)
    ensures p + |text| <= |s|
  {}

  lemma {:induction false} DigitsAreValue(s: string, i: nat, t: string, acc: nat)
    requires AllDigits(t) && Placed(s, i, t) && i + |t| < |s| && !IsDigit(s[i + |t|])
    ensures Digits(s, i, acc) == Value(t, acc)
    decreases |t|
  {
    hide Placed;
    if t == "" {
      PlacedInside(s, i, t);
    } else {
      PlacedChars(s, i, t);
      assert forall c | c in t[1..] :: c in t;
      assert t == [t[0]] + t[1..];
      PlacedSplit(s, i, [t[0]], t[1..]);
      DigitsAreValue(s, i + 1, t[1..], acc * 10 + DigitValue(t[0]));
    }
  }

  /** atoi() of a number below 2^31 in decimal digits is that number. */
  lemma NumberRead(s: string, i: nat, n: nat)
    requires n < 0x8000_0000 && Placed(s, i, Decimal(n) + "\r")
    ensures NumberAt(s, i) == n
  {
    AnyNumberRead(s, i, n);
  }

  /** Any other is cut to 32 bits, and counts as 0 if that is negative; from 2^63 on it always does. */
  lemma AnyNumberRead(s: string, i: nat, n: nat)
    requires Placed(s, i, Decimal(n) + "\r")
    ensures var low := n % 0x1_0000_0000;
            NumberAt(s, i) == if n >= 0x8000_0000_0000_0000 || low >= 0x8000_0000 then 0 else low
  {
    hide Digits, Value, Placed, Decimal;
    var t := Decimal(n);
    ValueOfDecimal(n);
    PlacedSplit(s, i, t, "\r");
    PlacedChars(s, i, t);
    PlacedChars(s, i + |t|, "\r");
    DigitsAreValue(s, i, t, 0);
    ScanIs(s, i, NotSpace, i);
  }

  lemma LengthRead(s: string, h: Headers, fs: seq<Field>, n: nat)
    requires Describes(s, h, fs) && n < 0x8000_0000
    ensures LastValue(fs, "content-length") == None ==> Length(s, h) == 0
    ensures LastValue(fs, "content-length") == Some(Decimal(n)) ==> Length(s, h) == n
  {
    hide NumberAt, Placed, Decimal;
    if LastValue(fs, "content-length") == Some(Decimal(n)) {
      assert Decimal(n)[0] in Decimal(n);
      NumberRead(s, h.lengthAt.value, n);
    }
  }

  // ---- what the daemon makes of a written request ----

  /** The text of the Host header, if there is one. */
  function HostOf(s: string, h: Headers): Option<string>
    requires InBounds(s, h)
  {
    if h.host.None? then None else Some(s[h.host.value.0..h.host.value.0 + h.host.value.1])
  }

  /** From a written block the daemon takes, whatever follows it and however the names are spelled: the length
      of the body, the host, the SOAP action without its quotes, and whether a 100 Continue is asked for; of
      each name the last field counts. */
  lemma WrittenHeaders(start: string, fs: seq<Field>, t: string, n: nat)
    requires GoodStart(start) && GoodFields(fs) && n < 0x8000_0000
    ensures var b := BlockText(start, fs);
            var s, h := b + t, Parsed(b + t, |b|);
            var length, host, action := LastValue(fs, "content-length"), LastValue(fs, "host"), LastValue(fs, "soapaction");
            && InBounds(s, h)
            && (length == None ==> Length(s, h) == 0)
            && (length == Some(Decimal(n)) ==> Length(s, h) == n)
            && (host == None || ' ' !in host.value ==> HostOf(s, h) == host)
            && (h.soapAction.Some? <==> action.Some?)
            && (action.Some? ==> ActionOf(s, h) == StripQuotes(action.value))
            && (h.wantsContinue <==> exists f :: f in fs && AsksForContinue(f))
  {
    hide Parsed, BlockText, LastValue, Decimal, AsksForContinue, StripQuotes, Length;
    var b := BlockText(start, fs);
    var s, h := b + t, Parsed(b + t, |b|);
    ParsedInBounds(s, |b|);
    WrittenIsFound(start, fs, t);
    LengthRead(s, h, fs, n);
  }

  /** An address, or a bracketed one. */
  predicate AddressText(v: string) {
    v == "" || (if v[0] == '[' then ']' in v else forall c | c in v :: c == ':' || c == '.' || '0' <= c <= '9')
  }

  /** A Host without blanks is refused exactly if it is no address. */
  lemma HostRefusedIff(start: string, fs: seq<Field>, t: string)
    requires GoodStart(start) && GoodFields(fs)
    requires LastValue(fs, "host").Some? ==> ' ' !in LastValue(fs, "host").value
    ensures var b := BlockText(start, fs);
            && InBounds(b + t, Parsed(b + t, |b|))
            && (HostRefused(b + t, Parsed(b + t, |b|).host)
                <==> LastValue(fs, "host").Some? && !AddressText(LastValue(fs, "host").value))
  {
    hide Parsed, BlockText, LastValue;
    var b := BlockText(start, fs);
    var s, h := b + t, Parsed(b + t, |b|);
    ParsedInBounds(s, |b|);
    WrittenIsFound(start, fs, t);
    if LastValue(fs, "host").Some? {
      RefusedText(s, h.host.value.0, h.host.value.1, LastValue(fs, "host").value);
    }
  }

  lemma RefusedText(s: string, off: nat, len: nat, v: string)
    requires off > 0 && Taken(s, off, len, v)
    ensures off + len <= |s| && (HostRefused(s, Some((off, len))) <==> !AddressText(v))
  {
    PlacedChars(s, off, v);
    if v != "" {
      assert s[off + 1..off + len] == v[1..];
      assert ']' in v <==> v[0] == ']' || ']' in v[1..];
      assert forall c | c in v :: exists k :: 0 <= k < |v| && v[k] == c && s[off + k] == c;
      if k :| off <= k < off + len && !AddressChar(s[k]) {
        assert v[k - off] in v;
      }
    }
  }

  /** The command is what stands before the first blank of the request line. */
  predicate PostLine(start: string) {
    start == "POST" || "POST " <= start
  }

  lemma PostIff(start: string, fs: seq<Field>)
    requires GoodStart(start)
    ensures IsPost(BlockText(start, fs)) <==> PostLine(start)
  {
    hide FieldsText, Begins;
    var rest := "\r\n" + (FieldsText(fs) + "\r\n");
    var s := start + rest;
    assert rest[0] == '\r';
    if |start| < 4 {
      assert |s| >= 4 ==> s[..4][|start|] == '\r' && "POST"[|start|] != '\r';
    } else {
      assert s[..4] == start[..4];
      if |start| == 4 {
        assert start == start[..4] && s[4] == '\r';
      } else {
        assert s[4] == start[4] && start[4] in start;
        assert "POST " <= start <==> start[..4] == "POST" && start[4] == ' ' by {
          assert start[..5] == start[..4] + [start[4]];
          assert "POST " == "POST" + " ";
        }
      }
    }
  }

  lemma WrittenIsSoap(start: string, fs: seq<Field>, n: nat)
    requires GoodStart(start) && PostLine(start) && GoodFields(fs) && n < 0x8000_0000
    requires LastValue(fs, "soapaction").Some?
    requires LastValue(fs, "host").None? || (' ' !in LastValue(fs, "host").value && AddressText(LastValue(fs, "host").value))
    requires LastValue(fs, "content-length") == Some(Decimal(n)) || (n == 0 && LastValue(fs, "content-length") == None)
    ensures var b := BlockText(start, fs);
            && SoapRequest(b) && !Spills(b) && BodyLength(b) == n
            && ActionOf(b, Parsed(b, |b|)) == StripQuotes(LastValue(fs, "soapaction").value)
  {
    hide Parsed, BlockText, LastValue, Decimal, AsksForContinue, StripQuotes, Length, HostRefused, Block, IsPost, Scan, AddressText, GoodStart;
    var b := BlockText(start, fs);
    assert b + "" == b;
    WrittenIsBlock(start, fs);
    WrittenHeaders(start, fs, "", n);
    HostRefusedIff(start, fs, "");
    PostIff(start, fs);
    WrittenIsFound(start, fs, "");
    if LastValue(fs, "content-length").Some? {
      NumberStands(b, Parsed(b, |b|).lengthAt.value, n);
    }
  }

  lemma NumberStands(s: string, i: nat, n: nat)
    requires AllDigits(Decimal(n)) ==> Placed(s, i, Decimal(n) + "\r")
    ensures i < |s| && Scan(s, i, NotSpace) == i
  {
    ValueOfDecimal(n);
    PlacedSplit(s, i, Decimal(n), "\r");
    PlacedChars(s, i, Decimal(n));
    ScanIs(s, i, NotSpace, i);
  }

  /** A written POST with a SOAPAction, to an address, whose last Content-Length says `n` (or with none, and
      no body): however it is cut into pieces, the action is run once, with this block, the action without
      its quotes, and the `n` characters behind the block, as soon as they are there, and answered with what
      it gives back. */
  lemma WrittenRequestRuns(site: Site, evs: seq<Event>, start: string, fs: seq<Field>, t: string, n: nat)
    requires GoodStart(start) && PostLine(start) && GoodFields(fs) && n < 0x8000_0000
    requires LastValue(fs, "soapaction").Some?
    requires LastValue(fs, "host").None? || (' ' !in LastValue(fs, "host").value && AddressText(LastValue(fs, "host").value))
    requires LastValue(fs, "content-length") == Some(Decimal(n)) || (n == 0 && LastValue(fs, "content-length") == None)
    requires AllRead(evs) && AllGoOn(site, BlockText(start, fs), evs) && Stream(evs) == BlockText(start, fs) + t
    ensures var c, call := After(site, evs), Handed(BlockText(start, fs), StripQuotes(LastValue(fs, "soapaction").value), t[..if |t| < n then 0 else n]);
            if |t| < n then c.handed == [] && !c.answered
            else c.handed == [call] && c.answered && c.res == site.soap(call)
  {
    hide Parsed, BlockText, LastValue, Decimal, StripQuotes, SoapRequest, Spills, BodyLength, After, AddressText, GoodFields, GoodStart, PostLine;
    WrittenIsSoap(start, fs, n);
    var b := BlockText(start, fs);
    CutAnywhere(site, evs, b, t);
    assert After(site, evs).state.WaitingForContent? ==> !After(site, evs).answered;
    SoapActionRunsOnce(site, evs, b, t);
  }

  /** A written request of another kind, or to a host that is no address, runs nothing and is answered at once. */
  lemma WrittenOtherRunsNothing(site: Site, evs: seq<Event>, start: string, fs: seq<Field>, t: string)
    requires GoodStart(start) && GoodFields(fs)
    requires LastValue(fs, "host").Some? ==> ' ' !in LastValue(fs, "host").value
    requires !PostLine(start) || (LastValue(fs, "host").Some? && !AddressText(LastValue(fs, "host").value))
    requires AllRead(evs) && Stream(evs) == BlockText(start, fs) + t
    ensures AnsweredWith(After(site, evs), site.other(BlockText(start, fs)))
  {
    hide Parsed, BlockText, LastValue, Block, IsPost, HostRefused, AnsweredWith, AddressText, GoodFields, GoodStart, PostLine;
    var b := BlockText(start, fs);
    assert b + "" == b;
    WrittenIsBlock(start, fs);
    PostIff(start, fs);
    HostRefusedIff(start, fs, "");
    OthersAreAnswered(site, evs, b, t);
  }
}
