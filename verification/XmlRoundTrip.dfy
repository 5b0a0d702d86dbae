/** Printing an element tree and reading it back: what the scanner and its callbacks make of a
    document that is well formed. */
module XmlRoundTrip {
  import opened Net
  import opened NameValue
  import opened MiniXml

  /** How the value of an attribute is delimited. */
  datatype Quoting = Double | Single | Bare

  /** An attribute with the white space in front of it and on both sides of its '='. */
  datatype Attr = Attr(space: string, name: string, left: string, right: string, value: string, quoting: Quoting)

  predicate Blank(s: string) {
    forall c | c in s :: c == ' ' || c == '\t' || c == '\r' || c == '\n'
  }

  /** A document: elements whose text is all in its leaves, as it stands or as a CDATA section, with comments
      between them and gaps, that is white space, other text and processing instructions, which say nothing.
      A name may have a prefix. */
  datatype Tree =
    | Leaf(prefix: string, name: string, attrs: seq<Attr>, text: string, cdata: bool)
    | Elem(prefix: string, name: string, attrs: seq<Attr>, kids: seq<Tree>)
    | Comment(text: string)
    | Gap(text: string)

  predicate Element(t: Tree) { t.Leaf? || t.Elem? }

  function AttrsText(attrs: seq<Attr>): string {
    if attrs == [] then "" else attrs[0].space + (AttrText(attrs[0]) + AttrsText(attrs[1..]))
  }

  function Quote(q: Quoting): string {
    match q
    case Double => "\""
    case Single => "'"
    case Bare => ""
  }

  function Equals(a: Attr): string {
    a.left + ("=" + a.right)
  }

  function AttrText(a: Attr): string {
    a.name + (Equals(a) + (Quote(a.quoting) + (a.value + Quote(a.quoting))))
  }

  /** A name as it stands in a tag. */
  function Full(prefix: string, name: string): string {
    if prefix == "" then name else prefix + (":" + name)
  }

  function OpenText(full: string, attrs: seq<Attr>): string {
    "<" + (full + (AttrsText(attrs) + ">"))
  }

  function CloseText(full: string): string {
    "</" + (full + ">")
  }

  function LeafText(text: string, cdata: bool): string {
    if cdata then "<![CDATA[" + (text + "]]>") else text
  }

  function Print(t: Tree): string {
    match t
    case Leaf(prefix, name, attrs, text, cdata) =>
      OpenText(Full(prefix, name), attrs) + LeafText(text, cdata) + CloseText(Full(prefix, name))
    case Elem(prefix, name, attrs, kids) => OpenText(Full(prefix, name), attrs) + PrintAll(kids) + CloseText(Full(prefix, name))
    case Comment(text) => "<!--" + (text + "-->")
    case Gap(text) => text
  }

  function PrintAll(ts: seq<Tree>): string {
    if ts == [] then "" else Print(ts[0]) + PrintAll(ts[1..])
  }

  // ---- well-formed documents ----

  predicate NameChar(c: char) {
    !IsWhite(c) && c != '>' && c != '/' && c != ':'
  }

  /** Not the opening of a comment, a CDATA section or a processing instruction. */
  predicate GoodName(prefix: string, name: string) {
    var full := Full(prefix, name);
    && name != "" && full[0] != '?' && !("!--" <= full) && !("![CDATA[" <= full)
    && (forall c | c in prefix :: NameChar(c)) && forall c | c in name :: NameChar(c)
  }

  /** Nothing in front of `stop` looks like it. */
  predicate Before(text: string, stop: string) {
    forall i | 0 <= i < |text| :: !Matches(text + stop, i, stop)
  }

  /** White space, other text without '<', and processing instructions. */
  predicate Prolog(s: string) {
    forall i | 0 <= i < |s| && s[i] == '<' :: i + 1 < |s| && s[i + 1] == '?'
  }

  predicate GoodValue(value: string, q: Quoting) {
    match q
    case Double => '"' !in value
    case Single => '\'' !in value
    case Bare => value != "" && value[0] != '"' && value[0] != '\'' && forall c | c in value :: In(c, Unquoted)
  }

  predicate GoodAttr(a: Attr) {
    && a.name != "" && a.name[0] != '/' && a.name[0] != '>'
    && (forall c | c in a.name :: c != '=' && !IsWhite(c))
    && GoodValue(a.value, a.quoting)
    && a.space != "" && Blank(a.space) && Blank(a.left) && Blank(a.right)
  }

  /** The last value is in quotes: behind one that is not, the scanner steps over a character. */
  predicate GoodAttrs(attrs: seq<Attr>) {
    (forall a | a in attrs :: GoodAttr(a)) && LastQuoted(attrs)
  }

  predicate LastQuoted(attrs: seq<Attr>) {
    attrs == [] || attrs[|attrs| - 1].quoting != Bare
  }

  /** Containers have a child: one without reads back as an empty leaf. */
  predicate Good(t: Tree) {
    match t
    case Leaf(prefix, name, attrs, text, cdata) =>
      GoodName(prefix, name) && GoodAttrs(attrs) && if cdata then Before(text, "]]>") else '<' !in text
    case Elem(prefix, name, attrs, kids) => GoodName(prefix, name) && GoodAttrs(attrs) && HasElement(kids) && GoodAll(kids)
    case Comment(text) => Before(text, "-->")
    case Gap(text) => Prolog(text)
  }

  predicate HasElement(ts: seq<Tree>) {
    ts != [] && (Element(ts[0]) || HasElement(ts[1..]))
  }

  predicate GoodAll(ts: seq<Tree>) {
    ts != [] ==> Good(ts[0]) && GoodAll(ts[1..])
  }

  // ---- strings placed in the document ----

  predicate Placed(mem: string, size: nat, x: nat, s: string) {
    x + |s| <= size < |mem| && mem[x..x + |s|] == s
  }

  lemma PlacedSplit(mem: string, size: nat, x: nat, a: string, b: string)
    requires Placed(mem, size, x, a + b)
    ensures Placed(mem, size, x, a) && Placed(mem, size, x + |a|, b)
    ensures x + |a| + |b| <= size < |mem|
  {
    assert mem[x..x + |a|] == mem[x..x + |a + b|][..|a|];
    assert mem[x + |a|..x + |a| + |b|] == mem[x..x + |a + b|][|a|..];
  }

  lemma PlacedJoin(mem: string, size: nat, x: nat, a: string, b: string)
    requires Placed(mem, size, x, a) && Placed(mem, size, x + |a|, b)
    ensures Placed(mem, size, x, a + b)
  {
    assert mem[x..x + |a + b|] == mem[x..x + |a|] + mem[x + |a|..x + |a| + |b|];
  }

  lemma PlacedInside(mem: string, size: nat, x: nat, s: string)
    requires Placed(mem, size, x, s)
    ensures x + |s| <= size < |mem|
  {}

  lemma PlacedChar(mem: string, size: nat, x: nat, s: string, i: nat)
    requires Placed(mem, size, x, s) && i < |s|
    ensures x + i < size < |mem| && mem[x + i] == s[i]
  {
    assert mem[x..x + |s|][i] == s[i];
  }

  lemma PlacedAll(mem: string, size: nat, x: nat, s: string)
    requires Placed(mem, size, x, s)
    ensures x + |s| <= size < |mem| && mem[x..x + |s|] == s
    ensures forall i | x <= i < x + |s| :: mem[i] == s[i - x] && mem[i] in s
  {
    forall i | x <= i < x + |s| ensures mem[i] == s[i - x] {
      PlacedChar(mem, size, x, s, i - x);
    }
  }

  // ---- the small loops on placed text ----

  lemma {:induction false} SkipRun(mem: string, lim: nat, x: nat, n: nat, cls: Class)
    requires Readable(mem, lim) && x + n < lim
    requires forall i | x <= i < x + n :: In(mem[i], cls)
    requires !In(mem[x + n], cls)
    ensures Skip(mem, lim, x, cls) == Some(x + n)
    decreases n
  {
    if n > 0 {
      SkipRun(mem, lim, x + 1, n - 1, cls);
    }
  }

  lemma {:induction false} NameRun(mem: string, size: nat, begin: nat, x: nat, n: nat)
    requires Readable(mem, size) && begin <= x && x + n < size
    requires forall i | x <= i < x + n :: NameChar(mem[i])
    requires IsWhite(mem[x + n]) || mem[x + n] == '>' || mem[x + n] == '/'
    ensures Name(mem, size, begin, x) == Some((begin, x + n))
    decreases n
  {
    if n > 0 {
      NameRun(mem, size, begin, x + 1, n - 1);
    }
  }

  /** A prefix is passed over. */
  lemma {:induction false} PrefixRun(mem: string, size: nat, begin: nat, x: nat, n: nat)
    requires Readable(mem, size) && begin <= x && 0 < n && x + n < size
    requires (forall i | x <= i < x + n :: NameChar(mem[i])) && mem[x + n] == ':'
    ensures Name(mem, size, begin, x) == Name(mem, size, x + n + 1, x + n + 1)
    decreases n
  {
    if n > 1 {
      PrefixRun(mem, size, begin, x + 1, n - 1);
    }
  }

  lemma EqualsStands(mem: string, size: nat, n: nat, a: Attr)
    requires GoodAttr(a) && Placed(mem, size, n, Equals(a))
    ensures var e := n + |a.left|;
            && |Equals(a)| == |a.left| + 1 + |a.right| && e + 1 + |a.right| <= size < |mem| && mem[e] == '='
            && (forall i | n <= i < e :: IsWhite(mem[i])) && forall i | e + 1 <= i < e + 1 + |a.right| :: IsWhite(mem[i])
  {
    hide Placed, GoodValue;
    var e := n + |a.left|;
    PlacedSplit(mem, size, n, a.left, "=" + a.right);
    PlacedSplit(mem, size, e, "=", a.right);
    PlacedAll(mem, size, n, a.left);
    PlacedChar(mem, size, e, "=", 0);
    PlacedAll(mem, size, e + 1, a.right);
  }

  lemma AttributeName(mem: string, size: nat, x: nat, a: Attr, next: string)
    requires GoodAttr(a) && Placed(mem, size, x, a.name) && Placed(mem, size, x + |a.name|, Equals(a))
    requires next != "" && !IsWhite(next[0]) && Placed(mem, size, x + |a.name| + |Equals(a)|, next)
    ensures var e := x + |a.name| + |a.left|;
            && |Equals(a)| == |a.left| + 1 + |a.right| && e + 1 + |a.right| < size < |mem|
            && Skip(mem, size, x, AttName) == Some(x + |a.name|)
            && Skip(mem, size, x + |a.name|, BeforeEquals) == Some(e)
            && Skip(mem, size, e + 1, White) == Some(e + 1 + |a.right|)
            && mem[e + 1 + |a.right|] == next[0]
  {
    hide Placed, Skip, Equals, GoodValue, Blank;
    var n := x + |a.name|;
    var e := n + |a.left|;
    PlacedAll(mem, size, x, a.name);
    EqualsStands(mem, size, n, a);
    PlacedChar(mem, size, e + 1 + |a.right|, next, 0);
    SkipRun(mem, size, x, |a.name|, AttName);
    SkipRun(mem, size, n, |a.left|, BeforeEquals);
    SkipRun(mem, size, e + 1, |a.right|, White);
  }

  lemma AttributeValue(mem: string, size: nat, v: nat, value: string, sep: char)
    requires sep !in value && Placed(mem, size, v, value) && Placed(mem, size, v + |value|, [sep])
    ensures v + |value| < size < |mem|
    ensures Skip(mem, size, v, BeforeQuote(sep)) == Some(v + |value|)
  {
    hide Placed, Skip;
    PlacedAll(mem, size, v, value);
    PlacedChar(mem, size, v + |value|, [sep], 0);
    SkipRun(mem, size, v, |value|, BeforeQuote(sep));
  }

  lemma AttributeIs(mem: string, size: nat, x: nat, n: nat, e: nat, v: nat)
    requires Readable(mem, size) && x < size && n <= e && e + 1 <= v < size
    requires Skip(mem, size, x, AttName) == Some(n) && Skip(mem, size, n, BeforeEquals) == Some(e)
    requires Skip(mem, size, e + 1, White) == Some(v)
    ensures var sep := mem[v];
            Attribute(mem, size, x)
            == if sep != '\'' && sep != '"' then Skip(mem, size, v, Unquoted)
               else if v + 1 >= size then None else Skip(mem, size, v + 1, BeforeQuote(sep))
  {
    hide Skip;
  }

  lemma QuotedText(a: Attr, sep: char)
    requires GoodAttr(a) && a.quoting != Bare && Quote(a.quoting) == [sep]
    ensures AttrText(a) == a.name + (Equals(a) + ([sep] + (a.value + [sep])))
    ensures sep !in a.value && (sep == '"' || sep == '\'')
  {}

  /** Four texts in a row. */
  lemma PlacedFour(mem: string, size: nat, x: nat, a: string, b: string, c: string, d: string)
    requires Placed(mem, size, x, a + (b + (c + d)))
    ensures Placed(mem, size, x, a) && Placed(mem, size, x + |a|, b)
    ensures Placed(mem, size, x + |a| + |b|, c) && Placed(mem, size, x + |a| + |b| + |c|, d)
    ensures x + |a| + |b| + |c| + |d| <= size < |mem|
  {
    hide Placed;
    PlacedSplit(mem, size, x, a, b + (c + d));
    PlacedSplit(mem, size, x + |a|, b, c + d);
    PlacedSplit(mem, size, x + |a| + |b|, c, d);
  }

  /** The cursor is left on the closing quote, */
  lemma AttributeQuoted(mem: string, size: nat, x: nat, a: Attr, sep: char)
    requires GoodAttr(a) && a.quoting != Bare && Quote(a.quoting) == [sep] && Placed(mem, size, x, AttrText(a))
    ensures Attribute(mem, size, x) == Some(x + |AttrText(a)| - 1)
  {
    QuotedText(a, sep);
    QuotedRun(mem, size, x, a, sep);
  }

  lemma QuotedRun(mem: string, size: nat, x: nat, a: Attr, sep: char)
    requires GoodAttr(a) && sep !in a.value && (sep == '"' || sep == '\'')
    requires Placed(mem, size, x, a.name + (Equals(a) + ([sep] + (a.value + [sep]))))
    ensures Attribute(mem, size, x) == Some(x + |a.name| + |Equals(a)| + 1 + |a.value|)
  {
    hide Placed, Skip, GoodAttr, Attribute, Equals;
    PlacedFour(mem, size, x, a.name, Equals(a), [sep], a.value + [sep]);
    var n := x + |a.name|;
    var v := n + |Equals(a)|;
    PlacedSplit(mem, size, v + 1, a.value, [sep]);
    AttributeName(mem, size, x, a, [sep]);
    AttributeValue(mem, size, v + 1, a.value, sep);
    AttributeIs(mem, size, x, n, n + |a.left|, v);
  }

  lemma BareText(a: Attr, behind: string)
    requires GoodAttr(a) && a.quoting == Bare
    ensures AttrText(a) + behind == a.name + (Equals(a) + (a.value + behind)) && |AttrText(a)| == |a.name| + |Equals(a)| + |a.value|
    ensures a.value != "" && a.value[0] != '"' && a.value[0] != '\'' && !IsWhite(a.value[0])
    ensures forall c | c in a.value :: In(c, Unquoted)
  {
    assert AttrText(a) == a.name + (Equals(a) + ("" + (a.value + ""))) && a.value[0] in a.value;
  }

  /** or behind a value without quotes. */
  lemma AttributeBare(mem: string, size: nat, x: nat, a: Attr, behind: string)
    requires GoodAttr(a) && a.quoting == Bare && Placed(mem, size, x, AttrText(a) + behind)
    requires behind != "" && !In(behind[0], Unquoted)
    ensures Attribute(mem, size, x) == Some(x + |AttrText(a)|)
  {
    BareText(a, behind);
    BareRun(mem, size, x, a, behind);
  }

  lemma BareRun(mem: string, size: nat, x: nat, a: Attr, behind: string)
    requires GoodAttr(a) && behind != "" && !In(behind[0], Unquoted)
    requires Placed(mem, size, x, a.name + (Equals(a) + (a.value + behind)))
    requires a.value != "" && a.value[0] != '"' && a.value[0] != '\'' && !IsWhite(a.value[0])
    requires forall c | c in a.value :: In(c, Unquoted)
    ensures Attribute(mem, size, x) == Some(x + |a.name| + |Equals(a)| + |a.value|)
  {
    hide Placed, Skip, GoodAttr, Attribute, In, Equals;
    PlacedFour(mem, size, x, a.name, Equals(a), a.value, behind);
    var n := x + |a.name|;
    var v := n + |Equals(a)|;
    AttributeName(mem, size, x, a, a.value);
    PlacedAll(mem, size, v, a.value);
    PlacedChar(mem, size, v + |a.value|, behind, 0);
    SkipRun(mem, size, v, |a.value|, Unquoted);
    AttributeIs(mem, size, x, n, n + |a.left|, v);
  }

  /** From the name of the first attribute on: the '>' behind the list is found if and only if the last
      value is in quotes. */
  lemma {:induction false} AttributesFrom(mem: string, size: nat, x: nat, attrs: seq<Attr>)
    requires attrs != [] && (forall a | a in attrs :: GoodAttr(a))
    requires Placed(mem, size, x, AttrText(attrs[0]) + (AttrsText(attrs[1..]) + ">"))
    ensures var end := x + |AttrText(attrs[0])| + |AttrsText(attrs[1..])|;
            Attributes(mem, size, x) == Some(end) <==> LastQuoted(attrs)
    decreases |attrs|, 0
  {
    hide Placed, Attributes, Attribute, AttrText, GoodAttr;
    var a, rest := attrs[0], AttrsText(attrs[1..]) + ">";
    assert a in attrs;
    var y := x + |AttrText(a)|;
    PlacedSplit(mem, size, x, AttrText(a), rest);
    AttrTextBegins(a);
    PlacedChar(mem, size, x, AttrText(a), 0);
    AttributesOne(mem, size, x);
    AttrsBegin(attrs[1..]);
    if a.quoting != Bare {
      AttributeQuoted(mem, size, x, a, if a.quoting == Double then '"' else '\'');
      if attrs[1..] == [] {
        assert "" + ">" == ">";
        PlacedChar(mem, size, y, ">", 0);
        AttributesEnd(mem, size, y);
      } else {
        AttributesRunIff(mem, size, y, attrs[1..]);
      }
    } else {
      AttributeBare(mem, size, x, a, rest);
      if attrs[1..] == [] {
        assert rest == ">";
      } else {
        SpaceThen(mem, size, y, attrs[1..]);
        AttributesFrom(mem, size, y + |attrs[1].space|, attrs[1..]);
        AttributesBlank(mem, size, y + 1, |attrs[1].space| - 1);
      }
    }
  }

  lemma AttrsTextBegins(attrs: seq<Attr>)
    requires attrs != []
    ensures AttrsText(attrs) + ">" == attrs[0].space + (AttrText(attrs[0]) + (AttrsText(attrs[1..]) + ">"))
    ensures |AttrsText(attrs)| == |attrs[0].space| + |AttrText(attrs[0])| + |AttrsText(attrs[1..])|
  {
    hide AttrText;
    var a, t := AttrText(attrs[0]), AttrsText(attrs[1..]);
    assert attrs[0].space + (a + t) + ">" == attrs[0].space + (a + (t + ">"));
  }

  lemma SpaceIs(a: Attr)
    requires GoodAttr(a)
    ensures a.space != "" && forall c | c in a.space :: IsWhite(c)
  {}

  /** The white space in front of the first attribute. */
  lemma SpaceThen(mem: string, size: nat, x: nat, attrs: seq<Attr>)
    requires attrs != [] && (forall a | a in attrs :: GoodAttr(a)) && Placed(mem, size, x, AttrsText(attrs) + ">")
    ensures var z := x + |attrs[0].space|;
            && x < z < size < |mem| && (forall i | x <= i < z :: IsWhite(mem[i]))
            && Placed(mem, size, z, AttrText(attrs[0]) + (AttrsText(attrs[1..]) + ">"))
            && |AttrsText(attrs)| == |attrs[0].space| + |AttrText(attrs[0])| + |AttrsText(attrs[1..])|
  {
    hide Placed, AttrText, GoodAttr, AttrsText, IsWhite;
    var a := attrs[0];
    assert a in attrs;
    var text := AttrText(a) + (AttrsText(attrs[1..]) + ">");
    AttrsTextBegins(attrs);
    SpaceIs(a);
    PlacedSplit(mem, size, x, a.space, text);
    PlacedAll(mem, size, x, a.space);
    PlacedInside(mem, size, x + |a.space|, text);
  }

  lemma {:induction false} AttributesBlank(mem: string, size: nat, x: nat, n: nat)
    requires Readable(mem, size) && x + n <= size && forall i | x <= i < x + n :: IsWhite(mem[i])
    ensures Attributes(mem, size, x) == Attributes(mem, size, x + n)
    decreases n
  {
    if n > 0 {
      AttributesWhite(mem, size, x);
      AttributesBlank(mem, size, x + 1, n - 1);
    }
  }

  /** Printed attributes are skipped up to the '>' behind them if and only if the last value is in quotes.
      Behind a bare value the scanner steps over one character, and goes on behind it. */
  lemma {:induction false} AttributesRunIff(mem: string, size: nat, x: nat, attrs: seq<Attr>)
    requires (forall a | a in attrs :: GoodAttr(a)) && Placed(mem, size, x, AttrsText(attrs) + ">")
    ensures Attributes(mem, size, x) == Some(x + |AttrsText(attrs)|) <==> LastQuoted(attrs)
    decreases |attrs|, 1
  {
    hide Placed, Attributes, Attribute, AttrText, GoodAttr;
    if attrs == [] {
      assert "" + ">" == ">";
      PlacedChar(mem, size, x, ">", 0);
      AttributesEnd(mem, size, x);
    } else {
      SpaceThen(mem, size, x, attrs);
      AttributesBlank(mem, size, x, |attrs[0].space|);
      AttributesFrom(mem, size, x + |attrs[0].space|, attrs);
    }
  }

  lemma AttributesRun(mem: string, size: nat, x: nat, attrs: seq<Attr>)
    requires GoodAttrs(attrs) && Placed(mem, size, x, AttrsText(attrs) + ">")
    ensures Attributes(mem, size, x) == Some(x + |AttrsText(attrs)|)
  {
    AttributesRunIff(mem, size, x, attrs);
  }

  lemma AttrTextBegins(a: Attr)
    requires GoodAttr(a)
    ensures AttrText(a) != "" && AttrText(a)[0] == a.name[0]
    ensures a.name[0] != '/' && a.name[0] != '>' && !IsWhite(a.name[0])
  {
    assert a.name[0] in a.name;
  }

  lemma AttributesEnd(mem: string, size: nat, x: nat)
    requires Readable(mem, size) && x < size && mem[x] == '>'
    ensures Attributes(mem, size, x) == Some(x)
  {}

  lemma AttrsBegin(attrs: seq<Attr>)
    requires forall a | a in attrs :: GoodAttr(a)
    ensures var s := AttrsText(attrs) + ">"; Delimits(s)
  {
    if attrs != [] {
      assert attrs[0] in attrs && attrs[0].space[0] in attrs[0].space;
    }
  }

  /** What may stand behind a name in a start tag. */
  predicate Delimits(s: string) {
    s != "" && (IsWhite(s[0]) || s[0] == '>')
  }

  lemma AttributesWhite(mem: string, size: nat, x: nat)
    requires Readable(mem, size) && x < size && IsWhite(mem[x])
    ensures Attributes(mem, size, x) == Attributes(mem, size, x + 1)
  {}

  lemma AttributesOne(mem: string, size: nat, x: nat)
    requires Readable(mem, size) && x < size && !IsWhite(mem[x]) && mem[x] != '/' && mem[x] != '>'
    ensures var att := Attribute(mem, size, x);
            Attributes(mem, size, x) == if att.None? then None else Attributes(mem, size, att.value + 1)
  {}

  // ---- the turns of the main loop ----

  lemma NotComment(mem: string, x: nat)
    requires x + 1 < |mem| && (mem[x] != '<' || mem[x + 1] != '!')
    ensures !Matches(mem, x, "<!--")
  {}

  lemma NotCData(mem: string, x: nat)
    requires x + 1 < |mem| && (mem[x] != '<' || mem[x + 1] != '!')
    ensures !Matches(mem, x, "<![CDATA[")
  {}

  /** A name that opens nothing special, and what ends it. */
  lemma OpensNothing(mem: string, x: nat, full: string)
    requires !("!--" <= full) && !("![CDATA[" <= full) && x + 1 + |full| < |mem| && mem[x + 1..x + 1 + |full|] == full
    requires IsWhite(mem[x + 1 + |full|]) || mem[x + 1 + |full|] == '>'
    ensures !Matches(mem, x, "<!--") && !Matches(mem, x, "<![CDATA[")
  {
    NotOpening(mem, x, full, "!--");
    NotOpening(mem, x, full, "![CDATA[");
    assert "<!--" == "<" + "!--" && "<![CDATA[" == "<" + "![CDATA[";
  }

  lemma NotOpening(mem: string, x: nat, full: string, special: string)
    requires x + 1 + |full| < |mem| && mem[x + 1..x + 1 + |full|] == full && !(special <= full)
    requires IsWhite(mem[x + 1 + |full|]) || mem[x + 1 + |full|] == '>'
    requires (forall c | c in special :: !IsWhite(c)) && '>' !in special
    ensures !Matches(mem, x, "<" + special)
  {
    var open := "<" + special;
    if |special| <= |full| {
      assert special != full[..|special|];
      var i :| 0 <= i < |special| && special[i] != full[i];
      assert mem[x + 1..x + 1 + |full|][i] == mem[x..x + |open|][1 + i] && open[1 + i] == special[i];
    } else if x + |open| <= |mem| {
      assert special[|full|] in special;
      assert mem[x..x + |open|][1 + |full|] == mem[x + 1 + |full|] && open[1 + |full|] == special[|full|];
    }
  }

  /** The name in a tag is found, */
  lemma NamePlain(mem: string, size: nat, x: nat, name: string, after: string)
    requires (forall c | c in name :: NameChar(c)) && Placed(mem, size, x, name + after)
    requires Delimits(after)
    ensures x + |name| < size < |mem| && mem[x..x + |name|] == name
    ensures Name(mem, size, x, x) == Some((x, x + |name|))
  {
    hide Placed, Name;
    PlacedSplit(mem, size, x, name, after);
    PlacedChar(mem, size, x + |name|, after, 0);
    PlacedAll(mem, size, x, name);
    NameRun(mem, size, x, x, |name|);
  }

  /** without its prefix. */
  lemma NamePrefixed(mem: string, size: nat, x: nat, prefix: string, rest: string)
    requires prefix != "" && rest != "" && (forall c | c in prefix :: NameChar(c)) && Placed(mem, size, x, prefix + (":" + rest))
    ensures x + |prefix| + 1 <= size < |mem| && Placed(mem, size, x + |prefix| + 1, rest)
    ensures Name(mem, size, x, x) == Name(mem, size, x + |prefix| + 1, x + |prefix| + 1)
  {
    hide Placed, Name;
    var n := |prefix|;
    PlacedSplit(mem, size, x, prefix, ":" + rest);
    PlacedSplit(mem, size, x + n, ":", rest);
    PlacedChar(mem, size, x + n, ":", 0);
    PlacedAll(mem, size, x, prefix);
    PrefixRun(mem, size, x, x, n);
  }

  lemma NameFound(mem: string, size: nat, x: nat, prefix: string, name: string, after: string)
    requires GoodName(prefix, name) && Placed(mem, size, x, Full(prefix, name) + after)
    requires Delimits(after)
    ensures var full := Full(prefix, name);
            && x + |full| < size < |mem| && |name| <= |full|
            && Name(mem, size, x, x) == Some((x + |full| - |name|, x + |full|))
            && mem[x + |full| - |name|..x + |full|] == name
  {
    hide Placed, Name;
    if prefix != "" {
      assert Full(prefix, name) + after == prefix + (":" + (name + after));
      NamePrefixed(mem, size, x, prefix, name + after);
      NamePlain(mem, size, x + |prefix| + 1, name, after);
    } else {
      NamePlain(mem, size, x, name, after);
    }
  }

  lemma FullIs(prefix: string, name: string)
    requires GoodName(prefix, name)
    ensures var full := Full(prefix, name);
            full != "" && full[0] != '?' && full[0] != '/' && !("!--" <= full) && !("![CDATA[" <= full) && '>' !in full
  {
    var full := Full(prefix, name);
    assert full[0] == if prefix == "" then name[0] else prefix[0];
    assert full[0] in if prefix == "" then name else prefix;
  }

  lemma OpenName(mem: string, size: nat, x: nat, prefix: string, name: string, after: string)
    requires GoodName(prefix, name) && Placed(mem, size, x, "<" + (Full(prefix, name) + after))
    requires Delimits(after)
    ensures var full := Full(prefix, name);
            && x + 1 + |full| < size < |mem| && |name| <= |full| && mem[x] == '<'
            && mem[x + 1] != '?' && mem[x + 1] != '/' && !Matches(mem, x, "<!--") && !Matches(mem, x, "<![CDATA[")
            && Name(mem, size, x + 1, x + 1) == Some((x + 1 + |full| - |name|, x + 1 + |full|))
            && mem[x + 1 + |full| - |name|..x + 1 + |full|] == name
            && Placed(mem, size, x + 1 + |full|, after)
  {
    hide Placed, Name, Matches, GoodName, Full;
    var full := Full(prefix, name);
    FullIs(prefix, name);
    PlacedSplit(mem, size, x, "<", full + after);
    NameFound(mem, size, x + 1, prefix, name, after);
    PlacedSplit(mem, size, x + 1, full, after);
    PlacedChar(mem, size, x, "<", 0);
    PlacedAll(mem, size, x + 1, full);
    assert mem[x + 1] == full[0];
    PlacedChar(mem, size, x + 1 + |full|, after, 0);
    OpensNothing(mem, x, full);
  }

  /** A start tag hands over to its content, under the name without its prefix. */
  lemma OpenTurn(mem: string, size: nat, x: nat, prefix: string, name: string, attrs: seq<Attr>)
    requires GoodName(prefix, name) && GoodAttrs(attrs)
    requires Placed(mem, size, x, OpenText(Full(prefix, name), attrs))
    ensures x + 1 < size < |mem|
    ensures OneTurn(mem, size, x) == Content(mem, size, name, x + |OpenText(Full(prefix, name), attrs)|)
  {
    hide Placed, Attributes, Name, Content, AttrsText, Matches, Full, GoodName;
    var atts, full := AttrsText(attrs), Full(prefix, name);
    AttrsBegin(attrs);
    OpenName(mem, size, x, prefix, name, atts + ">");
    NamedSomething(prefix, name);
    var end := x + 1 + |full|;
    AttributesRun(mem, size, end, attrs);
    PlacedSplit(mem, size, end, atts, ">");
    PlacedChar(mem, size, end + |atts|, ">", 0);
  }

  lemma NamedSomething(prefix: string, name: string)
    requires GoodName(prefix, name)
    ensures name != ""
  {}

  /** What stands behind a start tag when no text of its own does: something without '<', and then a '<' that
      opens neither an end tag nor a CDATA section. */
  ghost predicate Elsewhere(mem: string, size: nat, x: nat, z: nat) {
    && x <= z && z + 1 < size < |mem| && (forall i | x <= i < z :: mem[i] != '<')
    && mem[z] == '<' && mem[z + 1] != '/' && !Matches(mem, z, "<![CDATA[")
  }

  /** Then there is no text. */
  lemma ContentElsewhere(mem: string, size: nat, name: string, x: nat, z: nat)
    requires Elsewhere(mem, size, x, z)
    ensures Content(mem, size, name, x) == Go([Start(name)], z)
  {
    hide Skip, Matches, Content;
    var w := LeadingWhite(mem[x..z]);
    assert forall i | x <= i < z :: mem[i] == mem[x..z][i - x];
    SkipRun(mem, size, x, w, White);
    TextRun(mem, size, x + w, z);
    if x + w < z {
      NotCData(mem, x + w);
    }
    ContentIs(mem, size, name, x, x + w, z);
    assert [Start(name)] + [] == [Start(name)];
  }

  lemma SkipHere(mem: string, lim: nat, x: nat, cls: Class)
    requires Readable(mem, lim) && x <= lim && !In(mem[x], cls)
    ensures Skip(mem, lim, x, cls) == Some(x)
  {}

  function LeadingWhite(s: string): (n: nat)
    ensures n <= |s| && (forall i | 0 <= i < n :: IsWhite(s[i])) && (n < |s| ==> !IsWhite(s[n]))
  {
    if s == "" || !IsWhite(s[0]) then 0 else 1 + LeadingWhite(s[1..])
  }

  /** What the content is when it is no CDATA section. */
  lemma ContentIs(mem: string, size: nat, name: string, x: nat, w: nat, z: nat)
    requires x <= w <= z && z + 1 < size < |mem| && Skip(mem, size, x, White) == Some(w) && !Matches(mem, w, "<![CDATA[")
    requires Skip(mem, size - 1, w, BeforeLt) == Some(z)
    ensures Content(mem, size, name, x) == Go([Start(name)] + if z > x && mem[z + 1] == '/' then [Data(mem[x..z])] else [], z)
  {
    hide Skip, Seek, CData, Matches;
  }

  /** Text between a start tag and an end tag, white space and all. */
  lemma ContentText(mem: string, size: nat, name: string, x: nat, text: string)
    requires '<' !in text && Placed(mem, size, x, text + "</")
    ensures Content(mem, size, name, x)
         == Go([Start(name)] + if text != "" then [Data(text)] else [], x + |text|)
  {
    hide Placed, Skip, Matches, Content;
    var z, w := x + |text|, LeadingWhite(text);
    PlacedSplit(mem, size, x, text, "</");
    PlacedAll(mem, size, x, text);
    PlacedChar(mem, size, z, "</", 0);
    PlacedChar(mem, size, z, "</", 1);
    SkipRun(mem, size, x, w, White);
    NotCData(mem, x + w);
    TextRun(mem, size, x + w, z);
    ContentIs(mem, size, name, x, x + w, z);
  }

  lemma TextRun(mem: string, size: nat, y: nat, z: nat)
    requires Readable(mem, size) && y <= z && z + 1 < size
    requires (forall i | y <= i < z :: mem[i] != '<') && mem[z] == '<'
    ensures Skip(mem, size - 1, y, BeforeLt) == Some(z)
  {
    SkipRun(mem, size - 1, y, z - y, BeforeLt);
  }

  /** The first place where `stop` stands. */
  lemma {:induction false} SeekRun(mem: string, size: nat, x: nat, text: string, stop: string)
    requires Before(text, stop) && stop != "" && Placed(mem, size, x, text + stop)
    requires x + |text| + |stop| < size
    ensures Seek(mem, size, x, stop) == Some(x + |text|)
    decreases |text|
  {
    hide Placed, Matches;
    MatchesPlaced(mem, size, x, text + stop, stop);
    if text == "" {
      assert "" + stop == stop;
      StopMatches(stop);
    } else {
      BeforeTail(text, stop);
      assert text + stop == [text[0]] + (text[1..] + stop);
      PlacedSplit(mem, size, x, [text[0]], text[1..] + stop);
      SeekRun(mem, size, x + 1, text[1..], stop);
    }
  }

  lemma MatchesPlaced(mem: string, size: nat, x: nat, text: string, stop: string)
    requires Placed(mem, size, x, text) && |stop| <= |text|
    ensures x + |text| <= size < |mem| && (Matches(mem, x, stop) <==> Matches(text, 0, stop))
  {
    assert mem[x..x + |stop|] == mem[x..x + |text|][..|stop|] == text[0..0 + |stop|];
  }

  lemma StopMatches(stop: string)
    ensures Matches(stop, 0, stop)
  {
    assert stop[0..|stop|] == stop;
  }

  lemma BeforeTail(text: string, stop: string)
    requires Before(text, stop) && text != ""
    ensures Before(text[1..], stop)
  {
    var rest := text[1..];
    assert rest + stop == (text + stop)[1..];
    forall i | 0 <= i < |rest| ensures !Matches(rest + stop, i, stop) {
      assert !Matches(text + stop, i + 1, stop);
      if i + |stop| <= |rest + stop| {
        assert (rest + stop)[i..i + |stop|] == (text + stop)[i + 1..i + 1 + |stop|];
      }
    }
  }

  /** What the content is when it is one. */
  lemma ContentCDataIs(mem: string, size: nat, name: string, x: nat, z: nat, w: nat)
    requires x + 9 <= z && z + 3 <= w < size < |mem| && !IsWhite(mem[x]) && Matches(mem, x, "<![CDATA[")
    requires Seek(mem, size, x + 9, "]]>") == Some(z) && Skip(mem, size, z, BeforeLt) == Some(w)
    ensures Content(mem, size, name, x) == Go([Start(name)] + if z > x + 9 then [Data(mem[x + 9..z])] else [], w)
  {
    hide Seek, Matches, PlainText;
    SkipHere(mem, size, x, White);
    hide Skip;
  }

  /** Where the parts of a CDATA section lie. */
  lemma CDataStands(mem: string, size: nat, x: nat, text: string)
    requires Placed(mem, size, x, LeafText(text, true) + "</")
    ensures var z := x + 9 + |text|;
            && z + 5 <= size < |mem| && !IsWhite(mem[x]) && Matches(mem, x, "<![CDATA[") && mem[x + 9..z] == text
            && Placed(mem, size, x + 9, text + "]]>") && mem[z] != '<' && mem[z + 1] != '<' && mem[z + 2] != '<' && mem[z + 3] == '<'
            && |LeafText(text, true)| == 12 + |text|
  {
    hide Placed, Matches;
    var y := x + 9;
    var z := y + |text|;
    assert LeafText(text, true) + "</" == "<![CDATA[" + ((text + "]]>") + "</");
    PlacedSplit(mem, size, x, "<![CDATA[", (text + "]]>") + "</");
    PlacedSplit(mem, size, y, text + "]]>", "</");
    PlacedSplit(mem, size, y, text, "]]>");
    PlacedChar(mem, size, x, "<![CDATA[", 0);
    PlacedChar(mem, size, z, "]]>", 0);
    PlacedChar(mem, size, z, "]]>", 1);
    PlacedChar(mem, size, z, "]]>", 2);
    PlacedChar(mem, size, z + 3, "</", 0);
    PlacedAll(mem, size, y, text);
    PlacedMatches(mem, size, x, "<![CDATA[");
  }

  /** A CDATA section between a start tag and an end tag; its text may hold anything but its end. */
  lemma ContentCData(mem: string, size: nat, name: string, x: nat, text: string)
    requires Before(text, "]]>") && Placed(mem, size, x, LeafText(text, true) + "</")
    ensures Content(mem, size, name, x)
         == Go([Start(name)] + if text != "" then [Data(text)] else [], x + |LeafText(text, true)|)
  {
    hide Placed, Skip, Seek, Matches, Before, Content, LeafText, IsWhite;
    var z := x + 9 + |text|;
    CDataStands(mem, size, x, text);
    SeekRun(mem, size, x + 9, text, "]]>");
    SkipRun(mem, size, z, 3, BeforeLt);
    ContentCDataIs(mem, size, name, x, z, z + 3);
  }

  lemma PlacedMatches(mem: string, size: nat, x: nat, s: string)
    requires Placed(mem, size, x, s)
    ensures Matches(mem, x, s)
  {}

  /** An end tag. */
  lemma CloseTurn(mem: string, size: nat, x: nat, prefix: string, name: string)
    requires GoodName(prefix, name) && Placed(mem, size, x, CloseText(Full(prefix, name)))
    ensures x + 1 < size < |mem|
    ensures OneTurn(mem, size, x) == Go([End(Full(prefix, name))], x + |CloseText(Full(prefix, name))|)
  {
    hide Placed, Skip, Name, Attributes, Content, Matches, GoodName, Full;
    var full := Full(prefix, name);
    FullIs(prefix, name);
    PlacedSplit(mem, size, x, "</", full + ">");
    PlacedSplit(mem, size, x + 2, full, ">");
    PlacedChar(mem, size, x, "</", 0);
    PlacedChar(mem, size, x, "</", 1);
    EndName(mem, size, x + 2, full);
    NotComment(mem, x);
    NameRun(mem, size, x + 1, x + 1, 0);
  }

  lemma EndName(mem: string, size: nat, x: nat, full: string)
    requires '>' !in full && Placed(mem, size, x, full) && Placed(mem, size, x + |full|, ">")
    ensures x + |full| < size < |mem| && mem[x..x + |full|] == full
    ensures Skip(mem, size, x, BeforeGt) == Some(x + |full|)
  {
    hide Placed, Skip;
    PlacedAll(mem, size, x, full);
    PlacedChar(mem, size, x + |full|, ">", 0);
    SkipRun(mem, size, x, |full|, BeforeGt);
  }

  /** A comment is stepped over. */
  lemma CommentTurn(mem: string, size: nat, x: nat, text: string)
    requires Before(text, "-->") && Placed(mem, size, x, Print(Comment(text))) && x + |Print(Comment(text))| < size
    ensures x + 1 < size < |mem|
    ensures OneTurn(mem, size, x) == Go([], x + |Print(Comment(text))|)
  {
    hide Placed, Seek, Matches, Before;
    PlacedSplit(mem, size, x, "<!--", text + "-->");
    PlacedMatches(mem, size, x, "<!--");
    SeekRun(mem, size, x + 4, text, "-->");
  }

  // ---- the callbacks of a whole tree ----

  function Events(t: Tree): seq<Event> {
    match t
    case Leaf(prefix, name, _, text, _) => [Start(name)] + (if text != "" then [Data(text)] else []) + [End(Full(prefix, name))]
    case Elem(prefix, name, _, kids) => [Start(name)] + EventsAll(kids) + [End(Full(prefix, name))]
    case Comment(_) => []
    case Gap(_) => []
  }

  function EventsAll(ts: seq<Tree>): seq<Event> {
    if ts == [] then [] else Events(ts[0]) + EventsAll(ts[1..])
  }

  lemma ScanTurn(mem: string, size: nat, x: nat)
    requires Readable(mem, size) && x + 1 < size && OneTurn(mem, size, x).Go?
    ensures var t := OneTurn(mem, size, x); Scan(mem, size, x) == t.events + Scan(mem, size, t.next)
  {}

  lemma {:induction false} ScanProlog(mem: string, size: nat, x: nat, s: string)
    requires Prolog(s) && Placed(mem, size, x, s) && x + |s| + 1 < size
    ensures Scan(mem, size, x) == Scan(mem, size, x + |s|)
    decreases |s|
  {
    hide Placed, Scan;
    if s != "" {
      PlacedChar(mem, size, x, s, 0);
      if s[0] == '<' {
        PlacedChar(mem, size, x, s, 1);
      }
      assert s == [s[0]] + s[1..];
      PlacedSplit(mem, size, x, [s[0]], s[1..]);
      PrologTail(s);
      ScanProlog(mem, size, x + 1, s[1..]);
      SkipCharacter(mem, size, x);
    }
  }

  lemma PrologTail(s: string)
    requires Prolog(s) && s != ""
    ensures Prolog(s[1..])
  {
    assert forall i | 0 <= i < |s[1..]| :: s[1..][i] == s[i + 1];
  }

  lemma SkipCharacter(mem: string, size: nat, x: nat)
    requires Readable(mem, size) && x + 1 < size && (mem[x] != '<' || mem[x + 1] == '?')
    ensures Scan(mem, size, x) == Scan(mem, size, x + 1)
  {
    hide Tag, Seek, Matches;
    NotComment(mem, x);
    assert [] + Scan(mem, size, x + 1) == Scan(mem, size, x + 1);
  }

  lemma OpenBegins(full: string, attrs: seq<Attr>, inner: string, close: string) returns (after: string)
    requires forall a | a in attrs :: GoodAttr(a)
    ensures OpenText(full, attrs) + inner + close == "<" + (full + after)
    ensures Delimits(after)
  {
    var a := AttrsText(attrs) + ">";
    AttrsBegin(attrs);
    hide AttrsText, GoodAttr;
    after := a + inner + close;
    assert "<" + (full + a) + inner + close == "<" + (full + (a + inner + close));
  }

  lemma PrintBegins(t: Tree) returns (after: string)
    requires Good(t) && Element(t)
    ensures GoodName(t.prefix, t.name)
    ensures Print(t) == "<" + (Full(t.prefix, t.name) + after) && Delimits(after)
  {
    hide GoodName, Full, OpenText, CloseText, LeafText, GoodAttr, Before;
    var full := Full(t.prefix, t.name);
    after := OpenBegins(full, t.attrs, if t.Leaf? then LeafText(t.text, t.cdata) else PrintAll(t.kids), CloseText(full));
  }

  /** The first '<' of some trees that hold an element. */
  lemma {:induction false} FirstTag(mem: string, size: nat, x: nat, ts: seq<Tree>) returns (z: nat)
    requires GoodAll(ts) && HasElement(ts) && Placed(mem, size, x, PrintAll(ts))
    ensures Elsewhere(mem, size, x, z)
    decreases |ts|
  {
    hide Placed, Print, Matches, Prolog;
    var t, rest := ts[0], PrintAll(ts[1..]);
    PlacedSplit(mem, size, x, Print(t), rest);
    if t.Gap? {
      PrintGap(t.text);
      z := FirstInGap(mem, size, x, t.text);
      if z == x + |t.text| {
        z := FirstTag(mem, size, z, ts[1..]);
      }
    } else if t.Comment? {
      z := x;
      CommentBegins(mem, size, x, t.text);
    } else {
      z := x;
      var after := PrintBegins(t);
      OpenName(mem, size, x, t.prefix, t.name, after);
    }
  }

  lemma PrintGap(text: string)
    ensures Print(Gap(text)) == text
  {}

  lemma NotMatching(mem: string, x: nat, s: string, i: nat)
    requires i < |s| && x + i < |mem| && mem[x + i] != s[i]
    ensures !Matches(mem, x, s)
  {
    if x + |s| <= |mem| {
      assert mem[x..x + |s|][i] == mem[x + i];
    }
  }

  lemma CommentBegins(mem: string, size: nat, x: nat, text: string)
    requires Placed(mem, size, x, Print(Comment(text)))
    ensures Elsewhere(mem, size, x, x)
  {
    hide Placed;
    PlacedSplit(mem, size, x, "<!--", text + "-->");
    PlacedAll(mem, size, x, "<!--");
    NotMatching(mem, x, "<![CDATA[", 2);
  }

  /** The first '<' in a gap, or its end. */
  lemma {:induction false} FirstInGap(mem: string, size: nat, x: nat, text: string) returns (z: nat)
    requires Prolog(text) && Placed(mem, size, x, text)
    ensures x <= z <= x + |text| <= size < |mem| && forall i | x <= i < z :: mem[i] != '<'
    ensures z < x + |text| ==> Elsewhere(mem, size, x, z)
    decreases |text|
  {
    hide Placed, Matches;
    PlacedAll(mem, size, x, text);
    z := x;
    if text != "" {
      if text[0] == '<' {
        assert text[1] == '?' && mem[x + 1] == text[1];
        NotCData(mem, x);
      } else {
        assert text == [text[0]] + text[1..];
        PlacedSplit(mem, size, x, [text[0]], text[1..]);
        PrologTail(text);
        z := FirstInGap(mem, size, x + 1, text[1..]);
      }
    }
  }

  /** Up to the next '<' nothing happens. */
  lemma {:induction false} ScanTo(mem: string, size: nat, x: nat, z: nat)
    requires x <= z && z + 1 < size < |mem| && forall i | x <= i < z :: mem[i] != '<'
    ensures Scan(mem, size, x) == Scan(mem, size, z)
    decreases z - x
  {
    hide Scan;
    if x < z {
      SkipCharacter(mem, size, x);
      ScanTo(mem, size, x + 1, z);
    }
  }

  /** Scanning a printed tree fires its callbacks and goes on behind it. */
  lemma {:induction false} ScanTree(mem: string, size: nat, x: nat, t: Tree)
    requires Good(t) && Placed(mem, size, x, Print(t)) && (Element(t) || x + |Print(t)| + 1 < size)
    ensures Scan(mem, size, x) == Events(t) + Scan(mem, size, x + |Print(t)|)
    decreases t, 0
  {
    hide Placed, Scan, OneTurn, Content, OpenText, CloseText, Prolog, Before, Full, GoodName;
    PlacedInside(mem, size, x, Print(t));
    var rest := Scan(mem, size, x + |Print(t)|);
    match t
    case Leaf(_, _, _, _, _) =>
      ScanLeaf(mem, size, x, t);
    case Elem(prefix, name, attrs, kids) =>
      ScanElem(mem, size, x, t);
    case Comment(text) =>
      CommentTurn(mem, size, x, text);
      ScanTurn(mem, size, x);
    case Gap(text) =>
      ScanProlog(mem, size, x, text);
      assert [] + rest == rest;
  }

  /** An element with children. */
  lemma {:induction false} ScanElem(mem: string, size: nat, x: nat, t: Tree)
    requires t.Elem? && Good(t) && Placed(mem, size, x, Print(t))
    ensures Scan(mem, size, x) == Events(t) + Scan(mem, size, x + |Print(t)|)
    decreases t.kids, 2
  {
    hide Placed, Scan, OneTurn, Content, OpenText, CloseText, GoodName, GoodAttrs, Full, GoodAll, PrintAll, EventsAll, HasElement, Good, Print, Events;
    var full := Full(t.prefix, t.name);
    var open, inner, close := OpenText(full, t.attrs), PrintAll(t.kids), CloseText(full);
    var y := x + |open|;
    var z := y + |inner|;
    ElemIs(t);
    PlacedInside(mem, size, x, Print(t));
    PlacedSplit(mem, size, x, open + inner, close);
    PlacedSplit(mem, size, x, open, inner);
    CloseBegins(full);
    PlacedSplit(mem, size, z, "</", full + ">");
    OpenTurn(mem, size, x, t.prefix, t.name, t.attrs);
    var first := FirstTag(mem, size, y, t.kids);
    ContentElsewhere(mem, size, t.name, y, first);
    ScanTurn(mem, size, x);
    ScanTo(mem, size, y, first);
    ScanTrees(mem, size, y, t.kids);
    CloseTurn(mem, size, z, t.prefix, t.name);
    ScanTurn(mem, size, z);
    ElemEvents(t, Scan(mem, size, z + |close|));
  }

  lemma ElemIs(t: Tree)
    requires t.Elem? && Good(t)
    ensures GoodName(t.prefix, t.name) && GoodAttrs(t.attrs) && HasElement(t.kids) && GoodAll(t.kids)
    ensures var full := Full(t.prefix, t.name);
            Print(t) == OpenText(full, t.attrs) + PrintAll(t.kids) + CloseText(full)
  {}

  lemma ElemEvents(t: Tree, rest: seq<Event>)
    requires t.Elem?
    ensures [Start(t.name)] + (EventsAll(t.kids) + ([End(Full(t.prefix, t.name))] + rest)) == Events(t) + rest
  {}

  lemma TwoTurns(mem: string, size: nat, x: nat, z: nat, w: nat, first: seq<Event>, second: seq<Event>)
    requires x + 1 < size < |mem| && z + 1 < size && w <= size
    requires OneTurn(mem, size, x) == Go(first, z) && OneTurn(mem, size, z) == Go(second, w)
    ensures Scan(mem, size, x) == first + (second + Scan(mem, size, w))
  {
    hide OneTurn, Scan;
    ScanTurn(mem, size, x);
    ScanTurn(mem, size, z);
  }

  lemma ScanLeaf(mem: string, size: nat, x: nat, t: Tree)
    requires t.Leaf? && Good(t) && Placed(mem, size, x, Print(t))
    ensures Scan(mem, size, x) == Events(t) + Scan(mem, size, x + |Print(t)|)
  {
    hide Placed, Scan, OneTurn, Content, OpenText, CloseText, GoodName, GoodAttrs, Full, LeafText, Before, Good, Events, Print;
    var full, text := Full(t.prefix, t.name), LeafText(t.text, t.cdata);
    var open, close := OpenText(full, t.attrs), CloseText(full);
    var y := x + |open|;
    var z := y + |text|;
    LeafIs(t);
    PlacedInside(mem, size, x, Print(t));
    PlacedSplit(mem, size, x, open + text, close);
    PlacedSplit(mem, size, x, open, text);
    CloseBegins(full);
    PlacedSplit(mem, size, z, "</", full + ">");
    PlacedJoin(mem, size, y, text, "</");
    OpenTurn(mem, size, x, t.prefix, t.name, t.attrs);
    LeafContent(mem, size, y, t);
    CloseTurn(mem, size, z, t.prefix, t.name);
    var first := [Start(t.name)] + if t.text != "" then [Data(t.text)] else [];
    TwoTurns(mem, size, x, z, z + |close|, first, [End(full)]);
    LeafEvents(t, Scan(mem, size, z + |close|));
  }

  lemma LeafIs(t: Tree)
    requires t.Leaf? && Good(t)
    ensures GoodName(t.prefix, t.name) && GoodAttrs(t.attrs)
    ensures var full := Full(t.prefix, t.name);
            Print(t) == OpenText(full, t.attrs) + LeafText(t.text, t.cdata) + CloseText(full)
  {}

  lemma CloseBegins(full: string)
    ensures CloseText(full) == "</" + (full + ">")
  {}

  lemma LeafEvents(t: Tree, rest: seq<Event>)
    requires t.Leaf?
    ensures ([Start(t.name)] + if t.text != "" then [Data(t.text)] else []) + ([End(Full(t.prefix, t.name))] + rest) == Events(t) + rest
  {}

  lemma LeafContent(mem: string, size: nat, y: nat, t: Tree)
    requires t.Leaf? && Good(t) && Placed(mem, size, y, LeafText(t.text, t.cdata) + "</")
    ensures Content(mem, size, t.name, y)
         == Go([Start(t.name)] + if t.text != "" then [Data(t.text)] else [], y + |LeafText(t.text, t.cdata)|)
  {
    hide Placed, Content, Before, GoodName;
    if t.cdata {
      ContentCData(mem, size, t.name, y, t.text);
    } else {
      ContentText(mem, size, t.name, y, t.text);
    }
  }

  lemma {:induction false} ScanTrees(mem: string, size: nat, x: nat, ts: seq<Tree>)
    requires GoodAll(ts) && Placed(mem, size, x, PrintAll(ts)) && x + |PrintAll(ts)| + 1 < size
    ensures Scan(mem, size, x) == EventsAll(ts) + Scan(mem, size, x + |PrintAll(ts)|)
    decreases ts, 1
  {
    hide Placed, Scan, Print, Events, Good, PrintAll, EventsAll;
    TreesAre(ts);
    PlacedInside(mem, size, x, PrintAll(ts));
    if ts == [] {
      assert [] + Scan(mem, size, x) == Scan(mem, size, x);
    } else {
      var y, z := x + |Print(ts[0])|, x + |PrintAll(ts)|;
      PlacedSplit(mem, size, x, Print(ts[0]), PrintAll(ts[1..]));
      ScanTree(mem, size, x, ts[0]);
      ScanTrees(mem, size, y, ts[1..]);
      Regroup(Events(ts[0]), EventsAll(ts[1..]), Scan(mem, size, z));
    }
  }

  lemma TreesAre(ts: seq<Tree>)
    ensures PrintAll(ts) == if ts == [] then "" else Print(ts[0]) + PrintAll(ts[1..])
    ensures EventsAll(ts) == if ts == [] then [] else Events(ts[0]) + EventsAll(ts[1..])
  {}

  lemma Regroup(a: seq<Event>, b: seq<Event>, c: seq<Event>)
    ensures a + (b + c) == (a + b) + c
  {}

  // ---- what the callbacks make of it ----

  /** The leaves in document order, names and values cut to their buffers; the port listing goes elsewhere. */
  function Leaves(t: Tree): seq<Pair> {
    match t
    case Leaf(_, name, _, text, _) =>
      if Cut(name, 64) == PORT_LISTING then [] else [Pair(Cut(name, 64), Cut(text, 128))]
    case Elem(_, _, _, kids) => LeavesAll(kids)
    case Comment(_) => []
    case Gap(_) => []
  }

  function LeavesAll(ts: seq<Tree>): seq<Pair> {
    if ts == [] then [] else Leaves(ts[0]) + LeavesAll(ts[1..])
  }

  /** The text of the last port listing, uncut, or what was known before. */
  function Listing(t: Tree, before: Option<string>): Option<string> {
    match t
    case Leaf(_, name, _, text, _) => if Cut(name, 64) == PORT_LISTING && text != "" then Some(text) else before
    case Elem(_, _, _, kids) => ListingAll(kids, before)
    case Comment(_) => before
    case Gap(_) => before
  }

  function ListingAll(ts: seq<Tree>, before: Option<string>): Option<string> {
    if ts == [] then before else ListingAll(ts[1..], Listing(ts[0], before))
  }

  /** What the callbacks of a tree leave: its leaves stand in front of the list, last first; containers,
      comments and gaps leave no trace. */
  ghost predicate HandledTo(d: Parsed, leaves: seq<Pair>, listing: Option<string>, d': Parsed) {
    d'.pairs == Reverse(leaves) + d.pairs && d'.portListing == listing
  }

  lemma {:induction false} HandleTree(d: Parsed, t: Tree)
    requires Good(t)
    ensures var d' := HandleAll(d, Events(t));
            && HandledTo(d, Leaves(t), Listing(t, d.portListing), d')
            && (if Element(t) then !d'.topelt else d'.topelt == d.topelt)
    decreases t, 0
  {
    hide Full, GoodName, Prolog, Before;
    match t
    case Leaf(_, _, _, _, _) =>
      HandleLeaf(d, t);
    case Elem(prefix, name, attrs, kids) =>
      var d1, end := Handle(d, Start(name)), End(Full(prefix, name));
      HandleConcat(d, [Start(name)] + EventsAll(kids), [end]);
      HandleConcat(d, [Start(name)], EventsAll(kids));
      HandleOne(d, Start(name));
      HandleTrees(d1, kids);
      HandleOne(HandleAll(d1, EventsAll(kids)), end);
    case Comment(_) =>
      HandleNothing(d);
    case Gap(_) =>
      HandleNothing(d);
  }

  lemma HandleLeaf(d: Parsed, t: Tree)
    requires t.Leaf?
    ensures var d' := HandleAll(d, Events(t));
            HandledTo(d, Leaves(t), Listing(t, d.portListing), d') && !d'.topelt
  {
    hide Full;
    var data, end := if t.text != "" then [Data(t.text)] else [], End(Full(t.prefix, t.name));
    var d1 := Handle(d, Start(t.name));
    HandleConcat(d, [Start(t.name)] + data, [end]);
    HandleConcat(d, [Start(t.name)], data);
    HandleOne(d, Start(t.name));
    HandleNothing(d1);
    HandleOne(d1, Data(t.text));
    HandleOne(HandleAll(d1, data), end);
  }

  lemma {:induction false} HandleTrees(d: Parsed, ts: seq<Tree>)
    requires GoodAll(ts)
    ensures var d' := HandleAll(d, EventsAll(ts));
            && HandledTo(d, LeavesAll(ts), ListingAll(ts, d.portListing), d')
            && (if HasElement(ts) then !d'.topelt else d'.topelt == d.topelt)
    decreases ts, 1
  {
    hide Reverse, Leaves, Events, Handle, Listing, Good;
    if ts == [] {
      HandleNothing(d);
      NothingReversed();
    } else {
      var d1 := HandleAll(d, Events(ts[0]));
      HandleConcat(d, Events(ts[0]), EventsAll(ts[1..]));
      HandleTree(d, ts[0]);
      HandleTrees(d1, ts[1..]);
      ReverseConcat(Leaves(ts[0]), LeavesAll(ts[1..]));
      assert Reverse(LeavesAll(ts[1..])) + (Reverse(Leaves(ts[0])) + d.pairs)
          == Reverse(LeavesAll(ts[1..])) + Reverse(Leaves(ts[0])) + d.pairs;
    }
  }

  lemma NothingReversed()
    ensures Reverse<Pair>([]) == []
  {}

  lemma PlacedWhole(doc: string, behind: char)
    ensures Placed(doc + [behind], |doc|, 0, doc)
  {
    assert (doc + [behind])[0..|doc|] == doc;
  }

  lemma ScanEnd(mem: string, size: nat)
    requires Readable(mem, size)
    ensures Scan(mem, size, size) == []
  {}

  /** Reading a printed document back gives exactly its leaves under their names without prefix, the last one
      of the document first, and the last port listing, whatever character stands behind it in memory. */
  lemma ReadBack(prolog: string, t: Tree, behind: char)
    requires Prolog(prolog) && Good(t) && Element(t)
    ensures var doc := prolog + Print(t);
            var read := HandleAll(NOTHING, Scan(doc + [behind], |doc|, 0));
            read.pairs == Reverse(Leaves(t)) && read.portListing == Listing(t, None)
  {
    hide Placed, Print, Leaves, Events, Prolog, Scan, Listing, Full, GoodName;
    var doc := prolog + Print(t);
    var mem, size, x := doc + [behind], |doc|, |prolog|;
    PlacedWhole(doc, behind);
    PlacedSplit(mem, size, 0, prolog, Print(t));
    var _ := PrintBegins(t);
    NamedSomething(t.prefix, t.name);
    FullIs(t.prefix, t.name);
    ScanProlog(mem, size, 0, prolog);
    ScanTree(mem, size, x, t);
    ScanEnd(mem, size);
    assert Events(t) + [] == Events(t);
    HandleTree(NOTHING, t);
    assert Reverse(Leaves(t)) + [] == Reverse(Leaves(t));
  }

  /** Looking a name up finds the last leaf of the document that carries it, */
  lemma {:induction false} LookupFindsLast(leaves: seq<Pair>, name: string, i: nat)
    requires i < |leaves| && leaves[i].name == name
    requires forall j | i < j < |leaves| :: leaves[j].name != name
    ensures Lookup(Reverse(leaves), name) == Some(leaves[i].value)
  {
    if i < |leaves| - 1 {
      LookupFindsLast(leaves[..|leaves| - 1], name, i);
    }
  }

  /** and nothing if there is none. */
  lemma {:induction false} LookupFindsNone(leaves: seq<Pair>, name: string)
    requires forall j | 0 <= j < |leaves| :: leaves[j].name != name
    ensures Lookup(Reverse(leaves), name) == None
  {
    if leaves != [] {
        LookupFindsNone(leaves[..|leaves| - 1], name);
    }
  }

  /** So a value is found in a document under the name without prefix that its last leaf carries. */
  lemma ReadByName(prolog: string, t: Tree, behind: char, name: string, i: nat)
    requires Prolog(prolog) && Good(t) && Element(t)
    requires i < |Leaves(t)| && Leaves(t)[i].name == name && forall j | i < j < |Leaves(t)| :: Leaves(t)[j].name != name
    ensures var doc := prolog + Print(t);
            Lookup(HandleAll(NOTHING, Scan(doc + [behind], |doc|, 0)).pairs, name) == Some(Leaves(t)[i].value)
  {
    hide Good, Prolog, Leaves, Print, Scan;
    ReadBack(prolog, t, behind);
    LookupFindsLast(Leaves(t), name, i);
  }

  const ARGUMENT := "NewExternalPort"

  lemma ArgumentName(prefix: string)
    requires (forall c | c in prefix :: NameChar(c)) && (prefix != "" ==> prefix[0] != '?' && prefix[0] != '!')
    ensures GoodName(prefix, ARGUMENT) && Cut(ARGUMENT, 64) == ARGUMENT && ARGUMENT != PORT_LISTING
  {
    assert forall c | c in ARGUMENT :: NameChar(c);
    var full := Full(prefix, ARGUMENT);
    assert full[0] == if prefix == "" then 'N' else prefix[0];
    assert "!--"[0] == '!' && "![CDATA["[0] == '!';
    assert ARGUMENT[3] == 'E' && PORT_LISTING[3] == 'P';
  }

  /** One argument of a SOAP request, with whatever prefix, as text or in a CDATA section. */
  lemma ArgumentIsFound(prefix: string, text: string, cdata: bool, behind: char)
    requires (forall c | c in prefix :: NameChar(c)) && (prefix != "" ==> prefix[0] != '?' && prefix[0] != '!')
    requires if cdata then Before(text, "]]>") else '<' !in text
    ensures var doc := Print(Leaf(prefix, ARGUMENT, [], text, cdata));
            Lookup(HandleAll(NOTHING, Scan(doc + [behind], |doc|, 0)).pairs, ARGUMENT) == Some(Cut(text, 128))
  {
    hide Print, Scan, Before, GoodName, Cut, ARGUMENT;
    var t := Leaf(prefix, ARGUMENT, [], text, cdata);
    ArgumentName(prefix);
    assert "" + Print(t) == Print(t);
    ReadByName("", t, behind, ARGUMENT, 0);
  }

  // ---- a value without quotes in front of the '>' ----

  lemma {:induction false} SkipNone(mem: string, lim: nat, x: nat, cls: Class)
    requires Readable(mem, lim) && x < lim && forall i | x <= i < lim :: In(mem[i], cls)
    ensures Skip(mem, lim, x, cls) == None
    decreases lim - x
  {
    if x + 1 < lim {
      SkipNone(mem, lim, x + 1, cls);
    }
  }

  const BARE_TREE := Elem("", "a", [Attr(" ", "b", "", "", "c", Bare)], [Leaf("", "d", [], "x", false)])

  lemma BareOpenText()
    ensures OpenText("a", [Attr(" ", "b", "", "", "c", Bare)]) == "<a b=c>"
  {
    var attr := Attr(" ", "b", "", "", "c", Bare);
    assert Equals(attr) == "=" && AttrText(attr) == "b" + ("=" + ("" + ("c" + ""))) == "b=c";
    assert AttrsText([attr]) == " " + ("b=c" + AttrsText([])) == " b=c";
  }

  lemma LeafOneText()
    ensures Print(Leaf("", "d", [], "x", false)) == "<d>x</d>"
  {
    assert OpenText("d", []) == "<" + ("d" + ("" + ">")) == "<d>";
    assert CloseText("d") == "</d>";
  }

  lemma BareTreeText()
    ensures Print(BARE_TREE) == "<a b=c>" + "<d>x</d></a>"
  {
    BareOpenText();
    LeafOneText();
    hide OpenText, AttrsText;
    var leaf := Leaf("", "d", [], "x", false);
    assert PrintAll([leaf]) == Print(leaf) + PrintAll([]) == "<d>x</d>";
    assert CloseText("a") == "</a>";
  }

  lemma BareTreeChars(mem: string, behind: char)
    requires mem == "<a b=c>" + "<d>x</d></a>" + [behind]
    ensures |mem| == 20 && mem[..7] == "<a b=c>" && mem[1..2] == "a" && mem[3..7] == "b=c>"
    ensures forall i | 7 <= i < 19 :: mem[i] != '=' && !IsWhite(mem[i])
    ensures mem[7] == '<'
  {
    var open, rest := "<a b=c>", "<d>x</d></a>";
    assert open[1..2] == "a" && open[3..7] == "b=c>";
    assert '=' !in rest && ' ' !in rest && '\t' !in rest && '\r' !in rest && '\n' !in rest;
    assert forall i | 7 <= i < 19 :: mem[i] == rest[i - 7] && mem[i] in rest;
  }

  lemma BareAttrIsGood()
    ensures var a := Attr(" ", "b", "", "", "c", Bare);
            GoodAttr(a) && Equals(a) == "=" && a.name + (Equals(a) + (a.value + ">")) == "b=c>"
    ensures !In('>', Unquoted) && forall c | c in "c" :: In(c, Unquoted)
  {
    var a := Attr(" ", "b", "", "", "c", Bare);
    assert Equals(a) == "" + ("=" + "") == "=";
    assert "b" + ("=" + ("c" + ">")) == "b=c>";
  }

  lemma BareAttrRun(mem: string)
    requires |mem| == 20 && mem[3..7] == "b=c>"
    ensures Attribute(mem, 19, 3) == Some(6)
  {
    hide Placed, Attribute, GoodAttr, Equals, In;
    BareAttrIsGood();
    PlacedHere(mem, 19, 3, "b=c>");
    BareRun(mem, 19, 3, Attr(" ", "b", "", "", "c", Bare), ">");
  }

  /** Behind the bare value the '>' is stepped over, and no further '=' is found. */
  lemma BareTreeAttributes(mem: string, behind: char)
    requires mem == "<a b=c>" + "<d>x</d></a>" + [behind]
    ensures |mem| == 20 && Attributes(mem, 19, 2) == None
  {
    BareTreeChars(mem, behind);
    assert mem[2] == mem[..7][2] == ' ' && mem[3] == mem[..7][3] == 'b';
    hide Skip, Attribute, Attributes, Placed;
    BareAttrRun(mem);
    SkipNone(mem, 19, 7, AttName);
    NoAttribute(mem, 19, 7);
    AttributesOne(mem, 19, 7);
    AttributesOne(mem, 19, 3);
    AttributesWhite(mem, 19, 2);
  }

  lemma BareTreeTurn(mem: string, behind: char)
    requires mem == "<a b=c>" + "<d>x</d></a>" + [behind]
    ensures |mem| == 20 && OneTurn(mem, 19, 0) == Stop([Start("a")])
  {
    BareTreeChars(mem, behind);
    BareTreeAttributes(mem, behind);
    assert forall i | 0 <= i < 7 :: mem[i] == mem[..7][i];
    hide Attributes, Name;
    NameRun(mem, 19, 1, 1, 1);
    NotComment(mem, 0);
  }

  lemma ScanStops(mem: string, size: nat, x: nat)
    requires Readable(mem, size) && x + 1 < size && OneTurn(mem, size, x).Stop?
    ensures Scan(mem, size, x) == OneTurn(mem, size, x).events
  {}

  /** The scanner steps over the '>' of <a b=c> and takes what follows for more attributes: the leaf is lost. */
  lemma BareValueHidesLeaf(behind: char)
    ensures GoodAttr(Attr(" ", "b", "", "", "c", Bare)) && Good(Leaf("", "d", [], "x", false))
    ensures var doc := Print(BARE_TREE);
            HandleAll(NOTHING, Scan(doc + [behind], |doc|, 0)).pairs == []
  {
    BareTreeText();
    hide Print, OneTurn, Scan, BARE_TREE;
    var mem := "<a b=c>" + "<d>x</d></a>" + [behind];
    BareTreeTurn(mem, behind);
    ScanStops(mem, 19, 0);
    HandleOne(NOTHING, Start("a"));
  }

  lemma NoAttribute(mem: string, size: nat, x: nat)
    requires Readable(mem, size) && x < size && Skip(mem, size, x, AttName) == None
    ensures Attribute(mem, size, x) == None
  {}

  lemma PlacedHere(mem: string, size: nat, x: nat, s: string)
    requires x + |s| <= size < |mem| && mem[x..x + |s|] == s
    ensures Placed(mem, size, x, s)
  {}
}
