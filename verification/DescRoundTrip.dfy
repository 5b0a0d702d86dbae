/** The printer of upnpdescgen.c against the reader of minixml.c and upnpreplyparse.c: what the
    daemon generates from a table, its own scanner reads back as the table's leaves. */
module DescRoundTrip {
  import opened Net
  import opened NameValue
  import opened MiniXml
  import X = XmlRoundTrip
  import opened DescGen

  const XMLVER := "<?xml version=\"1.0\"?>\r\n"

  /** The name of a node in the table, taken apart: element name and attributes. */
  datatype Tag = Tag(name: string, attrs: seq<X.Attr>)

  ghost predicate GoodTag(tag: Tag) {
    && X.GoodName("", tag.name) && (forall c | c in tag.name :: c > ' ')
    && X.GoodAttrs(tag.attrs)
  }

  /** `tags` takes apart the names of all nodes; leaves have plain names and '<'-free data. */
  ghost predicate Readable(cfg: Settings, p: seq<XMLElt>, tags: seq<Tag>) {
    && |tags| == |p|
    && (cfg.randomUrl.Some? ==> '<' !in cfg.randomUrl.value)
    && (forall i | 0 <= i < |p| && p[i].Node? :: GoodTag(tags[i]) && p[i].name == tags[i].name + X.AttrsText(tags[i].attrs))
    && (forall i | 0 <= i < |p| && p[i].Leaf? :: X.GoodName("", p[i].name) && '<' !in p[i].data)
  }

  function PrintedAttrs(cfg: Settings, name: string, tag: Tag): seq<X.Attr> {
    tag.attrs + if "root " <= name then [X.Attr(" ", "configId", "", "", Decimal(cfg.configId), X.Double)] else []
  }

  /** The element tree the table stands for; leaves without data are not printed. */
  ghost function Trees(cfg: Settings, p: seq<XMLElt>, tags: seq<Tag>, i: nat): seq<X.Tree>
    requires WellFormed(p) && |tags| == |p| && i < |p|
    decreases |p| - i, 0
  {
    match p[i]
    case End => []
    case Leaf(name, data) => if data == "" then [] else [X.Leaf("", name, [], LeafData(cfg, data), false)]
    case Node(name, first, count) =>
      [X.Elem("", tags[i].name, PrintedAttrs(cfg, name, tags[i]), Forest(cfg, p, tags, first, first + count))]
  }

  ghost function Forest(cfg: Settings, p: seq<XMLElt>, tags: seq<Tag>, i: nat, j: nat): seq<X.Tree>
    requires WellFormed(p) && |tags| == |p| && i <= j <= |p|
    decreases |p| - i, 1 + j - i
  {
    if i == j then [] else Trees(cfg, p, tags, i) + Forest(cfg, p, tags, i + 1, j)
  }

  /** Every node has something printed inside. */
  ghost predicate Inhabited(cfg: Settings, p: seq<XMLElt>, tags: seq<Tag>)
    requires WellFormed(p) && |tags| == |p|
  {
    forall i | 0 <= i < |p| && p[i].Node? :: Forest(cfg, p, tags, p[i].first, p[i].first + p[i].count) != []
  }

  /** The leaves with data below `i`, in document order, cut as the reader cuts them. */
  function TableLeaves(cfg: Settings, p: seq<XMLElt>, i: nat): seq<Pair>
    requires WellFormed(p) && i < |p|
    decreases |p| - i, 0
  {
    match p[i]
    case End => []
    case Leaf(name, data) =>
      if data == "" || Cut(name, 64) == PORT_LISTING then []
      else [Pair(Cut(name, 64), Cut(LeafData(cfg, data), 128))]
    case Node(_, first, count) => TableLeavesIn(cfg, p, first, first + count)
  }

  function TableLeavesIn(cfg: Settings, p: seq<XMLElt>, i: nat, j: nat): seq<Pair>
    requires WellFormed(p) && i <= j <= |p|
    decreases |p| - i, 1 + j - i
  {
    if i == j then [] else TableLeaves(cfg, p, i) + TableLeavesIn(cfg, p, i + 1, j)
  }

  // ---- lists of trees ----

  lemma {:induction false} PrintConcat(a: seq<X.Tree>, b: seq<X.Tree>)
    ensures X.PrintAll(a + b) == X.PrintAll(a) + X.PrintAll(b)
    ensures X.LeavesAll(a + b) == X.LeavesAll(a) + X.LeavesAll(b)
    decreases |a|
  {
    hide X.Print, X.Leaves;
    if a == [] {
      assert a + b == b;
      NothingPrinted();
    } else {
      assert (a + b)[1..] == a[1..] + b;
      PrintConcat(a[1..], b);
      assert X.Print(a[0]) + (X.PrintAll(a[1..]) + X.PrintAll(b)) == X.Print(a[0]) + X.PrintAll(a[1..]) + X.PrintAll(b);
      assert X.Leaves(a[0]) + (X.LeavesAll(a[1..]) + X.LeavesAll(b)) == X.Leaves(a[0]) + X.LeavesAll(a[1..]) + X.LeavesAll(b);
    }
  }

  lemma NothingPrinted()
    ensures X.PrintAll([]) == "" && X.LeavesAll([]) == []
  {}

  lemma {:induction false} GoodConcat(a: seq<X.Tree>, b: seq<X.Tree>)
    requires X.GoodAll(a) && X.GoodAll(b)
    ensures X.GoodAll(a + b)
    decreases |a|
  {
    hide X.Good;
    if a == [] {
      assert a + b == b;
    } else {
      assert (a + b)[1..] == a[1..] + b;
      GoodConcat(a[1..], b);
    }
  }

  lemma PrintOne(t: X.Tree)
    ensures X.PrintAll([t]) == X.Print(t) && X.LeavesAll([t]) == X.Leaves(t)
    ensures X.GoodAll([t]) <==> X.Good(t)
  {
    assert X.Print(t) + "" == X.Print(t) && X.Leaves(t) + [] == X.Leaves(t);
  }

  // ---- tags ----

  lemma {:induction false} AttrsConcat(a: seq<X.Attr>, b: seq<X.Attr>)
    ensures X.AttrsText(a + b) == X.AttrsText(a) + X.AttrsText(b)
    decreases |a|
  {
    if a == [] {
      assert a + b == b;
    } else {
      assert (a + b)[1..] == a[1..] + b;
      AttrsConcat(a[1..], b);
    }
  }

  lemma StartTagIsOpen(cfg: Settings, name: string, tag: Tag)
    requires GoodTag(tag) && name == tag.name + X.AttrsText(tag.attrs)
    ensures StartTag(cfg, name) == X.OpenText(tag.name, PrintedAttrs(cfg, name, tag))
    ensures X.GoodAttrs(PrintedAttrs(cfg, name, tag))
  {
    var id := X.Attr(" ", "configId", "", "", Decimal(cfg.configId), X.Double);
    ConfigIdText(cfg);
    hide X.AttrText, X.AttrsText, X.GoodAttr, Decimal;
    if "root " <= name {
      AttrsConcat(tag.attrs, [id]);
      assert "<" + (tag.name + X.AttrsText(tag.attrs)) + (" configId=\"" + Decimal(cfg.configId) + "\"") + ">"
          == "<" + (tag.name + ((X.AttrsText(tag.attrs) + (" configId=\"" + Decimal(cfg.configId) + "\"")) + ">"));
    } else {
      assert tag.attrs + [] == tag.attrs;
      assert "<" + (tag.name + X.AttrsText(tag.attrs)) + "" + ">" == "<" + (tag.name + (X.AttrsText(tag.attrs) + ">"));
    }
  }

  lemma ConfigIdText(cfg: Settings)
    ensures X.AttrsText([X.Attr(" ", "configId", "", "", Decimal(cfg.configId), X.Double)]) == " configId=\"" + Decimal(cfg.configId) + "\""
    ensures X.GoodAttr(X.Attr(" ", "configId", "", "", Decimal(cfg.configId), X.Double))
  {
    var d := Decimal(cfg.configId);
    assert X.Equals(X.Attr(" ", "configId", "", "", d, X.Double)) == "=";
    assert " " + (("configId" + ("=" + ("\"" + (d + "\"")))) + "") == " configId=\"" + d + "\"";
  }

  lemma {:induction false} BareNameStops(name: string, rest: string)
    requires (forall c | c in name :: c > ' ') && (rest != "" ==> rest[0] <= ' ')
    ensures BareName(name + rest) == name
  {
    if name == "" {
      assert name + rest == rest;
    } else {
      assert name[0] in name;
      assert (name + rest)[1..] == name[1..] + rest;
      assert forall c | c in name[1..] :: c in name;
      BareNameStops(name[1..], rest);
    }
  }

  lemma AttrsStart(attrs: seq<X.Attr>)
    requires X.GoodAttrs(attrs)
    ensures X.AttrsText(attrs) != "" ==> X.AttrsText(attrs)[0] <= ' '
  {
    if attrs != [] {
      assert attrs[0] in attrs && attrs[0].space[0] in attrs[0].space;
    }
  }

  lemma EndTagIsClose(name: string, tag: Tag)
    requires GoodTag(tag) && name == tag.name + X.AttrsText(tag.attrs)
    ensures EndTag(name) == X.CloseText(tag.name)
  {
    AttrsStart(tag.attrs);
    BareNameStops(tag.name, X.AttrsText(tag.attrs));
    assert "</" + tag.name + ">" == "</" + (tag.name + ">");
  }

  // ---- the table's serialisation is the printing of its tree ----

  lemma LeafIsPrinted(cfg: Settings, name: string, data: string)
    requires data != "" && X.GoodName("", name) && '<' !in data
    requires cfg.randomUrl.Some? ==> '<' !in cfg.randomUrl.value
    ensures LeafText(cfg, name, data) == X.Print(X.Leaf("", name, [], LeafData(cfg, data), false))
    ensures X.Good(X.Leaf("", name, [], LeafData(cfg, data), false))
  {
    var d := LeafData(cfg, data);
    assert "<" + (name + (X.AttrsText([]) + ">")) + d + ("</" + (name + ">")) == "<" + name + ">" + d + "</" + name + ">";
    assert forall c | c in data[..|data| - 1] :: c in data;
  }

  lemma {:induction false} SerialIsPrinted(cfg: Settings, p: seq<XMLElt>, tags: seq<Tag>, i: nat)
    requires WellFormed(p) && Readable(cfg, p, tags) && Inhabited(cfg, p, tags) && i < |p|
    ensures X.PrintAll(Trees(cfg, p, tags, i)) == Serial(cfg, p, i)
    ensures X.GoodAll(Trees(cfg, p, tags, i)) && forall t | t in Trees(cfg, p, tags, i) :: X.Element(t)
    ensures X.LeavesAll(Trees(cfg, p, tags, i)) == TableLeaves(cfg, p, i)
    decreases |p| - i, 0
  {
    hide X.AttrText, X.AttrsText, X.GoodAttr, X.GoodName, X.Good, X.Print, Decimal, StartTag, EndTag, PrintedAttrs;
    match p[i]
    case End =>
    case Leaf(name, data) =>
      if data != "" {
        LeafIsPrinted(cfg, name, data);
        PrintOne(X.Leaf("", name, [], LeafData(cfg, data), false));
      }
    case Node(name, first, count) =>
      SerialsArePrinted(cfg, p, tags, first, first + count);
      NodeIsPrinted(cfg, name, tags[i], Forest(cfg, p, tags, first, first + count));
  }

  lemma NodeIsPrinted(cfg: Settings, name: string, tag: Tag, kids: seq<X.Tree>)
    requires GoodTag(tag) && name == tag.name + X.AttrsText(tag.attrs) && X.HasElement(kids) && X.GoodAll(kids)
    ensures var t := X.Elem("", tag.name, PrintedAttrs(cfg, name, tag), kids);
            && X.PrintAll([t]) == StartTag(cfg, name) + X.PrintAll(kids) + EndTag(name)
            && X.GoodAll([t]) && X.LeavesAll([t]) == X.LeavesAll(kids)
  {
    hide X.AttrText, X.AttrsText, X.GoodAttr, X.GoodAttrs, Decimal, PrintedAttrs, StartTag, EndTag, X.OpenText, X.CloseText, X.GoodAll, X.PrintAll, X.LeavesAll, X.HasElement;
    StartTagIsOpen(cfg, name, tag);
    EndTagIsClose(name, tag);
    PrintOne(X.Elem("", tag.name, PrintedAttrs(cfg, name, tag), kids));
  }

  lemma {:induction false} SerialsArePrinted(cfg: Settings, p: seq<XMLElt>, tags: seq<Tag>, i: nat, j: nat)
    requires WellFormed(p) && Readable(cfg, p, tags) && Inhabited(cfg, p, tags) && i <= j <= |p|
    ensures X.PrintAll(Forest(cfg, p, tags, i, j)) == Serials(cfg, p, i, j)
    ensures X.GoodAll(Forest(cfg, p, tags, i, j)) && forall t | t in Forest(cfg, p, tags, i, j) :: X.Element(t)
    ensures X.LeavesAll(Forest(cfg, p, tags, i, j)) == TableLeavesIn(cfg, p, i, j)
    decreases |p| - i, 1 + j - i
  {
    hide X.AttrText, X.AttrsText, X.GoodAttr, X.GoodName, Decimal, X.Print, X.Good, X.Leaves;
    if i < j {
      SerialIsPrinted(cfg, p, tags, i);
      SerialsArePrinted(cfg, p, tags, i + 1, j);
      PrintConcat(Trees(cfg, p, tags, i), Forest(cfg, p, tags, i + 1, j));
      GoodConcat(Trees(cfg, p, tags, i), Forest(cfg, p, tags, i + 1, j));
    }
  }

  /** The description generated from a table, read by the daemon's own reader: exactly the leaves
      with data, the last one of the document first. */
  lemma DescriptionReadsBack(cfg: Settings, p: seq<XMLElt>, tags: seq<Tag>, behind: char)
    requires WellFormed(p) && Readable(cfg, p, tags) && Inhabited(cfg, p, tags) && p[0].Node?
    ensures var doc := XMLVER + Serial(cfg, p, 0);
            HandleAll(NOTHING, Scan(doc + [behind], |doc|, 0)).pairs == Reverse(TableLeaves(cfg, p, 0))
  {
    hide X.Print, X.Leaves, X.Good, X.Listing, Serial, TableLeaves, Scan, HandleAll, X.PrintAll, X.LeavesAll, X.GoodAll;
    SerialIsPrinted(cfg, p, tags, 0);
    var t := Trees(cfg, p, tags, 0)[0];
    assert Trees(cfg, p, tags, 0) == [t];
    PrintOne(t);
    X.ReadBack(XMLVER, t, behind);
  }
}
