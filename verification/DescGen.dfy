/** upnpdescgen.c, genXML(): a table that encodes an element tree by child indices is printed with
    a small explicit stack. */
module DescGen {
  import opened Net
  import opened StrBuf

  /** struct XMLElt. Leaf names come without the leading '/' that marks them in the table. */
  datatype XMLElt =
    | End
    | Leaf(name: string, data: string)
    | Node(name: string, first: nat, count: nat)

  /** The compile-time and run-time switches that change what is printed. */
  datatype Settings = Settings(randomUrl: Option<string>, forceV1: bool, versioned: set<string>, configId: U32)

  const STACK_SIZE := 16

  /** The text of a leaf: paths get the random prefix, device and service types may be forced to version 1. */
  function LeafData(cfg: Settings, data: string): string
    requires data != ""
  {
    (if cfg.randomUrl.Some? && data[0] == '/' then "/" + cfg.randomUrl.value else "")
    + if cfg.forceV1 && data[0] == 'u' && data in cfg.versioned then data[..|data| - 1] + "1" else data
  }

  function LeafText(cfg: Settings, name: string, data: string): string {
    if data == "" then ""
    else "<" + name + ">" + LeafData(cfg, data) + "</" + name + ">"
  }

  /** A start tag; the root element gets a configId attribute. */
  function StartTag(cfg: Settings, name: string): string {
    "<" + name + (if "root " <= name then " configId=\"" + Decimal(cfg.configId) + "\"" else "") + ">"
  }

  /** The part of a node's name before its attributes. */
  function BareName(name: string): string {
    if name == "" || name[0] <= ' ' then "" else [name[0]] + BareName(name[1..])
  }

  function EndTag(name: string): string {
    "</" + BareName(name) + ">"
  }

  /** The table describes a tree: children come after their parent, every node has one, no End marker
      is the root or a child, and indices fit in 16 bits. */
  ghost predicate WellFormed(p: seq<XMLElt>) {
    && 0 < |p| < 65536 && !p[0].End?
    && (forall i | 0 <= i < |p| && p[i].Node? ::
          i < p[i].first && 0 < p[i].count && p[i].first + p[i].count <= |p|
          && NoEnd(p, p[i].first, p[i].first + p[i].count))
  }

  predicate NoEnd(p: seq<XMLElt>, i: nat, j: nat) {
    forall c | i <= c < j && c < |p| :: !p[c].End?
  }

  /** The serialisation of the subtree at `i`. */
  function Serial(cfg: Settings, p: seq<XMLElt>, i: nat): string
    requires WellFormed(p) && i < |p|
    decreases |p| - i, 0
  {
    match p[i]
    case End => ""
    case Leaf(name, data) => LeafText(cfg, name, data)
    case Node(name, first, count) => StartTag(cfg, name) + Serials(cfg, p, first, first + count) + EndTag(name)
  }

  /** The serialisations of the subtrees from `i` up to `j`. */
  function Serials(cfg: Settings, p: seq<XMLElt>, i: nat, j: nat): string
    requires WellFormed(p) && i <= j <= |p|
    decreases |p| - i, 1 + j - i
  {
    if i == j then "" else Serial(cfg, p, i) + Serials(cfg, p, i + 1, j)
  }

  /** How many nodes lie on the longest way down from `i`. */
  function Depth(p: seq<XMLElt>, i: nat): nat
    requires WellFormed(p) && i < |p|
    decreases |p| - i, 0
  {
    if !p[i].Node? then 0 else 1 + Depths(p, p[i].first, p[i].first + p[i].count)
  }

  function Depths(p: seq<XMLElt>, i: nat, j: nat): nat
    requires WellFormed(p) && i <= j <= |p|
    decreases |p| - i, 1 + j - i
  {
    if i == j then 0
    else
      var d, rest := Depth(p, i), Depths(p, i + 1, j);
      if d < rest then rest else d
  }

  /** The number of elements in the subtree at `i`. */
  function Size(p: seq<XMLElt>, i: nat): (n: nat)
    requires WellFormed(p) && i < |p|
    ensures n > 0
    decreases |p| - i, 0
  {
    if !p[i].Node? then 1 else 1 + Sizes(p, p[i].first, p[i].first + p[i].count)
  }

  function Sizes(p: seq<XMLElt>, i: nat, j: nat): nat
    requires WellFormed(p) && i <= j <= |p|
    decreases |p| - i, 1 + j - i
  {
    if i == j then 0 else Size(p, i) + Sizes(p, i + 1, j)
  }

  // ---- a document ----

  /** A root with three children: text, a path and a service type. */
  const SAMPLE: seq<XMLElt> := [Node("root a=\"b\"", 1, 3), Leaf("x", "text"), Leaf("y", "/p.xml"), Leaf("z", "urn:t:2")]

  lemma SampleLeaves(cfg: Settings)
    ensures LeafText(cfg, "x", "text") == "<x>text</x>"
    ensures LeafText(cfg, "y", "/p.xml") == "<y>" + (if cfg.randomUrl.Some? then "/" + cfg.randomUrl.value else "") + "/p.xml</y>"
    ensures LeafText(cfg, "z", "urn:t:2") == if cfg.forceV1 && "urn:t:2" in cfg.versioned then "<z>urn:t:1</z>" else "<z>urn:t:2</z>"
  {
    assert "urn:t:2"[..6] == "urn:t:";
    var prefix := if cfg.randomUrl.Some? then "/" + cfg.randomUrl.value else "";
    assert LeafText(cfg, "y", "/p.xml") == "<y>" + (prefix + "/p.xml") + "</y>";
    assert "/p.xml" + "</y>" == "/p.xml</y>";
    assert "<y>" + (prefix + "/p.xml") + "</y>" == "<y>" + prefix + ("/p.xml" + "</y>");
  }

  lemma SampleStart(cfg: Settings)
    ensures StartTag(cfg, "root a=\"b\"") == "<root a=\"b\" configId=\"" + Decimal(cfg.configId) + "\">"
  {
    var name, id := "root a=\"b\"", Decimal(cfg.configId);
    hide Decimal;
    assert name[..5] == "root ";
    assert "<" + name + (" configId=\"" + id + "\"") + ">" == ("<" + name + " configId=\"") + id + ("\"" + ">");
    assert "<" + name + " configId=\"" == "<root a=\"b\" configId=\"" && "\"" + ">" == "\">";
  }

  lemma BareStep(c: char, rest: string)
    ensures BareName([c] + rest) == if c <= ' ' then "" else [c] + BareName(rest)
  {
    assert ([c] + rest)[1..] == rest;
  }

  lemma SampleEnd()
    ensures EndTag("root a=\"b\"") == "</root>"
  {
    hide BareName;
    BareStep('r', "oot a=\"b\"");
    BareStep('o', "ot a=\"b\"");
    BareStep('o', "t a=\"b\"");
    BareStep('t', " a=\"b\"");
    BareStep(' ', "a=\"b\"");
    assert ['r'] + "oot a=\"b\"" == "root a=\"b\"" && ['o'] + "ot a=\"b\"" == "oot a=\"b\"" && ['o'] + "t a=\"b\"" == "ot a=\"b\"";
    assert ['t'] + " a=\"b\"" == "t a=\"b\"" && [' '] + "a=\"b\"" == " a=\"b\"";
  }

  /** What is printed for it: the root gets the configId, the path the random prefix if there is one, and the
      type version 1 if it is one of those that are forced to it. */
  lemma SampleDocument(cfg: Settings)
    ensures WellFormed(SAMPLE)
    ensures Serial(cfg, SAMPLE, 0)
         == "<root a=\"b\" configId=\"" + Decimal(cfg.configId) + "\">"
            + ("<x>text</x>"
               + ("<y>" + (if cfg.randomUrl.Some? then "/" + cfg.randomUrl.value else "") + "/p.xml</y>"
                  + if cfg.forceV1 && "urn:t:2" in cfg.versioned then "<z>urn:t:1</z>" else "<z>urn:t:2</z>"))
            + "</root>"
  {
    SampleLeaves(cfg);
    SampleStart(cfg);
    SampleEnd();
    hide LeafText, StartTag, EndTag;
    var p := SAMPLE;
    var x, y, z := Serial(cfg, p, 1), Serial(cfg, p, 2), Serial(cfg, p, 3);
    assert Serials(cfg, p, 4, 4) == "" && z + "" == z;
    assert Serials(cfg, p, 3, 4) == z;
    assert Serials(cfg, p, 2, 4) == y + z;
    assert Serials(cfg, p, 1, 4) == x + (y + z);
  }

  // ---- the explicit stack ----

  /** An entry of the stack: the child being printed, the end of the children, the node's name. */
  datatype Frame = Frame(i: nat, j: nat, name: string)

  ghost predicate FramesOk(p: seq<XMLElt>, stack: seq<Frame>)
    requires WellFormed(p)
  {
    forall k | 0 <= k < |stack| ::
      stack[k].i < stack[k].j <= |p| && NoEnd(p, stack[k].i, stack[k].j) && k + 1 + Depths(p, stack[k].i + 1, stack[k].j) <= STACK_SIZE
  }

  /** What remains to be printed once the current child is done. */
  ghost function Remaining(cfg: Settings, p: seq<XMLElt>, stack: seq<Frame>): string
    requires WellFormed(p) && FramesOk(p, stack)
  {
    if stack == [] then ""
    else
      var top, rest := stack[|stack| - 1], stack[..|stack| - 1];
      Serials(cfg, p, top.i + 1, top.j) + EndTag(top.name) + Remaining(cfg, p, rest)
  }

  ghost function RemainingSize(p: seq<XMLElt>, stack: seq<Frame>): nat
    requires WellFormed(p) && FramesOk(p, stack)
  {
    if stack == [] then 0
    else
      var top, rest := stack[|stack| - 1], stack[..|stack| - 1];
      Sizes(p, top.i + 1, top.j) + RemainingSize(p, rest)
  }

  /** Entering a node: its frame takes over what is left of its serialisation. */
  lemma Push(cfg: Settings, p: seq<XMLElt>, stack: seq<Frame>, i: nat)
    requires WellFormed(p) && FramesOk(p, stack) && i < |p| && p[i].Node?
    requires |stack| + Depth(p, i) <= STACK_SIZE
    ensures var f := Frame(p[i].first, p[i].first + p[i].count, p[i].name);
            && FramesOk(p, stack + [f]) && |stack| < STACK_SIZE
            && |stack| + 1 + Depth(p, f.i) <= STACK_SIZE && !p[f.i].End?
            && Serial(cfg, p, i) + Remaining(cfg, p, stack)
               == StartTag(cfg, p[i].name) + (Serial(cfg, p, f.i) + Remaining(cfg, p, stack + [f]))
            && Size(p, f.i) + RemainingSize(p, stack + [f]) < Size(p, i) + RemainingSize(p, stack)
  {
    var f := Frame(p[i].first, p[i].first + p[i].count, p[i].name);
    assert (stack + [f])[..|stack|] == stack;
    var a, b, c := Serial(cfg, p, f.i), Serials(cfg, p, f.i + 1, f.j), EndTag(f.name);
    var r := Remaining(cfg, p, stack);
    assert Serial(cfg, p, i) == StartTag(cfg, p[i].name) + (a + b) + c;
    Regroup(StartTag(cfg, p[i].name), a, b, c, r);
  }

  /** Going on to the next child. */
  lemma Advance(cfg: Settings, p: seq<XMLElt>, stack: seq<Frame>)
    requires WellFormed(p) && stack != [] && FramesOk(p, stack)
    requires stack[|stack| - 1].i + 1 < stack[|stack| - 1].j
    ensures var n := |stack| - 1;
            var next := stack[n].(i := stack[n].i + 1);
            && FramesOk(p, stack[n := next]) && |stack| + Depth(p, next.i) <= STACK_SIZE && !p[next.i].End?
            && Remaining(cfg, p, stack) == Serial(cfg, p, next.i) + Remaining(cfg, p, stack[n := next])
            && RemainingSize(p, stack) == Size(p, next.i) + RemainingSize(p, stack[n := next])
  {
    hide Serial, Size, Depth, EndTag;
    var n := |stack| - 1;
    var next := stack[n].(i := stack[n].i + 1);
    var stack' := stack[n := next];
    assert stack'[..n] == stack[..n];
    var a, b, c := Serial(cfg, p, next.i), Serials(cfg, p, next.i + 1, next.j), EndTag(next.name);
    var r := Remaining(cfg, p, stack[..n]);
    Regroup("", a, b, c, r);
    assert "" + (a + b) + c + r == (a + b) + c + r && "" + (a + (b + c + r)) == a + (b + c + r);
  }

  lemma Regroup(s: string, a: string, b: string, c: string, r: string)
    ensures s + (a + b) + c + r == s + (a + (b + c + r))
  {}

  lemma Bottom(cfg: Settings, p: seq<XMLElt>)
    requires WellFormed(p)
    ensures FramesOk(p, []) && Remaining(cfg, p, []) == "" && RemainingSize(p, []) == 0
  {}

  lemma TopOk(p: seq<XMLElt>, stack: seq<Frame>)
    requires WellFormed(p) && stack != [] && FramesOk(p, stack)
    ensures stack[|stack| - 1].i < stack[|stack| - 1].j <= |p|
  {}

  lemma LeafSerial(cfg: Settings, p: seq<XMLElt>, i: nat)
    requires WellFormed(p) && i < |p| && p[i].Leaf?
    ensures Serial(cfg, p, i) == LeafText(cfg, p[i].name, p[i].data)
  {}

  lemma Assoc(a: string, b: string, c: string)
    ensures a + (b + c) == a + b + c
  {}

  /** Leaving a node. */
  lemma Pop(cfg: Settings, p: seq<XMLElt>, stack: seq<Frame>)
    requires WellFormed(p) && stack != [] && FramesOk(p, stack)
    requires stack[|stack| - 1].i + 1 == stack[|stack| - 1].j
    ensures var n := |stack| - 1;
            && FramesOk(p, stack[..n])
            && Remaining(cfg, p, stack) == EndTag(stack[n].name) + Remaining(cfg, p, stack[..n])
            && RemainingSize(p, stack) == RemainingSize(p, stack[..n])
  {
    var e := EndTag(stack[|stack| - 1].name);
    assert "" + e == e;
  }

  /** The leaf part of genXML(). */
  method PrintLeaf(out: Buffer, cfg: Settings, name: string, data: string)
    requires out.Valid()
    modifies out, out.str
    ensures out.Valid() && (out.str == old(out.str) || fresh(out.str))
    ensures out.Text() == old(out.Text()) + LeafText(cfg, name, data)
  {
    if data == "" {
      return;
    }
    ghost var was := out.Text();
    PrintTag(out, name);
    PrintData(out, cfg, data);
    PrintTag(out, "/" + name);
    assert was + ("<" + name + ">") + LeafData(cfg, data) + ("<" + ("/" + name) + ">") == was + LeafText(cfg, name, data);
  }

  /** '<', a text, '>' */
  method PrintTag(out: Buffer, text: string)
    requires out.Valid()
    modifies out, out.str
    ensures out.Valid() && (out.str == old(out.str) || fresh(out.str))
    ensures out.Text() == old(out.Text()) + ("<" + text + ">")
  {
    ghost var was := out.Text();
    out.AppendChar('<', true);
    out.AppendStr(text, true);
    out.AppendChar('>', true);
    assert was + "<" + text + ">" == was + ("<" + text + ">");
  }

  method PrintData(out: Buffer, cfg: Settings, data: string)
    requires out.Valid() && data != ""
    modifies out, out.str
    ensures out.Valid() && (out.str == old(out.str) || fresh(out.str))
    ensures out.Text() == old(out.Text()) + LeafData(cfg, data)
  {
    ghost var was, prefix := out.Text(), "";
    if cfg.randomUrl.Some? && data[0] == '/' {
      prefix := "/" + cfg.randomUrl.value;
      out.AppendChar('/', true);
      out.AppendStr(cfg.randomUrl.value, true);
    }
    assert out.Text() == was + prefix;
    out.AppendStr(data, true);
    if cfg.forceV1 && data[0] == 'u' && data in cfg.versioned {
      ghost var before := out.Text();
      out.str[out.len - 1] := '1';
      assert out.Text() == before[..|before| - 1] + "1";
      assert out.Text() == was + (prefix + (data[..|data| - 1] + "1"));
    }
  }

  method PrintStartTag(out: Buffer, cfg: Settings, name: string)
    requires out.Valid()
    modifies out, out.str
    ensures out.Valid() && (out.str == old(out.str) || fresh(out.str))
    ensures out.Text() == old(out.Text()) + StartTag(cfg, name)
  {
    ghost var was, attr := out.Text(), "";
    out.AppendChar('<', true);
    out.AppendStr(name, true);
    if "root " <= name {
      var number := "\"" + Decimal(cfg.configId) + "\"";
      ghost var before := out.Text();
      out.AppendStr(" configId=", true);
      out.AppendStr(number, true);
      attr := " configId=" + number;
      Assoc(before, " configId=", number);
      assert attr == " configId=\"" + Decimal(cfg.configId) + "\"";
    }
    Assoc(was, "<", name);
    Assoc(was, "<" + name, attr);
    assert out.Text() == was + ("<" + name + attr);
    out.AppendChar('>', true);
    Assoc(was, "<" + name + attr, ">");
  }

  method PrintEndTag(out: Buffer, name: string)
    requires out.Valid()
    modifies out, out.str
    ensures out.Valid() && (out.str == old(out.str) || fresh(out.str))
    ensures out.Text() == old(out.Text()) + EndTag(name)
  {
    ghost var was := out.Text();
    out.AppendChar('<', true);
    out.AppendChar('/', true);
    PrintBareName(out, name);
    out.AppendChar('>', true);
    assert was + "<" + "/" + BareName(name) + ">" == was + EndTag(name);
  }

  method PrintBareName(out: Buffer, name: string)
    requires out.Valid()
    modifies out, out.str
    ensures out.Valid() && (out.str == old(out.str) || fresh(out.str))
    ensures out.Text() == old(out.Text()) + BareName(name)
  {
    ghost var was, done := out.Text(), "";
    var s := 0;
    assert name[0..] == name;
    while s < |name| && name[s] > ' '
      invariant 0 <= s <= |name| && out.Valid() && (out.str == old(out.str) || fresh(out.str))
      invariant out.Text() == was + done && BareName(name) == done + BareName(name[s..])
      decreases |name| - s
    {
      out.AppendChar(name[s], true);
      Assoc(was, done, [name[s]]);
      assert name[s..][1..] == name[s + 1..];
      Assoc(done, [name[s]], BareName(name[s + 1..]));
      done := done + [name[s]];
      s := s + 1;
    }
    assert done + "" == done;
  }

  /** The inner loop of genXML(), after a leaf: nodes whose children are all printed are closed,
      and the next child of the one below is found. */
  method Unwind(out: Buffer, cfg: Settings, p: seq<XMLElt>, pile: array<Frame>, top0: int, ghost stack0: seq<Frame>)
    returns (i: nat, top: int, ghost stack: seq<Frame>)
    requires out.Valid() && WellFormed(p) && pile.Length == STACK_SIZE
    requires -1 <= top0 < STACK_SIZE && stack0 == pile[..top0 + 1] && FramesOk(p, stack0)
    modifies out, out.str, pile
    ensures out.Valid() && (out.str == old(out.str) || fresh(out.str))
    ensures -1 <= top < STACK_SIZE && stack == pile[..top + 1] && FramesOk(p, stack)
    ensures top < 0 ==> out.Text() == old(out.Text()) + Remaining(cfg, p, stack0)
    ensures top >= 0 ==>
              && i < |p| && !p[i].End? && |stack| + Depth(p, i) <= STACK_SIZE
              && out.Text() + (Serial(cfg, p, i) + Remaining(cfg, p, stack)) == old(out.Text()) + Remaining(cfg, p, stack0)
              && Size(p, i) + RemainingSize(p, stack) <= RemainingSize(p, stack0)
  {
    hide FramesOk, Remaining, RemainingSize, Serial, Size, Depth, EndTag;
    i, top, stack := 0, top0, stack0;
    while true
      invariant out.Valid() && (out.str == old(out.str) || fresh(out.str))
      invariant -1 <= top < STACK_SIZE && stack == pile[..top + 1] && FramesOk(p, stack)
      invariant out.Text() + Remaining(cfg, p, stack) == old(out.Text()) + Remaining(cfg, p, stack0)
      invariant RemainingSize(p, stack) <= RemainingSize(p, stack0)
      decreases top
    {
      if top < 0 {
        Bottom(cfg, p);
        assert out.Text() + "" == out.Text();
        return;
      }
      TopOk(p, stack);
      assert stack[top] == pile[top];
      pile[top] := pile[top].(i := pile[top].i + 1);
      i := pile[top].i;
      if i != pile[top].j {
        Advance(cfg, p, stack);
        stack := stack[top := pile[top]];
        assert stack == pile[..top + 1];
        return;
      }
      Pop(cfg, p, stack);
      ghost var before, rest := out.Text(), Remaining(cfg, p, stack[..top]);
      PrintEndTag(out, pile[top].name);
      Assoc(before, EndTag(stack[top].name), rest);
      stack := stack[..top];
      top := top - 1;
      assert stack == pile[..top + 1];
    }
  }

  /** genXML() */
  method GenXML(out: Buffer, cfg: Settings, p: seq<XMLElt>)
    requires out.Valid() && WellFormed(p) && Depth(p, 0) <= STACK_SIZE
    modifies out, out.str
    ensures out.Valid() && (out.str == old(out.str) || fresh(out.str))
    ensures out.Text() == old(out.Text()) + Serial(cfg, p, 0)
  {
    hide FramesOk, Remaining, RemainingSize, Serial, Size, Depth, EndTag, StartTag, LeafText;
    var pile := new Frame[STACK_SIZE](_ => Frame(0, 0, ""));
    Bottom(cfg, p);
    var top := -1;
    var i := 0;
    ghost var goal := out.Text() + Serial(cfg, p, 0);
    ghost var stack: seq<Frame> := [];
    assert Serial(cfg, p, 0) + "" == Serial(cfg, p, 0);
    while true
      invariant out.Valid() && (out.str == old(out.str) || fresh(out.str)) && fresh(pile)
      invariant -1 <= top < STACK_SIZE && stack == pile[..top + 1] && FramesOk(p, stack)
      invariant 0 <= i < |p| && !p[i].End? && |stack| + Depth(p, i) <= STACK_SIZE
      invariant out.Text() + (Serial(cfg, p, i) + Remaining(cfg, p, stack)) == goal
      decreases Size(p, i) + RemainingSize(p, stack)
    {
      match p[i]
      case End => assert false;
      case Leaf(name, data) =>
        ghost var size := Size(p, i) + RemainingSize(p, stack);
        ghost var was := out.Text();
        PrintLeaf(out, cfg, name, data);
        LeafSerial(cfg, p, i);
        Assoc(was, LeafText(cfg, name, data), Remaining(cfg, p, stack));
        i, top, stack := Unwind(out, cfg, p, pile, top, stack);
        if top < 0 {
          return;
        }
      case Node(name, first, count) =>
        Push(cfg, p, stack, i);
        ghost var was := out.Text();
        PrintStartTag(out, cfg, name);
        ghost var f := Frame(first, first + count, name);
        ghost var rest := Serial(cfg, p, first) + Remaining(cfg, p, stack + [f]);
        Assoc(was, StartTag(cfg, name), rest);
        i := first;
        var j := first + count;
        top := top + 1;
        pile[top] := Frame(i, j, name);
        stack := stack + [f];
        assert stack == pile[..top + 1];
    }
  }

  // ---- balanced tags ----

  /** A start tag, as the name of its element and as printed; an end tag; text. */
  datatype Token = Open(name: string, printed: string) | Close(name: string) | Text(text: string)

  function Render(tokens: seq<Token>): string {
    if tokens == [] then ""
    else
      (match tokens[0]
       case Open(_, printed) => printed
       case Close(name) => "</" + name + ">"
       case Text(text) => text) + Render(tokens[1..])
  }

  /** Reading the tokens with a stack of open elements: every end tag closes the innermost one, and
      `open` is left at the end. */
  predicate Closes(tokens: seq<Token>, open: seq<string>) {
    if tokens == [] then open == []
    else match tokens[0]
      case Open(name, _) => Closes(tokens[1..], open + [name])
      case Close(name) => open != [] && open[|open| - 1] == name && Closes(tokens[1..], open[..|open| - 1])
      case Text(_) => Closes(tokens[1..], open)
  }

  function Tokens(cfg: Settings, p: seq<XMLElt>, i: nat): seq<Token>
    requires WellFormed(p) && i < |p|
    decreases |p| - i, 0
  {
    match p[i]
    case End => []
    case Leaf(name, data) =>
      if data == "" then [] else [Open(name, "<" + name + ">"), Text(LeafData(cfg, data)), Close(name)]
    case Node(name, first, count) =>
      [Open(BareName(name), StartTag(cfg, name))] + TokenLists(cfg, p, first, first + count) + [Close(BareName(name))]
  }

  function TokenLists(cfg: Settings, p: seq<XMLElt>, i: nat, j: nat): seq<Token>
    requires WellFormed(p) && i <= j <= |p|
    decreases |p| - i, 1 + j - i
  {
    if i == j then [] else Tokens(cfg, p, i) + TokenLists(cfg, p, i + 1, j)
  }

  lemma {:induction false} RenderConcat(a: seq<Token>, b: seq<Token>)
    ensures Render(a + b) == Render(a) + Render(b)
  {
    if a == [] {
      assert a + b == b;
    } else {
      assert (a + b)[1..] == a[1..] + b;
      RenderConcat(a[1..], b);
    }
  }

  lemma LeafIsRendered(cfg: Settings, name: string, data: string)
    requires data != ""
    ensures Render([Open(name, "<" + name + ">")] + [Text(LeafData(cfg, data))] + [Close(name)]) == LeafText(cfg, name, data)
  {
    var d := LeafData(cfg, data);
    RenderElement(Open(name, "<" + name + ">"), [Text(d)], name);
    assert Render([Text(d)]) == d + "";
    assert ("<" + name + ">") + d + ("</" + name + ">") == "<" + name + ">" + d + "</" + name + ">";
  }

  /** The serialisation is the rendering of these tokens, */
  lemma {:induction false} SerialIsRendered(cfg: Settings, p: seq<XMLElt>, i: nat)
    requires WellFormed(p) && i < |p|
    ensures Render(Tokens(cfg, p, i)) == Serial(cfg, p, i)
    decreases |p| - i, 0
  {
    hide StartTag, BareName, LeafText;
    match p[i]
    case End =>
    case Leaf(name, data) =>
      if data != "" {
        LeafIsRendered(cfg, name, data);
        assert Tokens(cfg, p, i) == [Open(name, "<" + name + ">")] + [Text(LeafData(cfg, data))] + [Close(name)];
      } else {
        NoLeafText(cfg, name);
      }
    case Node(name, first, count) =>
      SerialsAreRendered(cfg, p, first, first + count);
      RenderElement(Open(BareName(name), StartTag(cfg, name)), TokenLists(cfg, p, first, first + count), BareName(name));
  }

  lemma NoLeafText(cfg: Settings, name: string)
    ensures LeafText(cfg, name, "") == ""
  {}

  lemma RenderElement(start: Token, inner: seq<Token>, name: string)
    requires start.Open?
    ensures Render([start] + inner + [Close(name)]) == start.printed + Render(inner) + ("</" + name + ">")
  {
    RenderConcat([start] + inner, [Close(name)]);
    RenderConcat([start], inner);
    assert Render([start]) == start.printed + "";
    assert Render([Close(name)]) == "</" + name + ">" + "";
  }

  lemma {:induction false} SerialsAreRendered(cfg: Settings, p: seq<XMLElt>, i: nat, j: nat)
    requires WellFormed(p) && i <= j <= |p|
    ensures Render(TokenLists(cfg, p, i, j)) == Serials(cfg, p, i, j)
    decreases |p| - i, 1 + j - i
  {
    if i < j {
      SerialIsRendered(cfg, p, i);
      SerialsAreRendered(cfg, p, i + 1, j);
      RenderConcat(Tokens(cfg, p, i), TokenLists(cfg, p, i + 1, j));
    }
  }

  /** and reading them leaves the open elements as they were, whatever comes after: tags are balanced. */
  lemma {:induction false} TokensAreBalanced(cfg: Settings, p: seq<XMLElt>, i: nat, rest: seq<Token>, open: seq<string>)
    requires WellFormed(p) && i < |p|
    ensures Closes(Tokens(cfg, p, i) + rest, open) <==> Closes(rest, open)
    decreases |p| - i, 0
  {
    hide Closes;
    match p[i]
    case End =>
      assert [] + rest == rest;
    case Leaf(name, data) =>
      if data == "" {
        assert [] + rest == rest;
      } else {
        var a, b, c := Open(name, "<" + name + ">"), Text(LeafData(cfg, data)), Close(name);
        LeafCloses(a, b, c, rest, open);
      }
    case Node(name, first, count) =>
      var a, b, c := Open(BareName(name), StartTag(cfg, name)), TokenLists(cfg, p, first, first + count), Close(BareName(name));
      TokenListsAreBalanced(cfg, p, first, first + count, [c] + rest, open + [BareName(name)]);
      NodeCloses(a, b, c, rest, open);
  }

  lemma NodeCloses(a: Token, b: seq<Token>, c: Token, rest: seq<Token>, open: seq<string>)
    requires a.Open? && c.Close? && a.name == c.name
    requires Closes(b + ([c] + rest), open + [a.name]) <==> Closes([c] + rest, open + [a.name])
    ensures Closes([a] + b + [c] + rest, open) <==> Closes(rest, open)
  {
    assert ([a] + b + [c] + rest)[1..] == b + ([c] + rest);
    assert ([c] + rest)[1..] == rest;
    assert (open + [a.name])[..|open|] == open;
  }

  lemma LeafCloses(a: Token, b: Token, c: Token, rest: seq<Token>, open: seq<string>)
    requires a.Open? && b.Text? && c.Close? && a.name == c.name
    ensures Closes([a, b, c] + rest, open) <==> Closes(rest, open)
  {
    assert ([a, b, c] + rest)[1..] == [b, c] + rest;
    assert ([b, c] + rest)[1..] == [c] + rest;
    assert ([c] + rest)[1..] == rest;
    assert (open + [a.name])[..|open|] == open;
    assert Closes([a, b, c] + rest, open) == Closes([b, c] + rest, open + [a.name]);
    assert Closes([b, c] + rest, open + [a.name]) == Closes([c] + rest, open + [a.name]);
  }

  lemma {:induction false} TokenListsAreBalanced(cfg: Settings, p: seq<XMLElt>, i: nat, j: nat, rest: seq<Token>, open: seq<string>)
    requires WellFormed(p) && i <= j <= |p|
    ensures Closes(TokenLists(cfg, p, i, j) + rest, open) <==> Closes(rest, open)
    decreases |p| - i, 1 + j - i
  {
    if i == j {
      assert [] + rest == rest;
    } else {
      var tail := TokenLists(cfg, p, i + 1, j) + rest;
      assert TokenLists(cfg, p, i, j) + rest == Tokens(cfg, p, i) + tail;
      TokensAreBalanced(cfg, p, i, tail, open);
      TokenListsAreBalanced(cfg, p, i + 1, j, rest, open);
    }
  }

  // ---- the same, read off the characters ----

  /** Where the first '>' is; the length if there is none. */
  function Gt(s: string): (n: nat)
    ensures n <= |s| && (n < |s| ==> s[n] == '>')
  {
    if s == "" || s[0] == '>' then 0 else 1 + Gt(s[1..])
  }

  /** Reading the text from its first character to its last, with a stack of open elements: a tag is what
      stands between '<' and '>', an end tag must name the innermost open element, and none is open at the end. */
  predicate Balanced(s: string, open: seq<string>)
    decreases |s|
  {
    if s == "" then open == []
    else if s[0] != '<' then Balanced(s[1..], open)
    else
      var tag := s[1..];
      var end := Gt(tag);
      if end == |tag| then false
      else if end > 0 && tag[0] == '/' then
        open != [] && open[|open| - 1] == tag[1..end] && Balanced(tag[end + 1..], open[..|open| - 1])
      else Balanced(tag[end + 1..], open + [BareName(tag[..end])])
  }

  /** What may stand in a tag: no angle brackets, and no '/' in front. */
  predicate PlainTag(text: string) {
    '<' !in text && '>' !in text && (text != "" ==> text[0] != '/')
  }

  /** The name of an element: white space would end it. */
  predicate PlainName(name: string) {
    PlainTag(name) && forall c | c in name :: c > ' '
  }

  /** The token is what its printed form shows. */
  predicate Plain(t: Token) {
    match t
    case Open(name, printed) =>
      |printed| >= 2 && printed == "<" + (printed[1..|printed| - 1] + ">")
      && PlainTag(printed[1..|printed| - 1]) && name == BareName(printed[1..|printed| - 1])
    case Close(name) => '>' !in name
    case Text(text) => '<' !in text
  }

  lemma {:induction false} GtBehind(text: string, rest: string)
    requires '>' !in text
    ensures Gt(text + (">" + rest)) == |text|
  {
    var s := text + (">" + rest);
    if text != "" {
      assert s[0] == text[0] && text[0] in text;
      assert s[1..] == text[1..] + (">" + rest);
      GtBehind(text[1..], rest);
    }
  }

  lemma OpenReads(tag: string, rest: string, open: seq<string>)
    requires PlainTag(tag)
    ensures Balanced("<" + (tag + (">" + rest)), open) <==> Balanced(rest, open + [BareName(tag)])
  {
    var s := "<" + (tag + (">" + rest));
    assert s[1..] == tag + (">" + rest);
    GtBehind(tag, rest);
    assert s[1..][|tag| + 1..] == rest && s[1..][..|tag|] == tag;
  }

  lemma CloseReads(name: string, rest: string, open: seq<string>)
    requires '>' !in name
    ensures Balanced("</" + (name + (">" + rest)), open)
       <==> open != [] && open[|open| - 1] == name && Balanced(rest, open[..|open| - 1])
  {
    var s := "</" + (name + (">" + rest));
    var tag := "/" + name;
    assert s[1..] == tag + (">" + rest);
    GtBehind(tag, rest);
    assert s[1..][|tag| + 1..] == rest && s[1..][1..|tag|] == name;
  }

  lemma {:induction false} TextReads(text: string, rest: string, open: seq<string>)
    requires '<' !in text
    ensures Balanced(text + rest, open) <==> Balanced(rest, open)
  {
    if text == "" {
      assert text + rest == rest;
    } else {
      assert (text + rest)[0] == text[0] && text[0] in text;
      assert (text + rest)[1..] == text[1..] + rest;
      TextReads(text[1..], rest, open);
    }
  }

  /** Reading the rendering character by character is reading the tokens. */
  lemma {:induction false} RenderingReads(tokens: seq<Token>, open: seq<string>)
    requires forall t | t in tokens :: Plain(t)
    ensures Balanced(Render(tokens), open) <==> Closes(tokens, open)
    decreases |tokens|
  {
    hide Balanced, PlainTag, BareName;
    if tokens == [] {
      NothingReads(open);
    } else {
      var rest := Render(tokens[1..]);
      assert Plain(tokens[0]);
      match tokens[0]
      case Open(name, printed) =>
        var tag := printed[1..|printed| - 1];
        assert printed + rest == "<" + (tag + (">" + rest));
        OpenReads(tag, rest, open);
        RenderingReads(tokens[1..], open + [name]);
      case Close(name) =>
        assert "</" + name + ">" + rest == "</" + (name + (">" + rest));
        CloseReads(name, rest, open);
        if open != [] {
          RenderingReads(tokens[1..], open[..|open| - 1]);
        }
      case Text(text) =>
        TextReads(text, rest, open);
        RenderingReads(tokens[1..], open);
    }
  }

  lemma NothingReads(open: seq<string>)
    ensures Balanced("", open) <==> open == []
  {}

  /** Names and attributes without angle brackets, leaf names without white space, data without '<'. */
  ghost predicate PlainTable(cfg: Settings, p: seq<XMLElt>) {
    && (cfg.randomUrl.Some? ==> '<' !in cfg.randomUrl.value)
    && (forall i | 0 <= i < |p| && p[i].Node? :: PlainTag(p[i].name))
    && (forall i | 0 <= i < |p| && p[i].Leaf? && p[i].data != "" :: PlainName(p[i].name) && '<' !in p[i].data)
  }

  lemma {:induction false} BareNameIs(name: string)
    ensures forall c | c in BareName(name) :: c in name
    ensures (forall c | c in name :: c > ' ') ==> BareName(name) == name
  {
    if name != "" {
      BareNameIs(name[1..]);
      assert name[0] in name && forall c | c in name[1..] :: c in name;
      assert name == [name[0]] + name[1..];
    }
  }

  lemma {:induction false} BareNameOfMore(name: string, more: string)
    requires exists k :: 0 <= k < |name| && name[k] <= ' '
    ensures BareName(name + more) == BareName(name)
  {
    assert (name + more)[0] == name[0];
    if name[0] > ' ' {
      var k :| 0 <= k < |name| && name[k] <= ' ';
      assert name[1..][k - 1] <= ' ';
      assert (name + more)[1..] == name[1..] + more;
      BareNameOfMore(name[1..], more);
    }
  }

  lemma BracketsArePlain(tag: string, printed: string)
    requires PlainTag(tag) && printed == "<" + tag + ">"
    ensures Plain(Open(BareName(tag), printed))
  {
    hide BareName, PlainTag;
    assert printed[1..|printed| - 1] == tag && printed == "<" + (tag + ">");
  }

  lemma PlainConcat(a: string, b: string)
    requires PlainTag(a) && a != "" && '<' !in b && '>' !in b
    ensures PlainTag(a + b)
  {}

  lemma IdIsPlain(n: nat)
    ensures '<' !in " configId=\"" + Decimal(n) + "\"" && '>' !in " configId=\"" + Decimal(n) + "\""
  {
    hide Decimal;
    assert '<' !in " configId=\"" && '>' !in " configId=\"";
  }

  lemma StartTagIsPlain(cfg: Settings, name: string)
    requires PlainTag(name)
    ensures Plain(Open(BareName(name), StartTag(cfg, name)))
  {
    hide BareName, PlainTag, Plain, Decimal;
    if "root " <= name {
      var id := " configId=\"" + Decimal(cfg.configId) + "\"";
      assert name[4] == "root "[4];
      IdIsPlain(cfg.configId);
      PlainConcat(name, id);
      BareNameOfMore(name, id);
      assert "<" + name + id + ">" == "<" + (name + id) + ">";
      BracketsArePlain(name + id, StartTag(cfg, name));
    } else {
      assert "<" + name + "" + ">" == "<" + name + ">";
      BracketsArePlain(name, StartTag(cfg, name));
    }
  }

  lemma DataIsPlain(cfg: Settings, data: string)
    requires data != "" && '<' !in data && (cfg.randomUrl.Some? ==> '<' !in cfg.randomUrl.value)
    ensures '<' !in LeafData(cfg, data)
  {
    assert forall c | c in data[..|data| - 1] :: c in data;
  }

  lemma LeafTagIsPlain(name: string)
    requires PlainName(name)
    ensures Plain(Open(name, "<" + name + ">")) && Plain(Close(name))
  {
    hide Plain;
    BareNameIs(name);
    BracketsArePlain(name, "<" + name + ">");
    NameCloses(name);
  }

  lemma NameCloses(name: string)
    requires '>' !in name
    ensures Plain(Close(name))
  {}

  lemma {:induction false} TokensArePlain(cfg: Settings, p: seq<XMLElt>, i: nat)
    requires WellFormed(p) && PlainTable(cfg, p) && i < |p|
    ensures forall t | t in Tokens(cfg, p, i) :: Plain(t)
    decreases |p| - i, 0
  {
    hide Plain, PlainName, PlainTag, BareName, StartTag, LeafData;
    match p[i]
    case End =>
    case Leaf(name, data) =>
      if data != "" {
        LeafTagIsPlain(name);
        DataIsPlain(cfg, data);
        TextIsPlain(LeafData(cfg, data));
      }
    case Node(name, first, count) =>
      StartTagIsPlain(cfg, name);
      TokenListsArePlain(cfg, p, first, first + count);
      EndNameIsPlain(name);
  }

  lemma TextIsPlain(text: string)
    requires '<' !in text
    ensures Plain(Text(text))
  {}

  lemma EndNameIsPlain(name: string)
    requires PlainTag(name)
    ensures Plain(Close(BareName(name)))
  {
    BareNameIs(name);
  }

  lemma {:induction false} TokenListsArePlain(cfg: Settings, p: seq<XMLElt>, i: nat, j: nat)
    requires WellFormed(p) && PlainTable(cfg, p) && i <= j <= |p|
    ensures forall t | t in TokenLists(cfg, p, i, j) :: Plain(t)
    decreases |p| - i, 1 + j - i
  {
    if i < j {
      TokensArePlain(cfg, p, i);
      TokenListsArePlain(cfg, p, i + 1, j);
    }
  }

  /** What genXML() prints for a table without stray angle brackets has balanced tags: read character by
      character, every end tag names the innermost open element, and at the end none is open. */
  lemma DocumentIsBalanced(cfg: Settings, p: seq<XMLElt>)
    requires WellFormed(p) && PlainTable(cfg, p)
    ensures Balanced(Serial(cfg, p, 0), [])
  {
    hide Balanced, Closes, Plain;
    var tokens := Tokens(cfg, p, 0);
    SerialIsRendered(cfg, p, 0);
    TokensArePlain(cfg, p, 0);
    RenderingReads(tokens, []);
    TokensAreBalanced(cfg, p, 0, [], []);
    NoTokens();
    assert tokens + [] == tokens;
  }

  lemma NoTokens()
    ensures Closes([], [])
  {}

  /** Not every text is balanced. */
  lemma CrossedTagsAreNot()
    ensures !Balanced("<a><b></a></b>", [])
  {
    assert PlainTag("a") && PlainTag("b") && '>' !in "a";
    assert BareName("a") == "a" && BareName("b") == "b";
    hide Balanced, PlainTag, BareName;
    assert "<a><b></a></b>" == "<" + ("a" + (">" + "<b></a></b>"));
    assert "<b></a></b>" == "<" + ("b" + (">" + "</a></b>"));
    assert "</a></b>" == "</" + ("a" + (">" + "</b>"));
    OpenReads("a", "<b></a></b>", []);
    OpenReads("b", "</a></b>", [] + ["a"]);
    CloseReads("a", "</b>", [] + ["a"] + ["b"]);
  }
}
