/** minixml.c: a hand-written scanner that walks a cursor over the document and fires callbacks. */
module MiniXml {
  import opened Net
  import opened NameValue

  predicate IsWhite(c: char) {
    c == ' ' || c == '\t' || c == '\r' || c == '\n'
  }

  /** The characters each of the scanner's small loops runs over. */
  datatype Class = AttName | BeforeEquals | White | BeforeQuote(sep: char) | Unquoted | BeforeGt | BeforeLt

  predicate In(c: char, cls: Class) {
    match cls
    case AttName => c != '=' && !IsWhite(c)
    case BeforeEquals => c != '='
    case White => IsWhite(c)
    case BeforeQuote(sep) => c != sep
    case Unquoted => !IsWhite(c) && c != '>' && c != '/'
    case BeforeGt => c != '>'
    case BeforeLt => c != '<'
  }

  /** The document of `size` characters and the one that lies behind it in memory, which the scanner looks
      at in some places. */
  predicate Readable(mem: string, size: nat) {
    size < |mem|
  }

  /** Where a loop over a class ends; None if it reaches `lim` first. */
  function Skip(mem: string, lim: nat, x: nat, cls: Class): (r: Option<nat>)
    requires Readable(mem, lim) && x <= lim
    ensures r.Some? ==> x <= r.value <= lim && !In(mem[r.value], cls) && (r.value == x || r.value < lim)
    decreases lim - x
  {
    if !In(mem[x], cls) then Some(x)
    else if x + 1 >= lim then None
    else Skip(mem, lim, x + 1, cls)
  }

  /** One attribute, from its name: the cursor is left on its closing quote, or behind an unquoted value. */
  function Attribute(mem: string, size: nat, x: nat): (r: Option<nat>)
    requires Readable(mem, size) && x < size
    ensures r.Some? ==> x < r.value <= size
  {
    var name := Skip(mem, size, x, AttName);
    if name.None? then None else
    var equals := Skip(mem, size, name.value, BeforeEquals);
    if equals.None? then None else
    var value := Skip(mem, size, equals.value + 1, White);
    if value.None? then None else
    var v := value.value;
    if mem[v] == '\'' || mem[v] == '"' then
      if v + 1 >= size then None else Skip(mem, size, v + 1, BeforeQuote(mem[v]))
    else Skip(mem, size, v, Unquoted)
  }

  /** parseatt(): the '/' or '>' that ends the attributes, or None at the end of the document. */
  function Attributes(mem: string, size: nat, x: nat): (r: Option<nat>)
    requires Readable(mem, size)
    ensures r.Some? ==> x <= r.value < size && (mem[r.value] == '/' || mem[r.value] == '>')
    decreases size - x
  {
    if x >= size then None
    else if mem[x] == '/' || mem[x] == '>' then Some(x)
    else if IsWhite(mem[x]) then Attributes(mem, size, x + 1)
    else
      var att := Attribute(mem, size, x);
      if att.None? then None else Attributes(mem, size, att.value + 1)
  }

  /** What one turn of parseelt()'s loop does: stop, or go on from `next`. */
  datatype Turn = Stop(events: seq<Event>) | Go(events: seq<Event>, next: nat)

  predicate Matches(mem: string, x: nat, s: string) {
    x + |s| <= |mem| && mem[x..x + |s|] == s
  }

  /** The first place from `x` on where `s` stands; later places only count if the document goes on
      behind them. */
  function Seek(mem: string, size: nat, x: nat, s: string): (r: Option<nat>)
    requires Readable(mem, size) && x + |s| <= size
    ensures r.Some? ==> x <= r.value && r.value + |s| <= size && Matches(mem, r.value, s)
    ensures r.Some? && x + |s| < size ==> r.value + |s| < size
    decreases size - x
  {
    if Matches(mem, x, s) then Some(x)
    else if x + 1 + |s| >= size then None
    else Seek(mem, size, x + 1, s)
  }

  /** An element's name from `x`, cut at the last ':' seen: where it begins and ends. */
  function Name(mem: string, size: nat, begin: nat, x: nat): (r: Option<(nat, nat)>)
    requires Readable(mem, size) && begin <= x <= size
    ensures r.Some? ==> begin <= r.value.0 <= r.value.1 <= size && x <= r.value.1
    decreases size - x
  {
    if IsWhite(mem[x]) || mem[x] == '>' || mem[x] == '/' then Some((begin, x))
    else if x + 1 >= size then None
    else if mem[x + 1] == ':' then Name(mem, size, x + 2, x + 2)
    else Name(mem, size, begin, x + 1)
  }

  /** What follows a start tag whose '>' is at `x - 1`: white space, then CDATA or plain text. */
  function Content(mem: string, size: nat, name: string, x: nat): (t: Turn)
    requires Readable(mem, size)
    ensures t.Go? ==> x <= t.next < size
  {
    if x >= size then Stop([Start(name)]) else
    var white := Skip(mem, size, x, White);
    if white.None? then Stop([Start(name)]) else
    var y := white.value;
    if size >= y + 12 && Matches(mem, y, "<![CDATA[") then CData(mem, size, name, y + 9)
    else PlainText(mem, size, name, x, y)
  }

  /** A CDATA section whose text begins at `x`. */
  function CData(mem: string, size: nat, name: string, x: nat): (t: Turn)
    requires Readable(mem, size) && x + 3 <= size
    ensures t.Go? ==> x <= t.next < size
  {
    var end := Seek(mem, size, x, "]]>");
    if end.None? then Stop([Start(name)]) else
    var events := [Start(name)] + if end.value > x then [Data(mem[x..end.value])] else [];
    var lt := Skip(mem, size, end.value, BeforeLt);
    if lt.None? then Stop(events) else Go(events, lt.value)
  }

  /** Text that begins at `x`, white space up to `y` included; it counts if an end tag follows. */
  function PlainText(mem: string, size: nat, name: string, x: nat, y: nat): (t: Turn)
    requires Readable(mem, size) && x <= y < size
    ensures t.Go? ==> y <= t.next < size
  {
    var lt := Skip(mem, size - 1, y, BeforeLt);
    if lt.None? then Stop([Start(name)])
    else
      var z := lt.value;
      Go([Start(name)] + if z > x && mem[z + 1] == '/' then [Data(mem[x..z])] else [], z)
  }

  /** A tag whose '<' is at `x - 1`. */
  function Tag(mem: string, size: nat, x: nat): (t: Turn)
    requires Readable(mem, size) && x < size
    ensures t.Go? ==> x <= t.next <= size
  {
    var name := Name(mem, size, x, x);
    if name.None? then Stop([])
    else
      var (begin, end) := name.value;
      if begin < end then
        var att := Attributes(mem, size, end);
        if att.None? then Stop([Start(mem[begin..end])])
        else if mem[att.value] == '/' then Go([Start(mem[begin..end])], att.value)
        else Content(mem, size, mem[begin..end], att.value + 1)
      else if mem[end] == '/' then
        if end + 1 >= size then Stop([])
        else
          var gt := Skip(mem, size, end + 1, BeforeGt);
          if gt.None? then Stop([]) else Go([End(mem[end + 1..gt.value])], gt.value + 1)
      else Go([], end)
  }

  /** One turn of the loop of parseelt(). */
  function OneTurn(mem: string, size: nat, x: nat): (t: Turn)
    requires Readable(mem, size) && x + 1 < size
    ensures t.Go? ==> x < t.next <= size
  {
    if Matches(mem, x, "<!--") && x + 4 <= size then
      var end := if x + 4 + 3 >= size then None else Seek(mem, size, x + 4, "-->");
      if end.None? then Stop([]) else Go([], end.value + 3)
    else if mem[x] == '<' && mem[x + 1] != '?' then Tag(mem, size, x + 1)
    else Go([], x + 1)
  }

  /** All callbacks from the cursor on. */
  function Scan(mem: string, size: nat, x: nat): seq<Event>
    requires Readable(mem, size)
    decreases size - x
  {
    if x + 1 >= size then []
    else
      var t := OneTurn(mem, size, x);
      if t.Stop? then t.events else t.events + Scan(mem, size, t.next)
  }

  class XmlParser {
    const mem: string
    const size: nat
    const data: NameValueParserData
    var xml: nat

    ghost predicate Valid() {
      Readable(mem, size)
    }

    /** `behind` is whatever character lies in memory behind the document. */
    constructor (doc: string, behind: char, data: NameValueParserData)
      ensures Valid() && xml == 0 && mem == doc + [behind] && size == |doc| && this.data == data
    {
      mem, size, this.data, xml := doc + [behind], |doc|, data, 0;
    }

    /** The scanner's small loops: run over a class of characters, and fail on reaching `lim`. */
    method RunOver(lim: nat, cls: Class) returns (ok: bool)
      requires Valid() && lim <= size && xml <= lim
      modifies this`xml
      ensures ok <==> Skip(mem, lim, old(xml), cls).Some?
      ensures ok ==> xml == Skip(mem, lim, old(xml), cls).value
    {
      while In(mem[xml], cls)
        invariant xml <= lim && Skip(mem, lim, xml, cls) == Skip(mem, lim, old(xml), cls)
        decreases lim - xml
      {
        if xml + 1 >= lim {
          return false;
        }
        xml := xml + 1;
      }
      return true;
    }

    method RunTo(s: string) returns (ok: bool)
      requires Valid() && xml + |s| <= size
      modifies this`xml
      ensures ok <==> Seek(mem, size, old(xml), s).Some?
      ensures ok ==> xml == Seek(mem, size, old(xml), s).value
    {
      while mem[xml..xml + |s|] != s
        invariant xml + |s| <= size && Seek(mem, size, xml, s) == Seek(mem, size, old(xml), s)
        decreases size - xml
      {
        if xml + 1 + |s| >= size {
          return false;
        }
        xml := xml + 1;
      }
      return true;
    }

    /** parseatt() */
    method ParseAtt() returns (ok: bool)
      requires Valid()
      modifies this`xml
      ensures ok <==> Attributes(mem, size, old(xml)).Some?
      ensures ok ==> xml == Attributes(mem, size, old(xml)).value
    {
      while xml < size
        invariant Attributes(mem, size, xml) == Attributes(mem, size, old(xml))
        decreases size - xml
      {
        if mem[xml] == '/' || mem[xml] == '>' {
          return true;
        }
        if !IsWhite(mem[xml]) {
          var found := ParseOneAtt();
          if !found {
            return false;
          }
        }
        xml := xml + 1;
      }
      return false;
    }

    /** The body of parseatt() for one attribute. */
    method ParseOneAtt() returns (ok: bool)
      requires Valid() && xml < size
      modifies this`xml
      ensures ok <==> Attribute(mem, size, old(xml)).Some?
      ensures ok ==> xml == Attribute(mem, size, old(xml)).value
    {
      ok := RunOver(size, AttName);
      if !ok { return; }
      ok := RunOver(size, BeforeEquals);
      if !ok { return; }
      xml := xml + 1;
      ok := RunOver(size, White);
      if !ok { return; }
      var sep := mem[xml];
      if sep == '\'' || sep == '"' {
        xml := xml + 1;
        if xml >= size {
          return false;
        }
        ok := RunOver(size, BeforeQuote(sep));
      } else {
        ok := RunOver(size, Unquoted);
      }
    }

    /** parseelt() */
    method ParseElt()
      requires Valid()
      modifies this`xml, data
      ensures data.Value() == HandleAll(old(data.Value()), Scan(mem, size, old(xml)))
    {
      hide OneTurn, HandleAll;
      ghost var x := xml;
      while xml + 1 < size
        invariant HandleAll(data.Value(), Scan(mem, size, xml)) == HandleAll(old(data.Value()), Scan(mem, size, x))
        decreases size - xml
      {
        ghost var t, d := OneTurn(mem, size, xml), data.Value();
        var go := ParseTurn();
        if !go {
          return;
        }
        HandleConcat(d, t.events, Scan(mem, size, t.next));
      }
      HandleNothing(data.Value());
    }

    /** The body of parseelt()'s loop. */
    method ParseTurn() returns (go: bool)
      requires Valid() && xml + 1 < size
      modifies this`xml, data
      ensures go <==> OneTurn(mem, size, old(xml)).Go?
      ensures go ==> xml == OneTurn(mem, size, old(xml)).next
      ensures data.Value() == HandleAll(old(data.Value()), OneTurn(mem, size, old(xml)).events)
    {
      HandleNothing(data.Value());
      if xml + 4 <= size && mem[xml..xml + 4] == "<!--" {
        xml := xml + 4;
        if xml + 3 >= size {
          return false;
        }
        go := RunTo("-->");
        if go {
          xml := xml + 3;
        }
      } else if mem[xml] == '<' && mem[xml + 1] != '?' {
        xml := xml + 1;
        go := ParseTag();
      } else {
        xml := xml + 1;
        go := true;
      }
    }

    /** The name of an element, without its namespace. */
    method ParseName() returns (ok: bool, begin: nat)
      requires Valid() && xml <= size
      modifies this`xml
      ensures ok <==> Name(mem, size, old(xml), old(xml)).Some?
      ensures ok ==> (begin, xml) == Name(mem, size, old(xml), old(xml)).value
    {
      begin := xml;
      while !IsWhite(mem[xml]) && mem[xml] != '>' && mem[xml] != '/'
        invariant begin <= xml <= size && Name(mem, size, begin, xml) == Name(mem, size, old(xml), old(xml))
        decreases size - xml
      {
        xml := xml + 1;
        if xml >= size {
          return false, begin;
        }
        if mem[xml] == ':' {
          xml := xml + 1;
          begin := xml;
        }
      }
      return true, begin;
    }

    /** The body of parseelt() for a tag. */
    method ParseTag() returns (go: bool)
      requires Valid() && xml < size
      modifies this`xml, data
      ensures go <==> Tag(mem, size, old(xml)).Go?
      ensures go ==> xml == Tag(mem, size, old(xml)).next
      ensures data.Value() == HandleAll(old(data.Value()), Tag(mem, size, old(xml)).events)
    {
      hide HandleAll, Handle, Content, Attributes, Name, Skip;
      ghost var d := data.Value();
      HandleNothing(d);
      var begin;
      go, begin := ParseName();
      if !go { return; }
      if begin < xml {
        var name := mem[begin..xml];
        data.StartElt(name);
        HandleOne(d, Start(name));
        go := ParseAtt();
        if !go { return; }
        if mem[xml] != '/' {
          xml := xml + 1;
          go := ParseContent(name, d);
        }
      } else if mem[xml] == '/' {
        xml := xml + 1;
        if xml >= size {
          return false;
        }
        var first := xml;
        go := RunOver(size, BeforeGt);
        if !go { return; }
        data.EndElt(mem[first..xml]);
        HandleOne(d, End(mem[first..xml]));
        xml := xml + 1;
      }
    }

    /** The body of parseelt() behind a start tag; `d` is what was known before the tag. */
    method ParseContent(name: string, ghost d: Parsed) returns (go: bool)
      requires Valid() && data.Value() == Handle(d, Start(name))
      modifies this`xml, data
      ensures go <==> Content(mem, size, name, old(xml)).Go?
      ensures go ==> xml == Content(mem, size, name, old(xml)).next
      ensures data.Value() == HandleAll(d, Content(mem, size, name, old(xml)).events)
    {
      hide HandleAll, Handle, CData, PlainText;
      HandleOne(d, Start(name));
      var text := xml;
      if xml >= size {
        return false;
      }
      go := RunOver(size, White);
      if !go { return; }
      if size >= xml + 12 && mem[xml..xml + 9] == "<![CDATA[" {
        xml := xml + 9;
        go := ParseCData(name, d);
      } else {
        go := ParsePlainText(name, text, d);
      }
    }

    method ParseCData(name: string, ghost d: Parsed) returns (go: bool)
      requires Valid() && xml + 3 <= size && data.Value() == Handle(d, Start(name))
      modifies this`xml, data
      ensures go <==> CData(mem, size, name, old(xml)).Go?
      ensures go ==> xml == CData(mem, size, name, old(xml)).next
      ensures data.Value() == HandleAll(d, CData(mem, size, name, old(xml)).events)
    {
      hide HandleAll;
      HandleOne(d, Start(name));
      var text := xml;
      go := RunTo("]]>");
      if !go { return; }
      if xml > text {
        data.GetData(mem[text..xml]);
        HandleTwo(d, Start(name), Data(mem[text..xml]));
      }
      go := RunOver(size, BeforeLt);
    }

    method ParsePlainText(name: string, text: nat, ghost d: Parsed) returns (go: bool)
      requires Valid() && text <= xml < size && data.Value() == Handle(d, Start(name))
      modifies this`xml, data
      ensures go <==> PlainText(mem, size, name, text, old(xml)).Go?
      ensures go ==> xml == PlainText(mem, size, name, text, old(xml)).next
      ensures data.Value() == HandleAll(d, PlainText(mem, size, name, text, old(xml)).events)
    {
      hide HandleAll;
      HandleOne(d, Start(name));
      go := RunOver(size - 1, BeforeLt);
      if !go { return; }
      if xml > text && mem[xml + 1] == '/' {
        data.GetData(mem[text..xml]);
        HandleTwo(d, Start(name), Data(mem[text..xml]));
      }
    }
  }

  lemma HandleNothing(d: Parsed)
    ensures HandleAll(d, []) == d
  {}

  lemma HandleOne(d: Parsed, e: Event)
    ensures HandleAll(d, [e]) == Handle(d, e)
    ensures HandleAll(d, [e] + []) == Handle(d, e)
  {
    assert [e] + [] == [e];
  }

  lemma HandleTwo(d: Parsed, e: Event, f: Event)
    ensures HandleAll(d, [e] + [f]) == Handle(Handle(d, e), f)
  {
    HandleConcat(d, [e], [f]);
    HandleOne(d, e);
    HandleOne(Handle(d, e), f);
  }

  /** ParseNameValue(), for every document and every character that may lie behind it. */
  method ParseNameValue(doc: string, behind: char) returns (data: NameValueParserData)
    ensures fresh(data) && data.Value() == HandleAll(NOTHING, Scan(doc + [behind], |doc|, 0))
  {
    data := new NameValueParserData();
    var parser := new XmlParser(doc, behind, data);
    parser.ParseElt();
  }
}
