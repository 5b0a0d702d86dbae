/** minixml.c looks at the character behind the document in a few places, and the caller does not always
    put one there. When do the callbacks depend on it? */
module XmlBehind {
  import opened Net
  import opened NameValue
  import opened MiniXml
  import X = XmlRoundTrip

  /** The content that begins at `c` is nothing but white space and a '<' that is the last character. */
  predicate ContentLooks(mem: string, size: nat, c: nat)
    requires Readable(mem, size)
  {
    c + 1 < size && mem[size - 1] == '<' && forall i | c <= i < size - 1 :: IsWhite(mem[i])
  }

  predicate TagLooks(mem: string, size: nat, x: nat)
    requires Readable(mem, size) && x < size
  {
    var name := Name(mem, size, x, x);
    name.Some? && name.value.0 < name.value.1
    && var att := Attributes(mem, size, name.value.1);
       att.Some? && mem[att.value] == '>' && ContentLooks(mem, size, att.value + 1)
  }

  predicate TurnLooks(mem: string, size: nat, x: nat)
    requires Readable(mem, size) && x + 1 < size
  {
    !(x + 4 <= size && Matches(mem, x, "<!--")) && mem[x] == '<' && mem[x + 1] != '?' && TagLooks(mem, size, x + 1)
  }

  predicate Looks(mem: string, size: nat, x: nat)
    requires Readable(mem, size)
    decreases size - x
  {
    x + 1 < size
    && (TurnLooks(mem, size, x) || (OneTurn(mem, size, x).Go? && Looks(mem, size, OneTurn(mem, size, x).next)))
  }

  /** The scan of the document comes to a start tag behind which there is nothing but white space and a '<'
      that is the last character. */
  predicate LooksBehind(doc: string) {
    Looks(doc + ['\0'], |doc|, 0)
  }

  /** Two memories that hold the same document. */
  predicate SameDoc(m: string, n: string, size: nat) {
    size < |m| && size < |n| && forall i | 0 <= i < size :: m[i] == n[i]
  }

  lemma {:induction false} SkipSame(m: string, n: string, size: nat, lim: nat, x: nat, cls: Class)
    requires SameDoc(m, n, size) && x < lim <= size
    ensures Skip(m, lim, x, cls) == Skip(n, lim, x, cls)
    decreases lim - x
  {
    if x + 1 < lim {
      SkipSame(m, n, size, lim, x + 1, cls);
    }
  }

  /** An attribute whose '=' is the last character: whatever is found behind it, there is no more. */
  predicate PastEnd(r: Option<nat>, size: nat) {
    r.None? || r.value == size
  }

  lemma AttributeSame(m: string, n: string, size: nat, x: nat)
    requires SameDoc(m, n, size) && x < size
    ensures Attribute(m, size, x) == Attribute(n, size, x)
         || (PastEnd(Attribute(m, size, x), size) && PastEnd(Attribute(n, size, x), size))
  {
    hide Skip;
    SkipSame(m, n, size, size, x, AttName);
    var name := Skip(m, size, x, AttName);
    if name.Some? && name.value < size {
      SkipSame(m, n, size, size, name.value, BeforeEquals);
      var equals := Skip(m, size, name.value, BeforeEquals);
      if equals.Some? && equals.value + 1 < size {
        SkipSame(m, n, size, size, equals.value + 1, White);
        var v := Skip(m, size, equals.value + 1, White);
        if v.Some? && v.value < size {
          SkipSame(m, n, size, size, v.value, Unquoted);
          if v.value + 1 < size {
            SkipSame(m, n, size, size, v.value + 1, BeforeQuote(m[v.value]));
          }
        }
      }
    }
  }

  lemma {:induction false} AttributesSame(m: string, n: string, size: nat, x: nat)
    requires SameDoc(m, n, size)
    ensures Attributes(m, size, x) == Attributes(n, size, x)
    decreases size - x
  {
    hide Attribute;
    if x < size && m[x] != '/' && m[x] != '>' {
      if IsWhite(m[x]) {
        AttributesSame(m, n, size, x + 1);
      } else {
        AttributeSame(m, n, size, x);
        var att := Attribute(m, size, x);
        if att.Some? && att == Attribute(n, size, x) {
          AttributesSame(m, n, size, att.value + 1);
        }
      }
    }
  }

  /** The name is the same, unless the document ends with its ':', and then there is no name. */
  lemma {:induction false} NameSame(m: string, n: string, size: nat, begin: nat, x: nat)
    requires SameDoc(m, n, size) && begin <= x < size
    ensures Name(m, size, begin, x) == Name(n, size, begin, x)
         || (NoName(Name(m, size, begin, x), size) && NoName(Name(n, size, begin, x), size))
    decreases size - x
  {
    if !(IsWhite(m[x]) || m[x] == '>' || m[x] == '/') && x + 1 < size {
      if m[x + 1] != ':' {
        NameSame(m, n, size, begin, x + 1);
      } else if x + 2 < size {
        NameSame(m, n, size, x + 2, x + 2);
      }
    }
  }

  predicate NoName(r: Option<(nat, nat)>, size: nat) {
    r.None? || r.value == (size, size)
  }

  /** The turn is the last one that matters. */
  predicate Ends(t: Turn, size: nat) {
    t.Stop? || t.next + 1 >= size
  }

  predicate SameTurn(t: Turn, u: Turn, size: nat) {
    t == u || (t.events == u.events && Ends(t, size) && Ends(u, size))
  }

  lemma MatchesSame(m: string, n: string, size: nat, x: nat, s: string)
    requires SameDoc(m, n, size) && x + |s| <= size
    ensures Matches(m, x, s) <==> Matches(n, x, s)
  {
    assert m[x..x + |s|] == n[x..x + |s|];
  }

  lemma {:induction false} SeekSame(m: string, n: string, size: nat, x: nat, s: string)
    requires SameDoc(m, n, size) && x + |s| <= size
    ensures Seek(m, size, x, s) == Seek(n, size, x, s)
    decreases size - x
  {
    hide Matches;
    MatchesSame(m, n, size, x, s);
    if x + 1 + |s| < size {
      SeekSame(m, n, size, x + 1, s);
    }
  }

  lemma CDataSame(m: string, n: string, size: nat, name: string, x: nat)
    requires SameDoc(m, n, size) && x + 3 <= size
    ensures CData(m, size, name, x) == CData(n, size, name, x)
  {
    hide Skip, Seek;
    SeekSame(m, n, size, x, "]]>");
    var end := Seek(m, size, x, "]]>");
    if end.Some? {
      assert m[x..end.value] == n[x..end.value];
      SkipSame(m, n, size, size, end.value, BeforeLt);
    }
  }

  lemma PlainTextSame(m: string, n: string, size: nat, name: string, x: nat, y: nat)
    requires SameDoc(m, n, size) && x <= y < size
    requires !(x < y == size - 1 && m[y] == '<')
    ensures PlainText(m, size, name, x, y) == PlainText(n, size, name, x, y)
  {
    hide Skip;
    if y < size - 1 {
      SkipSame(m, n, size, size - 1, y, BeforeLt);
      var lt := Skip(m, size - 1, y, BeforeLt);
      if lt.Some? {
        assert m[x..lt.value] == n[x..lt.value];
      }
    } else {
      SkipAt(m, size - 1, y, BeforeLt);
      SkipAt(n, size - 1, y, BeforeLt);
    }
  }

  lemma SkipAt(m: string, lim: nat, x: nat, cls: Class)
    requires Readable(m, lim) && x == lim
    ensures Skip(m, lim, x, cls) == if In(m[x], cls) then None else Some(x)
  {}

  /** Where the white space behind a start tag ends, if it does. */
  lemma {:induction false} SkipWhite(m: string, size: nat, c: nat)
    requires Readable(m, size) && c < size
    ensures Skip(m, size, c, White) == Some(size - 1) && m[size - 1] == '<' && c < size - 1 <==> ContentLooks(m, size, c)
    decreases size - c
  {
    if c + 1 < size && IsWhite(m[c]) {
      SkipWhite(m, size, c + 1);
      if c + 2 == size {
        assert Skip(m, size, c + 1, White) == if IsWhite(m[c + 1]) then None else Some(c + 1);
      }
    }
  }

  lemma ContentSame(m: string, n: string, size: nat, name: string, c: nat)
    requires SameDoc(m, n, size)
    ensures ContentLooks(m, size, c) <==> ContentLooks(n, size, c)
    ensures !ContentLooks(m, size, c) ==> Content(m, size, name, c) == Content(n, size, name, c)
  {
    hide Skip, CData, PlainText, Matches;
    if c < size {
      SkipSame(m, n, size, size, c, White);
      SkipWhite(m, size, c);
      var white := Skip(m, size, c, White);
      if white.Some? {
        var y := white.value;
        if size >= y + 12 {
          MatchesSame(m, n, size, y, "<![CDATA[");
          CDataSame(m, n, size, name, y + 9);
        }
        if !ContentLooks(m, size, c) && y < size {
          PlainTextSame(m, n, size, name, c, y);
        }
      }
    }
  }

  /** What the content is when it looks behind: the white space is reported if a '/' is found there. */
  lemma ContentLooking(m: string, size: nat, name: string, c: nat)
    requires Readable(m, size) && ContentLooks(m, size, c)
    ensures Content(m, size, name, c)
         == Go([Start(name)] + if m[size] == '/' then [Data(m[c..size - 1])] else [], size - 1)
  {
    SkipWhite(m, size, c);
    SkipAt(m, size - 1, size - 1, BeforeLt);
  }

  lemma TagSame(m: string, n: string, size: nat, x: nat)
    requires SameDoc(m, n, size) && x < size
    ensures TagLooks(m, size, x) <==> TagLooks(n, size, x)
    ensures !TagLooks(m, size, x) ==> SameTurn(Tag(m, size, x), Tag(n, size, x), size)
  {
    hide Name, Attributes, Content, Skip, ContentLooks;
    NameSame(m, n, size, x, x);
    var name := Name(m, size, x, x);
    if name == Name(n, size, x, x) && name.Some? {
      var (begin, end) := name.value;
      AttributesSame(m, n, size, end);
      var att := Attributes(m, size, end);
      assert m[begin..end] == n[begin..end];
      if begin < end {
        if att.Some? {
          ContentSame(m, n, size, m[begin..end], att.value + 1);
        }
      } else if end + 1 < size {
        SkipSame(m, n, size, size, end + 1, BeforeGt);
        var gt := Skip(m, size, end + 1, BeforeGt);
        if gt.Some? {
          assert m[end + 1..gt.value] == n[end + 1..gt.value];
        }
      }
    }
  }

  /** The two turns at a tag that looks behind. */
  lemma TagLooking(m: string, n: string, size: nat, x: nat) returns (name: string, white: string)
    requires SameDoc(m, n, size) && x < size && TagLooks(m, size, x)
    ensures Tag(m, size, x) == Go([Start(name)] + if m[size] == '/' then [Data(white)] else [], size - 1)
    ensures Tag(n, size, x) == Go([Start(name)] + if n[size] == '/' then [Data(white)] else [], size - 1)
  {
    hide Name, Attributes, Content, Skip, ContentLooks;
    NameSame(m, n, size, x, x);
    var (begin, end) := Name(m, size, x, x).value;
    AttributesSame(m, n, size, end);
    var c := Attributes(m, size, end).value + 1;
    name := m[begin..end];
    assert name == n[begin..end];
    ContentSame(m, n, size, name, c);
    ContentLooking(m, size, name, c);
    ContentLooking(n, size, name, c);
    ContentInside(m, size, c);
    white := m[c..size - 1];
    assert white == n[c..size - 1];
  }

  lemma ContentInside(m: string, size: nat, c: nat)
    requires Readable(m, size) && ContentLooks(m, size, c)
    ensures c + 1 < size
  {}

  lemma TurnSame(m: string, n: string, size: nat, x: nat)
    requires SameDoc(m, n, size) && x + 1 < size
    ensures TurnLooks(m, size, x) <==> TurnLooks(n, size, x)
    ensures !TurnLooks(m, size, x) ==> SameTurn(OneTurn(m, size, x), OneTurn(n, size, x), size)
  {
    hide Tag, TagLooks, Matches, Seek;
    if x + 4 <= size {
      MatchesSame(m, n, size, x, "<!--");
      if x + 7 < size {
        SeekSame(m, n, size, x + 4, "-->");
      }
    }
    TagSame(m, n, size, x + 1);
  }

  lemma ScanStep(m: string, size: nat, x: nat)
    requires Readable(m, size) && x + 1 < size
    ensures var t := OneTurn(m, size, x);
            Scan(m, size, x) == t.events + if t.Go? then Scan(m, size, t.next) else []
  {}

  lemma ScanAtEnd(m: string, size: nat, x: nat)
    requires Readable(m, size) && x + 1 >= size
    ensures Scan(m, size, x) == []
  {}

  lemma {:induction false} LooksSame(m: string, n: string, size: nat, x: nat)
    requires SameDoc(m, n, size)
    ensures Looks(m, size, x) <==> Looks(n, size, x)
    ensures !Looks(m, size, x) ==> Scan(m, size, x) == Scan(n, size, x)
    decreases size - x
  {
    hide OneTurn, TurnLooks, Scan;
    if x + 1 >= size {
      ScanAtEnd(m, size, x);
      ScanAtEnd(n, size, x);
    } else {
      TurnSame(m, n, size, x);
      ScanStep(m, size, x);
      ScanStep(n, size, x);
      var t, u := OneTurn(m, size, x), OneTurn(n, size, x);
      if t == u && t.Go? {
        LooksSame(m, n, size, t.next);
      } else {
        if t.Go? && t.next + 1 >= size {
          ScanAtEnd(m, size, t.next);
        }
        if u.Go? && u.next + 1 >= size {
          ScanAtEnd(n, size, u.next);
        }
      }
    }
  }

  /** The callbacks when the scan looks behind: the same up to the last, which is fired if a '/' is found. */
  lemma {:induction false} ScanLooking(m: string, n: string, size: nat, x: nat) returns (events: seq<Event>, white: string)
    requires SameDoc(m, n, size) && Looks(m, size, x)
    ensures Scan(m, size, x) == events + if m[size] == '/' then [Data(white)] else []
    ensures Scan(n, size, x) == events + if n[size] == '/' then [Data(white)] else []
    decreases size - x
  {
    hide OneTurn, TurnLooks, Scan, TagLooks, Tag;
    TurnSame(m, n, size, x);
    ScanStep(m, size, x);
    ScanStep(n, size, x);
    if TurnLooks(m, size, x) {
      var name;
      name, white := TurnLooking(m, n, size, x);
      ScanAtEnd(m, size, size - 1);
      ScanAtEnd(n, size, size - 1);
      events := [Start(name)];
    } else {
      var t, u := OneTurn(m, size, x), OneTurn(n, size, x);
      LooksFurther(m, size, t.next);
      var rest;
      rest, white := ScanLooking(m, n, size, t.next);
      events := t.events + rest;
    }
  }

  lemma LooksFurther(m: string, size: nat, x: nat)
    requires Readable(m, size) && Looks(m, size, x)
    ensures x + 1 < size
  {}

  lemma TurnLooking(m: string, n: string, size: nat, x: nat) returns (name: string, white: string)
    requires SameDoc(m, n, size) && x + 1 < size && TurnLooks(m, size, x)
    ensures OneTurn(m, size, x) == Go([Start(name)] + if m[size] == '/' then [Data(white)] else [], size - 1)
    ensures OneTurn(n, size, x) == Go([Start(name)] + if n[size] == '/' then [Data(white)] else [], size - 1)
  {
    TurnSame(m, n, size, x);
    hide Tag, TagLooks, Matches;
    if x + 4 <= size {
      MatchesSame(m, n, size, x, "<!--");
    }
    name, white := TagLooking(m, n, size, x + 1);
  }

  // ---- the document decides ----

  /** The callbacks are the same whatever lies behind the document, if and only if the scan does not end on
      such a tag, or what lies there is a '/' both times or neither. */
  lemma BehindMattersIff(doc: string, a: char, b: char)
    ensures Scan(doc + [a], |doc|, 0) == Scan(doc + [b], |doc|, 0)
       <==> !LooksBehind(doc) || (a == '/' <==> b == '/')
  {
    hide Looks, Scan;
    var m, n, size := doc + [a], doc + [b], |doc|;
    LooksSame(doc + ['\0'], m, size, 0);
    LooksSame(m, n, size, 0);
    if LooksBehind(doc) {
      var events, white := ScanLooking(m, n, size, 0);
      assert |events + [Data(white)]| == |events| + 1;
    }
  }

  /** The names and values found in a request never depend on it; only a port listing can. */
  lemma PairsIgnoreBehind(doc: string, a: char, b: char)
    ensures HandleAll(NOTHING, Scan(doc + [a], |doc|, 0)).pairs == HandleAll(NOTHING, Scan(doc + [b], |doc|, 0)).pairs
  {
    hide Looks, Scan, HandleAll;
    var m, n, size := doc + [a], doc + [b], |doc|;
    LooksSame(m, n, size, 0);
    if Looks(m, size, 0) {
      var events, white := ScanLooking(m, n, size, 0);
      var d := HandleAll(NOTHING, events);
      HandleConcat(NOTHING, events, [Data(white)]);
      HandleOne(d, Data(white));
      assert events + [] == events;
    }
  }

  lemma {:induction false} LooksAtLast(m: string, size: nat, x: nat)
    requires Readable(m, size) && Looks(m, size, x)
    ensures size > 0 && m[size - 1] == '<'
    decreases size - x
  {
    hide OneTurn;
    if !TurnLooks(m, size, x) {
      LooksAtLast(m, size, OneTurn(m, size, x).next);
    }
  }

  /** A printed element never makes the scan look behind it. */
  lemma PrintedNeverLooks(prolog: string, t: X.Tree)
    requires X.Element(t)
    ensures !LooksBehind(prolog + X.Print(t))
  {
    var doc := prolog + X.Print(t);
    EndsWithGt(t);
    assert doc[|doc| - 1] == X.Print(t)[|X.Print(t)| - 1] == '>';
    if LooksBehind(doc) {
      LooksAtLast(doc + ['\0'], |doc|, 0);
      assert false;
    }
  }

  lemma EndsWithGt(t: X.Tree)
    requires X.Element(t)
    ensures X.Print(t) != "" && X.Print(t)[|X.Print(t)| - 1] == '>'
  {}

  /** A start tag, a space and a stray '<' do. */
  lemma StrayLtLooks()
    ensures LooksBehind("<a> <")
    ensures Scan("<a> </", 5, 0) == [Start("a"), Data(" ")] && Scan("<a> <b", 5, 0) == [Start("a")]
  {
    StrayLtTurn('\0');
    StrayLtTurn('/');
    StrayLtTurn('b');
    assert "<a> </" == "<a> <" + ['/'] && "<a> <b" == "<a> <" + ['b'];
  }

  lemma StrayLtTurn(behind: char)
    ensures var mem := "<a> <" + [behind];
            Looks(mem, 5, 0) && Scan(mem, 5, 0) == [Start("a")] + if behind == '/' then [Data(" ")] else []
  {
    var mem := "<a> <" + [behind];
    assert mem[1] == 'a' && mem[2] == '>' && mem[3] == ' ' && mem[4] == '<';
    assert mem[1..2] == "a" && mem[3..4] == " ";
    assert Name(mem, 5, 1, 2) == Some((1, 2));
    assert Name(mem, 5, 1, 1) == Some((1, 2));
    assert Attributes(mem, 5, 2) == Some(2);
    assert ContentLooks(mem, 5, 3);
    ContentLooking(mem, 5, "a", 3);
    assert !Matches(mem, 0, "<!--") by {
      assert "<!--"[1] == '!' && mem[0..4][1] == 'a';
    }
    hide Content, Name, Attributes, Matches;
    ScanStep(mem, 5, 0);
    ScanAtEnd(mem, 5, 4);
  }
}
