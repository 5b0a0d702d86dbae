/** upnpreplyparse.c: the callbacks that turn a SOAP request into a list of names and values. */
module NameValue {
  import opened Net

  /** The callbacks of the XML scanner, in the order they are fired. */
  datatype Event = Start(name: string) | Data(text: string) | End(name: string)

  /** struct NameValue: at most 63 characters of name and 127 of value. */
  datatype Pair = Pair(name: string, value: string)

  /** struct NameValueParserData. `pairs` is the list from its head on. */
  datatype Parsed = Parsed(pairs: seq<Pair>, curelt: string, topelt: bool, cdata: Option<string>, portListing: Option<string>)

  const NOTHING := Parsed([], "", false, None, None)
  const PORT_LISTING := "NewPortListing"

  /** What one callback does. */
  function Handle(d: Parsed, e: Event): Parsed {
    match e
    case Start(name) => d.(topelt := true, curelt := Cut(name, 64), cdata := None)
    case Data(text) =>
      if d.curelt == PORT_LISTING then d.(portListing := Some(text)) else d.(cdata := Some(text))
    case End(_) =>
      if !d.topelt then d
      else
        var value := if d.cdata.Some? then Cut(d.cdata.value, 128) else "";
        d.(pairs := (if d.curelt == PORT_LISTING then [] else [Pair(d.curelt, value)]) + d.pairs,
           cdata := None, topelt := false)
  }

  function HandleAll(d: Parsed, events: seq<Event>): Parsed
    decreases |events|
  {
    if events == [] then d else HandleAll(Handle(d, events[0]), events[1..])
  }

  lemma {:induction false} HandleConcat(d: Parsed, a: seq<Event>, b: seq<Event>)
    ensures HandleAll(d, a + b) == HandleAll(HandleAll(d, a), b)
    decreases |a|
  {
    if a == [] {
      assert a + b == b;
    } else {
      assert (a + b)[1..] == a[1..] + b;
      HandleConcat(Handle(d, a[0]), a[1..], b);
    }
  }

  class NameValueParserData {
    var pairs: seq<Pair>
    var curelt: string
    var topelt: bool
    var cdata: Option<string>
    var portListing: Option<string>

    ghost function Value(): Parsed
      reads this
    {
      Parsed(pairs, curelt, topelt, cdata, portListing)
    }

    constructor ()
      ensures Value() == NOTHING
    {
      pairs, curelt, topelt, cdata, portListing := [], "", false, None, None;
    }

    /** NameValueParserStartElt() */
    method StartElt(name: string)
      modifies this
      ensures Value() == Handle(old(Value()), Start(name))
    {
      topelt := true;
      var l := |name|;
      if l > 63 {
        l := 63;
      }
      curelt := name[..l];
      cdata := None;
    }

    /** NameValueParserEndElt() */
    method EndElt(name: string)
      modifies this
      ensures Value() == Handle(old(Value()), End(name))
    {
      if !topelt {
        return;
      }
      assert [] + pairs == pairs;
      if curelt != PORT_LISTING {
        var value := "";
        if cdata.Some? {
          var l := |cdata.value|;
          if l >= 128 {
            l := 127;
          }
          value := cdata.value[..l];
          assert value == Cut(cdata.value, 128);
        }
        pairs := [Pair(curelt, value)] + pairs;
      }
      cdata := None;
      topelt := false;
    }

    /** NameValueParserGetData() */
    method GetData(text: string)
      modifies this
      ensures Value() == Handle(old(Value()), Data(text))
    {
      if curelt == PORT_LISTING {
        portListing := Some(text);
      } else {
        cdata := Some(text);
      }
    }

    /** GetValueFromNameValueList(): the first pair of the list with the name. */
    method GetValue(name: string) returns (value: Option<string>)
      ensures value == Lookup(pairs, name)
    {
      value := None;
      var nv := 0;
      assert pairs[0..] == pairs;
      while nv < |pairs| && value.None?
        invariant 0 <= nv <= |pairs|
        invariant Lookup(pairs, name) == if value.Some? then value else Lookup(pairs[nv..], name)
      {
        assert pairs[nv..][1..] == pairs[nv + 1..];
        if pairs[nv].name == name {
          value := Some(pairs[nv].value);
        }
        nv := nv + 1;
      }
    }
  }

  function Lookup(pairs: seq<Pair>, name: string): Option<string> {
    if pairs == [] then None
    else if pairs[0].name == name then Some(pairs[0].value)
    else Lookup(pairs[1..], name)
  }
}
