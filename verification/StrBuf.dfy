/** upnpdescgen.c, strcat_str / strcat_char / strcat_int: a character buffer that grows by realloc(). */
module StrBuf {
  import opened Net

  class Buffer {
    var str: array<char>
    var len: nat

    /** There is always room for the terminating NUL. */
    ghost predicate Valid()
      reads this
    {
      len < str.Length
    }

    ghost function Text(): string
      reads this, str
      requires Valid()
    {
      str[..len]
    }

    /** malloc(tmplen) and a first text. */
    constructor (tmplen: nat, text: string)
      requires |text| < tmplen
      ensures Valid() && Text() == text && fresh(str)
    {
      str := new char[tmplen](i => if 0 <= i < |text| then text[i] else '\0');
      len := |text|;
    }

    /** realloc(): on success the old characters are kept. */
    method Grow(newlen: nat)
      requires Valid() && str.Length <= newlen
      modifies this`str
      ensures Valid() && fresh(str) && str.Length == newlen && Text() == old(Text()) && len == old(len)
    {
      var p := new char[newlen](i requires 0 <= i < newlen reads this, str => if i < str.Length then str[i] else '\0');
      assert p[..len] == str[..len];
      str := p;
    }

    /** strcat_str(): `more` tells whether realloc() succeeds, should it be needed. */
    method AppendStr(s2: string, more: bool)
      requires Valid()
      modifies this, str
      ensures Valid() && (str == old(str) || fresh(str))
      ensures Text() == old(Text()) + if more || old(len) + |s2| < old(str.Length) then s2 else ""
      ensures !more ==> str == old(str)
    {
      if str.Length <= len + |s2| {
        if !more {
          return;
        }
        Grow(if |s2| < 256 then str.Length + 256 else str.Length + |s2| + 1);
      }
      forall k | 0 <= k < |s2| {
        str[len + k] := s2[k];
      }
      str[len + |s2|] := '\0';
      len := len + |s2|;
      assert str[..len] == old(Text()) + s2;
    }

    /** strcat_char() */
    method AppendChar(c: char, more: bool)
      requires Valid()
      modifies this, str
      ensures Valid() && (str == old(str) || fresh(str))
      ensures Text() == old(Text()) + if more || old(len) + 1 < old(str.Length) then [c] else []
      ensures !more ==> str == old(str)
    {
      if str.Length <= len + 1 {
        if !more {
          return;
        }
        Grow(str.Length + 256);
      }
      str[len] := c;
      len := len + 1;
      assert str[..len] == old(Text()) + [c];
    }

    /** strcat_int(), for every int whose negation is one too. Without more memory the last digits are lost. */
    method AppendInt(i: int, more: bool)
      requires Valid() && -0x8000_0000 < i < 0x8000_0000
      modifies this, str
      ensures Valid() && (str == old(str) || fresh(str))
      ensures Text() == old(Text()) + Fitting(if i < 0 then "-" + Decimal(-i) else Decimal(i), more, old(str.Length) - 1 - old(len))
      ensures !more ==> str == old(str)
    {
      hide Decimal, Fitting;
      var n := i;
      ghost var was, room := Text(), str.Length - 1 - len;
      if n < 0 {
        AppendChar('-', more);
        n := -n;
      } else if n == 0 {
        DecimalZero();
        FittingDigit('0', more, room);
        AppendChar('0', more);
        return;
      }
      var digits := DigitsBackwards(n);
      ghost var room' := str.Length - 1 - len;
      AppendBackwards(digits, more);
      if i < 0 {
        FittingSign(was, Decimal(n), more, room, room');
      }
    }

    /** The second loop of strcat_int(). */
    method AppendBackwards(digits: string, more: bool)
      requires Valid()
      modifies this, str
      ensures Valid() && (str == old(str) || fresh(str))
      ensures Text() == old(Text()) + Fitting(Reverse(digits), more, old(str.Length) - 1 - old(len))
      ensures !more ==> str == old(str)
    {
      hide Fitting;
      ghost var was, room := Text(), str.Length - 1 - len;
      ghost var done := "";
      var j := |digits|;
      assert digits[..j] == digits;
      FittingNothing(more, room);
      while j > 0
        invariant 0 <= j <= |digits| && Valid() && (str == old(str) || fresh(str))
        invariant !more ==> str == old(str)
        invariant Text() == was + Fitting(done, more, room) && Reverse(digits) == done + Reverse(digits[..j])
      {
        j := j - 1;
        assert digits[..j + 1][..j] == digits[..j];
        FittingChar(done, digits[j], more, room);
        AppendChar(digits[j], more);
        done := done + [digits[j]];
      }
      assert digits[..0] == "" && done + "" == done;
    }
  }

  lemma FittingNothing(more: bool, room: nat)
    ensures Fitting("", more, room) == ""
  {}

  lemma DecimalZero()
    ensures Decimal(0) == "0"
  {}

  /** The first loop of strcat_int(): at most ten digits of an int, last one first. */
  method DigitsBackwards(i: int) returns (digits: string)
    requires 0 < i < 0x8000_0000
    ensures Reverse(digits) == Decimal(i)
  {
    hide Reverse, Decimal;
    var n := i;
    digits := "";
    assert Decimal(i) + "" == Decimal(i);
    BackwardsNothing();
    while n != 0 && |digits| < 16
      invariant |digits| <= 10 && 0 <= n < Power10(10 - |digits|)
      invariant Decimal(i) == (if n == 0 then "" else Decimal(n)) + Reverse(digits)
      decreases n
    {
      BackwardsStep(digits, n);
      digits := digits + [DigitChar(n % 10)];
      n := n / 10;
    }
  }

  lemma BackwardsNothing()
    ensures Reverse("") == ""
  {}

  /** Taking the last digit of `n` over to the digits already taken. */
  lemma BackwardsStep(digits: string, n: nat)
    requires n > 0
    ensures var d := DigitChar(n % 10);
            Decimal(n) + Reverse(digits) == (if n / 10 == 0 then "" else Decimal(n / 10)) + Reverse(digits + [d])
  {
    var d := DigitChar(n % 10);
    DecimalSplit(n);
    ReverseSnoc(digits, d);
    hide Decimal, Reverse;
    var head := if n / 10 == 0 then "" else Decimal(n / 10);
    assert head + [d] + Reverse(digits) == head + ([d] + Reverse(digits));
  }

  lemma DecimalSplit(n: nat)
    requires n > 0
    ensures Decimal(n) == (if n / 10 == 0 then "" else Decimal(n / 10)) + [DigitChar(n % 10)]
  {}

  lemma ReverseSnoc(s: string, c: char)
    ensures Reverse(s + [c]) == [c] + Reverse(s)
  {
    assert (s + [c])[..|s|] == s;
  }

  function Power10(e: nat): nat {
    if e == 0 then 1 else 10 * Power10(e - 1)
  }

  /** What is appended of `s` character by character: with no more memory, as much as there is room for. */
  function Fitting(s: string, more: bool, room: nat): string {
    if more || |s| <= room then s else s[..room]
  }

  lemma FittingChar(s: string, c: char, more: bool, room: nat)
    ensures Fitting(s + [c], more, room) == Fitting(s, more, room) + if more || |Fitting(s, more, room)| < room then [c] else []
  {}

  lemma FittingDigit(c: char, more: bool, room: nat)
    ensures Fitting([c], more, room) == if more || room > 0 then [c] else []
  {}

  /** A minus sign, as far as it fits, and behind it as much of `s` as fits. */
  lemma FittingSign(was: string, s: string, more: bool, room: nat, left: nat)
    requires !more ==> left == if room > 0 then room - 1 else 0
    ensures (was + if more || room > 0 then "-" else "") + Fitting(s, more, left) == was + Fitting("-" + s, more, room)
  {}
}
