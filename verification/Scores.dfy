/** The score in a GAME_OVER text, as `std::stoi` reads it. */
module Scores {
  import opened Wire
  import opened Text

  predicate IsSpace(c: char) {
    c == ' ' || '\t' <= c <= '\r'
  }

  function SkipSpaces(s: string): string {
    if s != [] && IsSpace(s[0]) then SkipSpaces(s[1..]) else s
  }

  function LeadingDigits(s: string): string {
    if s != [] && IsDigit(s[0]) then [s[0]] + LeadingDigits(s[1..]) else []
  }

  function Unsigned(s: string): string {
    if s != [] && (s[0] == '-' || s[0] == '+') then s[1..] else s
  }

  /** None is an exception: no digits, or a number that does not fit 32 bits. What follows the digits is not
      looked at. */
  function Stoi(s: string): Option<int> {
    var t := SkipSpaces(s);
    var digits := LeadingDigits(Unsigned(t));
    if digits == [] then None
    else
      Fit(if t[0] == '-' then -ReadNat(digits) else ReadNat(digits))
  }

  lemma {:induction false} DigitsEnd(s: string, rest: string)
    requires forall c <- s :: IsDigit(c)
    requires rest == [] || !IsDigit(rest[0])
    ensures LeadingDigits(s + rest) == s
  {
    if s == [] {
      assert s + rest == rest;
    } else {
      assert s[0] in s && (s + rest)[1..] == s[1..] + rest;
      DigitsEnd(s[1..], rest);
    }
  }

  function Fit(n: int): Option<int> {
    if -0x8000_0000 <= n < 0x8000_0000 then Some(n) else None
  }

  lemma StoiOfNat(digits: string, rest: string)
    requires digits != [] && forall c <- digits :: IsDigit(c)
    requires rest == [] || !IsDigit(rest[0])
    ensures Stoi(digits + rest) == Fit(ReadNat(digits))
  {
    var t := digits + rest;
    assert IsDigit(t[0]) by {
      assert digits[0] in digits && t[0] == digits[0];
    }
    assert SkipSpaces(t) == t && Unsigned(t) == t;
    DigitsEnd(digits, rest);
  }

  lemma StoiOfNegative(t: string, digits: string, rest: string)
    requires digits != [] && forall c <- digits :: IsDigit(c)
    requires rest == [] || !IsDigit(rest[0])
    requires t != [] && t[0] == '-' && t[1..] == digits + rest
    ensures Stoi(t) == Fit(-ReadNat(digits))
  {
    DigitsEnd(digits, rest);
    assert SkipSpaces(t) == t;
  }

  lemma StoiOfPlus(s: string)
    requires s != [] && IsDigit(s[0])
    ensures Stoi(['+'] + s) == Stoi(s)
  {
    assert (['+'] + s)[1..] == s;
    assert SkipSpaces(['+'] + s) == ['+'] + s && SkipSpaces(s) == s;
  }

  lemma MinusInFront(digits: string, rest: string)
    ensures ("-" + digits + rest)[0] == '-' && ("-" + digits + rest)[1..] == digits + rest
  {
  }

  lemma StoiOfInt(i: int, rest: string)
    requires rest == [] || !IsDigit(rest[0])
    ensures Stoi(IntText(i) + rest) == Fit(i)
  {
    if i < 0 {
      NatReads(-i);
      MinusInFront(NatText(-i), rest);
      StoiOfNegative(IntText(i) + rest, NatText(-i), rest);
    } else {
      NatReads(i);
      StoiOfNat(NatText(i), rest);
    }
  }

  lemma {:induction false} SpacesSkipped(spaces: string, s: string)
    requires forall c <- spaces :: IsSpace(c)
    ensures Stoi(spaces + s) == Stoi(s)
    decreases |spaces|
  {
    if spaces == [] {
      assert spaces + s == s;
    } else {
      assert spaces[0] in spaces;
      assert (spaces + s)[1..] == spaces[1..] + s;
      SpacesSkipped(spaces[1..], s);
    }
  }

  /** The text of a number is read exactly when it fits 32 bits, whatever spaces come before it and whatever
      follows its digits. */
  lemma StoiReads(spaces: string, i: int, rest: string)
    requires forall c <- spaces :: IsSpace(c)
    requires rest == [] || !IsDigit(rest[0])
    ensures Stoi(spaces + (IntText(i) + rest))
            == if -0x8000_0000 <= i < 0x8000_0000 then Some(i) else None
    ensures i >= 0 ==> Stoi(spaces + (['+'] + (IntText(i) + rest))) == Stoi(IntText(i) + rest)
  {
    SpacesSkipped(spaces, IntText(i) + rest);
    StoiOfInt(i, rest);
    if i >= 0 {
      SpacesSkipped(spaces, ['+'] + (IntText(i) + rest));
      StoiOfPlus(NatText(i) + rest);
    }
  }

  /** A text that does not begin with a number, spaces and a sign apart, is an exception. */
  lemma StoiFails(spaces: string, rest: string)
    requires forall c <- spaces :: IsSpace(c)
    requires rest == [] || !(IsDigit(rest[0]) || IsSpace(rest[0]) || rest[0] == '-' || rest[0] == '+')
    ensures Stoi(spaces + rest) == None
    ensures Stoi(spaces + (['-'] + rest)) == None && Stoi(spaces + (['+'] + rest)) == None
  {
    SpacesSkipped(spaces, rest);
    SpacesSkipped(spaces, ['-'] + rest);
    SpacesSkipped(spaces, ['+'] + rest);
    assert (['-'] + rest)[1..] == rest && (['+'] + rest)[1..] == rest;
  }
}
