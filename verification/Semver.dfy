/** The version prefix that version governance reads: digits, dot, digits, dot, digits, then anything. */
module Semver {
  import opened Prelude

  datatype Version = Version(major: nat, minor: nat, patch: nat)

  predicate IsDigit(c: char) { '0' <= c <= '9' }

  predicate AllDigits(s: string) { forall i | 0 <= i < |s| :: IsDigit(s[i]) }

  function DigitValue(c: char): nat
    requires IsDigit(c)
  {
    c as int - '0' as int
  }

  /** How many leading characters of s are digits. */
  function DigitRun(s: string): (n: nat)
    ensures n <= |s| && AllDigits(s[..n]) && (n < |s| ==> !IsDigit(s[n]))
  {
    if s == "" || !IsDigit(s[0]) then 0
    else
      assert forall i | 0 < i <= |s| :: s[..i] == [s[0]] + s[1..][..i - 1];
      1 + DigitRun(s[1..])
  }

  /** The number that a string of digits denotes. */
  function Value(digits: string): nat
    requires AllDigits(digits)
  {
    if digits == "" then 0 else 10 * Value(digits[..|digits| - 1]) + DigitValue(digits[|digits| - 1])
  }

  /** The number at the head of s, and what follows it. */
  function Number(s: string): Option<(nat, string)> {
    var n := DigitRun(s);
    if n == 0 then None else Some((Value(s[..n]), s[n..]))
  }

  /** A number followed by a dot at the head of s, and what follows the dot. */
  function NumberDot(s: string): Option<(nat, string)> {
    var head := Number(s);
    if head.None? || head.value.1 == "" || head.value.1[0] != '.' then None
    else Some((head.value.0, head.value.1[1..]))
  }

  function Parse(s: string): Option<Version> {
    var major := NumberDot(s);
    if major.None? then None
    else
      var minor := NumberDot(major.value.1);
      if minor.None? then None
      else
        var patch := Number(minor.value.1);
        if patch.None? then None else Some(Version(major.value.0, minor.value.0, patch.value.0))
  }

  // ---------------------------------------------------------------- what is parsed

  predicate Numeral(s: string) { s != "" && AllDigits(s) }

  /** s is three numerals, leading zeros allowed, with dots between, and a rest that does not go on with a digit. */
  predicate Shape(s: string, major: string, minor: string, patch: string, rest: string) {
    && Numeral(major) && Numeral(minor) && Numeral(patch)
    && (rest != "" ==> !IsDigit(rest[0]))
    && s == major + ("." + (minor + ("." + (patch + rest))))
  }

  lemma {:induction false} RunOfDigits(s: string, rest: string)
    requires AllDigits(s) && (rest != "" ==> !IsDigit(rest[0]))
    ensures DigitRun(s + rest) == |s|
  {
    if s == "" {
      assert s + rest == rest;
    } else {
      assert (s + rest)[1..] == s[1..] + rest;
      RunOfDigits(s[1..], rest);
    }
  }

  lemma NumberOfNumeral(s: string, rest: string)
    requires Numeral(s) && (rest != "" ==> !IsDigit(rest[0]))
    ensures Number(s + rest) == Some((Value(s), rest))
  {
    RunOfDigits(s, rest);
    assert (s + rest)[..|s|] == s && (s + rest)[|s|..] == rest;
  }

  lemma NumberDotOfNumeral(s: string, rest: string)
    requires Numeral(s)
    ensures NumberDot(s + ("." + rest)) == Some((Value(s), rest))
  {
    NumberOfNumeral(s, "." + rest);
    assert ("." + rest)[1..] == rest;
  }

  lemma ShapeParses(s: string, major: string, minor: string, patch: string, rest: string)
    requires Shape(s, major, minor, patch, rest)
    ensures Parse(s) == Some(Version(Value(major), Value(minor), Value(patch)))
  {
    NumberDotOfNumeral(major, minor + ("." + (patch + rest)));
    NumberDotOfNumeral(minor, patch + rest);
    NumberOfNumeral(patch, rest);
  }

  /** A number followed by a dot is a numeral followed by one. */
  lemma NumeralOfNumberDot(s: string) returns (digits: string)
    requires NumberDot(s).Some?
    ensures Numeral(digits) && s == digits + ("." + NumberDot(s).value.1) && NumberDot(s).value.0 == Value(digits)
  {
    var n := DigitRun(s);
    digits := s[..n];
    assert s[n..] == "." + s[n..][1..];
    assert s == s[..n] + s[n..];
  }

  lemma NumeralOfNumber(s: string) returns (digits: string, rest: string)
    requires Number(s).Some?
    ensures Numeral(digits) && (rest != "" ==> !IsDigit(rest[0])) && s == digits + rest
  {
    var n := DigitRun(s);
    digits, rest := s[..n], s[n..];
  }

  lemma ParsedHasShape(s: string) returns (major: string, minor: string, patch: string, rest: string)
    requires Parse(s).Some?
    ensures Shape(s, major, minor, patch, rest)
  {
    major := NumeralOfNumberDot(s);
    minor := NumeralOfNumberDot(NumberDot(s).value.1);
    patch, rest := NumeralOfNumber(NumberDot(NumberDot(s).value.1).value.1);
  }

  /** A version is read from s exactly when s has the shape, and then it is the version its numerals denote. */
  lemma ParseExactly(s: string)
    ensures Parse(s).Some? <==> exists major, minor, patch, rest :: Shape(s, major, minor, patch, rest)
    ensures forall major, minor, patch, rest | Shape(s, major, minor, patch, rest) ::
      Parse(s) == Some(Version(Value(major), Value(minor), Value(patch)))
  {
    forall major, minor, patch, rest | Shape(s, major, minor, patch, rest)
      ensures Parse(s) == Some(Version(Value(major), Value(minor), Value(patch)))
    {
      ShapeParses(s, major, minor, patch, rest);
    }
    if Parse(s).Some? {
      var major, minor, patch, rest := ParsedHasShape(s);
    }
  }

  // ---------------------------------------------------------------- round trip

  function Digit(n: nat): char
    requires n < 10
  {
    '0' + n as char
  }

  function Shown(n: nat): string {
    if n < 10 then [Digit(n)] else Shown(n / 10) + [Digit(n % 10)]
  }

  lemma {:induction false} ValueOfShown(n: nat)
    ensures Numeral(Shown(n)) && Value(Shown(n)) == n
  {
    var s := Shown(n);
    if n < 10 {
      assert s[..0] == "";
    } else {
      ValueOfShown(n / 10);
      assert s[..|s| - 1] == Shown(n / 10);
      assert AllDigits(s);
    }
  }

  /** A version written in decimal, with any suffix that does not go on with a digit, parses back. */
  lemma ParseOfShown(v: Version, suffix: string)
    requires suffix != "" ==> !IsDigit(suffix[0])
    ensures Parse(Shown(v.major) + ("." + (Shown(v.minor) + ("." + (Shown(v.patch) + suffix))))) == Some(v)
  {
    ValueOfShown(v.major);
    ValueOfShown(v.minor);
    ValueOfShown(v.patch);
    var s := Shown(v.major) + ("." + (Shown(v.minor) + ("." + (Shown(v.patch) + suffix))));
    ShapeParses(s, Shown(v.major), Shown(v.minor), Shown(v.patch), suffix);
  }
}
