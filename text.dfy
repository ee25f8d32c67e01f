/**
 * The pieces of .NET string handling that the clean-up relies on: white space,
 * trimming, ordinal and ordinal-ignore-case comparison, `string.Join`, and the
 * decimal rendering of integers used in report lines.
 */
module Text {

  /**
   * The characters `Char.IsWhiteSpace` accepts, those with the Unicode
   * White_Space property: U+0009 to U+000D, U+0020, U+0085, U+00A0, U+1680,
   * U+2000 to U+200A, U+2028, U+2029, U+202F, U+205F and U+3000.
   */
  const WhiteSpace: set<char> := {
    '\t', '\n', '\U{B}', '\U{C}', '\r', ' ', '\U{85}', '\U{A0}', '\U{1680}',
    '\U{2000}', '\U{2001}', '\U{2002}', '\U{2003}', '\U{2004}', '\U{2005}',
    '\U{2006}', '\U{2007}', '\U{2008}', '\U{2009}', '\U{200A}',
    '\U{2028}', '\U{2029}', '\U{202F}', '\U{205F}', '\U{3000}'
  }

  /** `Char.IsWhiteSpace`. */
  predicate IsWhite(c: char) {
    c in WhiteSpace
  }

  /** Upper-case mapping used by ordinal-ignore-case comparison (ASCII letters only). */
  function UpperChar(c: char): (u: char)
    ensures 'a' <= c <= 'z' ==> 'A' <= u <= 'Z' && u as int == c as int - 32
    ensures !('a' <= c <= 'z') ==> u == c
  {
    if 'a' <= c <= 'z' then (c as int - 32) as char else c
  }

  /**
   * A string comparer. Two strings are equal under a comparer exactly when
   * their keys are equal.
   */
  datatype Comparer = Ordinal | OrdinalIgnoreCase {

    function Key(s: string): (k: string)
      ensures |k| == |s|
      ensures this == Ordinal ==> k == s
      ensures this == OrdinalIgnoreCase ==> forall i :: 0 <= i < |s| ==> k[i] == UpperChar(s[i])
    {
      match this
      case Ordinal => s
      case OrdinalIgnoreCase => seq(|s|, i requires 0 <= i < |s| => UpperChar(s[i]))
    }

    predicate Equals(a: string, b: string) {
      Key(a) == Key(b)
    }
  }

  lemma {:induction false} IgnoreCaseDistinguishesLetters()
    ensures !Ordinal.Equals("A", "a")
    ensures OrdinalIgnoreCase.Equals("A", "a")
    ensures !OrdinalIgnoreCase.Equals("A", "B")
  {
    assert OrdinalIgnoreCase.Key("a")[0] == 'A';
    assert OrdinalIgnoreCase.Key("A")[0] == 'A';
    assert OrdinalIgnoreCase.Key("B")[0] == 'B';
  }

  /** No white space at either end. */
  predicate IsTrimmed(s: string) {
    s == [] || (!IsWhite(s[0]) && !IsWhite(s[|s| - 1]))
  }

  /** The number of white-space characters at the start of `s`. */
  function LeadingWhite(s: string): (n: nat)
    ensures n <= |s|
    ensures forall i :: 0 <= i < n ==> IsWhite(s[i])
    ensures n < |s| ==> !IsWhite(s[n])
  {
    if s != [] && IsWhite(s[0]) then 1 + LeadingWhite(s[1..]) else 0
  }

  /** The number of white-space characters at the end of `s`. */
  function TrailingWhite(s: string): (n: nat)
    ensures n <= |s|
    ensures forall i :: |s| - n <= i < |s| ==> IsWhite(s[i])
    ensures n < |s| ==> !IsWhite(s[|s| - 1 - n])
  {
    if s != [] && IsWhite(s[|s| - 1]) then 1 + TrailingWhite(s[..|s| - 1]) else 0
  }

  /** `TrimStart()`: drops the leading white space. */
  function TrimStart(s: string): string
  {
    s[LeadingWhite(s)..]
  }

  /** `TrimEnd()`: drops the trailing white space. */
  function TrimEnd(s: string): string
  {
    s[..|s| - TrailingWhite(s)]
  }

  /**
   * `Trim()`: the longest white-space-free-at-both-ends middle part of `s`;
   * empty exactly when `s` is all white space.
   */
  function Trim(s: string): (r: string)
    ensures IsTrimmed(r)
    ensures forall c :: c in r ==> c in s
    ensures r == [] <==> forall i :: 0 <= i < |s| ==> IsWhite(s[i])
  {
    TrimIsMiddle(s);
    TrimEnd(TrimStart(s))
  }

  /** Trimming keeps the part of `s` between its leading and its trailing white space. */
  lemma TrimIsMiddle(s: string)
    ensures var r := TrimEnd(TrimStart(s));
      && IsTrimmed(r)
      && (forall c :: c in r ==> c in s)
      && (r == [] <==> forall i :: 0 <= i < |s| ==> IsWhite(s[i]))
  {
    var a := LeadingWhite(s);
    var t := s[a..];
    var b := TrailingWhite(t);
    var r := t[..|t| - b];
    assert TrimEnd(TrimStart(s)) == r;
    assert r == s[a..|s| - b];
    if a < |s| {
      assert t[0] == s[a];
      assert b < |t|;
      assert r[0] == s[a] && r[|r| - 1] == t[|t| - 1 - b];
    }
  }

  /**
   * `Trim()` returns the slice of `s` left once the white space at both ends
   * is cut off: everything before and after the slice is white space, and the
   * slice itself starts and ends with a non-white character.
   */
  lemma TrimIsSlice(s: string)
    ensures exists a, b :: (0 <= a <= b <= |s| && Trim(s) == s[a..b] &&
                            (forall i :: 0 <= i < a ==> IsWhite(s[i])) &&
                            (forall i :: b <= i < |s| ==> IsWhite(s[i])))
  {
    var a := LeadingWhite(s);
    var t := s[a..];
    var b := |s| - TrailingWhite(t);
    assert Trim(s) == s[a..b];
    forall i | b <= i < |s| ensures IsWhite(s[i]) {
      assert s[i] == t[i - a];
    }
  }

  lemma TrimOfTrimmed(s: string)
    requires IsTrimmed(s)
    ensures Trim(s) == s
  {
    assert LeadingWhite(s) == 0;
    assert TrailingWhite(s) == 0;
    assert s[0..] == s && s[..|s|] == s;
  }

  lemma TrimIdempotent(s: string)
    ensures Trim(Trim(s)) == Trim(s)
  {
    TrimOfTrimmed(Trim(s));
  }

  /** `string.Join(sep, xs)`. */
  function Join(sep: string, xs: seq<string>): string
  {
    if xs == [] then ""
    else if |xs| == 1 then xs[0]
    else xs[0] + sep + Join(sep, xs[1..])
  }

  /** The sum of the lengths of `xs`. */
  function TotalLength(xs: seq<string>): nat
  {
    if xs == [] then 0 else |xs[0]| + TotalLength(xs[1..])
  }

  /** A non-empty list joins to its pieces and one separator between each two. */
  lemma {:induction false} JoinLength(sep: string, xs: seq<string>)
    requires xs != []
    ensures |Join(sep, xs)| == TotalLength(xs) + (|xs| - 1) * |sep|
  {
    if |xs| > 1 {
      JoinLength(sep, xs[1..]);
    }
  }

  function DigitChar(d: nat): (c: char)
    requires d < 10
    ensures '0' <= c <= '9'
  {
    ('0' as int + d) as char
  }

  /** `n.ToString()` for a non-negative `n`: its shortest decimal notation. */
  function NatToString(n: nat): (s: string)
    ensures |s| >= 1 && (|s| > 1 ==> s[0] != '0')
    ensures IsDigits(s)
  {
    if n < 10 then [DigitChar(n)] else NatToString(n / 10) + [DigitChar(n % 10)]
  }

  /** `n.ToString()` for any integer, with a leading minus sign when negative. */
  function IntToString(n: int): (s: string)
    ensures |s| >= 1
    ensures (s[0] == '-') <==> n < 0
    ensures n >= 0 ==> IsDigits(s) && DecimalValue(s) == n
    ensures n < 0 ==> IsDigits(s[1..]) && DecimalValue(s[1..]) == -n
  {
    if n < 0 then
      var d := NatToString(-n);
      NatToStringRoundTrip(-n);
      assert ("-" + d)[1..] == d;
      "-" + d
    else
      var d := NatToString(n);
      NatToStringRoundTrip(n);
      assert IsDigits(d) && |d| >= 1;
      d
  }

  predicate IsDigits(s: string) {
    forall i :: 0 <= i < |s| ==> '0' <= s[i] <= '9'
  }

  /** The value of a string of decimal digits. */
  function DecimalValue(s: string): nat
    requires IsDigits(s)
  {
    if s == [] then 0
    else DecimalValue(s[..|s| - 1]) * 10 + (s[|s| - 1] as int - '0' as int)
  }

  lemma {:induction false} NatToStringRoundTrip(n: nat)
    ensures DecimalValue(NatToString(n)) == n
  {
    if n >= 10 {
      NatToStringRoundTrip(n / 10);
      var s := NatToString(n);
      assert s[..|s| - 1] == NatToString(n / 10);
    }
  }
}
