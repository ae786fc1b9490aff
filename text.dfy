/**
 * Character and string helpers shared by the validators: Ruby's `blank?`,
 * the `\d` character class, decimal values of digit strings, ASCII
 * `downcase` and the part of `String#to_i` that validated parameters reach.
 */
module Text {

  /** The ASCII white-space characters (space, \t, \n, \v, \f, \r). */
  predicate IsSpace(c: char) {
    c == ' ' || c == '\t' || c == '\n' || c == '\r' || c as int == 11 || c as int == 12
  }

  /** Ruby's `blank?` on a string: empty or white space only. */
  predicate Blank(s: string) {
    forall i :: 0 <= i < |s| ==> IsSpace(s[i])
  }

  /** The regular-expression class `\d`, which in Ruby is ASCII only. */
  predicate IsDigit(c: char) {
    '0' <= c <= '9'
  }

  predicate AllDigits(s: string) {
    forall i :: 0 <= i < |s| ==> IsDigit(s[i])
  }

  /** `s =~ /\A\d+\z/`: one or more digits and nothing else. */
  predicate IsDigitString(s: string) {
    |s| > 0 && AllDigits(s)
  }

  function DigitValue(c: char): (d: nat)
    requires IsDigit(c)
    ensures d <= 9
  {
    c as int - '0' as int
  }

  function Pow10(n: nat): (p: nat)
    ensures p >= 1
  {
    if n == 0 then 1 else 10 * Pow10(n - 1)
  }

  /** The number a string of decimal digits denotes, most significant digit first. */
  function DecimalValue(s: string): nat
    requires AllDigits(s)
  {
    if s == [] then 0 else DigitValue(s[0]) * Pow10(|s| - 1) + DecimalValue(s[1..])
  }

  /** A string of n digits denotes a number below 10^n. */
  lemma {:induction false} DecimalValueBelow(s: string)
    requires AllDigits(s)
    ensures DecimalValue(s) < Pow10(|s|)
  {
    if s != [] {
      assert AllDigits(s[1..]) by {
        forall i | 0 <= i < |s[1..]| ensures IsDigit(s[1..][i]) {
          assert s[1..][i] == s[i + 1];
        }
      }
      DecimalValueBelow(s[1..]);
      var d, p := DigitValue(s[0]), Pow10(|s| - 1);
      assert DecimalValue(s) == d * p + DecimalValue(s[1..]);
      assert Pow10(|s|) == 10 * p;
      DigitScaleBelow(d, p);
    }
  }

  /** A digit times p is at most 9 times p. */
  lemma {:induction false} DigitScaleBelow(d: nat, p: nat)
    requires d <= 9
    ensures d * p <= 9 * p
  {
    if p > 0 {
      DigitScaleBelow(d, p - 1);
      assert d * p == d * (p - 1) + d;
    }
  }

  /** Leading ASCII white space skipped, as `String#to_i` does. */
  function SkipSpaces(s: string): (r: string)
    ensures |r| <= |s| && r == s[|s| - |r|..]
    ensures forall i :: 0 <= i < |s| - |r| ==> IsSpace(s[i])
    ensures r == [] || !IsSpace(r[0])
    ensures Blank(s) <==> r == []
  {
    if s == [] || !IsSpace(s[0]) then s else SkipSpaces(s[1..])
  }

  /** The longest prefix of `s` made of digits. */
  function DigitPrefix(s: string): (r: string)
    ensures |r| <= |s| && AllDigits(r) && r == s[..|r|]
    ensures |r| < |s| ==> !IsDigit(s[|r|])
  {
    if s == [] || !IsDigit(s[0]) then []
    else
      var rest := DigitPrefix(s[1..]);
      assert s[1..][..|rest|] == s[1..|rest| + 1];
      [s[0]] + rest
  }

  /**
   * `String#to_i` on strings without sign or underscore: skip leading white
   * space, then read the digits that follow, 0 when there are none.
   */
  function ToI(s: string): (n: nat)
    ensures Blank(s) ==> n == 0
  {
    DecimalValue(DigitPrefix(SkipSpaces(s)))
  }

  /** On a validated digit string, `to_i` is its decimal value. */
  lemma ToIOfDigits(s: string)
    requires IsDigitString(s)
    ensures ToI(s) == DecimalValue(s)
  {
    assert !IsSpace(s[0]);
    DigitPrefixOfDigits(s);
  }

  lemma {:induction false} DigitPrefixOfDigits(s: string)
    requires AllDigits(s)
    ensures DigitPrefix(s) == s
  {
    if s != [] {
      DigitPrefixOfDigits(s[1..]);
    }
  }

  /** `downcase` of one character: a capital becomes the same letter in lower case. */
  function DowncaseChar(c: char): (d: char)
    ensures 'A' <= c <= 'Z' ==> 'a' <= d <= 'z' && d as int - 'a' as int == c as int - 'A' as int
    ensures !('A' <= c <= 'Z') ==> d == c
  {
    if 'A' <= c <= 'Z' then (c as int + 32) as char else c
  }

  /** `String#downcase` on ASCII letters; every other character is kept. */
  function Downcase(s: string): (r: string)
    ensures |r| == |s|
    ensures forall i :: 0 <= i < |s| ==> r[i] == DowncaseChar(s[i])
  {
    if s == [] then [] else [DowncaseChar(s[0])] + Downcase(s[1..])
  }
}
