/** String helpers shared by the codec, the stores and the Swagger importer: decimal and base-36
    rendering of a number (template literals such as `link-top-${idx}`, `Date.now().toString(36)`),
    prefix and suffix tests, character replacement and ASCII upper-casing. */
module Text {

  predicate IsDigit(c: char) {
    '0' <= c <= '9'
  }

  /** The decimal digit for `d`. */
  function Digit(d: nat): (c: char)
    requires d < 10
    ensures IsDigit(c)
  {
    ['0', '1', '2', '3', '4', '5', '6', '7', '8', '9'][d]
  }

  /** `String(n)` for a non-negative integer: its decimal digits, no sign, no leading zero. */
  function NatToString(n: nat): (s: string)
    ensures |s| >= 1 && (forall i :: 0 <= i < |s| ==> IsDigit(s[i]))
    ensures |s| == 1 <==> n < 10
    ensures s[|s| - 1] == Digit(n % 10)
  {
    if n < 10 then [Digit(n)] else NatToString(n / 10) + [Digit(n % 10)]
  }

  lemma DigitInjective(a: nat, b: nat)
    requires a < 10 && b < 10 && Digit(a) == Digit(b)
    ensures a == b
  {
  }

  /** Distinct indices render as distinct strings, so ids built from an index differ. */
  lemma {:induction false} NatToStringInjective(a: nat, b: nat)
    requires NatToString(a) == NatToString(b)
    ensures a == b
  {
    var s := NatToString(a);
    DigitInjective(a % 10, b % 10);
    if a >= 10 && b >= 10 {
      assert NatToString(a / 10) == s[..|s| - 1] == NatToString(b / 10);
      NatToStringInjective(a / 10, b / 10);
    }
  }

  /** A digit of `Number.prototype.toString(36)`: `0`-`9`, then `a`-`z`. */
  function Base36Digit(d: nat): char
    requires d < 36
  {
    if d < 10 then ('0' as int + d) as char else ('a' as int + d - 10) as char
  }

  /** `n.toString(36)` for a non-negative integer: no sign, no leading zero. */
  function NatToBase36(n: nat): (s: string)
    ensures |s| >= 1 && (|s| == 1 <==> n < 36)
    ensures s[|s| - 1] == Base36Digit(n % 36)
  {
    if n < 36 then [Base36Digit(n)] else NatToBase36(n / 36) + [Base36Digit(n % 36)]
  }

  /** Distinct numbers have distinct base-36 renderings. */
  lemma {:induction false} NatToBase36Injective(a: nat, b: nat)
    requires NatToBase36(a) == NatToBase36(b)
    ensures a == b
  {
    var s := NatToBase36(a);
    assert a % 36 == b % 36;
    if a >= 36 && b >= 36 {
      assert NatToBase36(a / 36) == s[..|s| - 1] == NatToBase36(b / 36);
      NatToBase36Injective(a / 36, b / 36);
    }
  }

  predicate StartsWith(s: string, p: string) {
    |p| <= |s| && s[..|p|] == p
  }

  predicate EndsWith(s: string, t: string) {
    |t| <= |s| && s[|s| - |t|..] == t
  }

  /** `s.replace(/[...]/g, sub)`: every character of `s` that is in `cs` becomes `sub`. */
  function ReplaceChars(s: string, cs: set<char>, sub: char): (r: string)
    ensures |r| == |s|
    ensures forall i :: 0 <= i < |s| ==> r[i] == (if s[i] in cs then sub else s[i])
  {
    if s == [] then [] else [if s[0] in cs then sub else s[0]] + ReplaceChars(s[1..], cs, sub)
  }

  function UpperChar(c: char): char {
    if 'a' <= c <= 'z' then (c as int - 'a' as int + 'A' as int) as char else c
  }

  /** `s.toUpperCase()` restricted to ASCII letters. */
  function ToUpper(s: string): (r: string)
    ensures |r| == |s|
    ensures forall i :: 0 <= i < |s| ==> r[i] == UpperChar(s[i])
    ensures forall i :: 0 <= i < |r| ==> !('a' <= r[i] <= 'z')
  {
    if s == [] then [] else [UpperChar(s[0])] + ToUpper(s[1..])
  }
}
