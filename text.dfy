/** Character classes and string operations of the Java runtime that the
    extractor relies on: `\d`, `[A-Z]` with and without `(?i)`, `\s`,
    `String.replaceAll` over a character class, `String.trim()` and the decimal
    rendering of `StringBuilder.append(int)`. */
module Text {

  /** A Java reference that may be null. */
  datatype Option<+T> = None | Some(value: T)

  /** `\d` without UNICODE_CHARACTER_CLASS. */
  predicate IsDigit(c: char) { '0' <= c <= '9' }

  /** `[A-Z]` in a pattern without `(?i)`. */
  predicate IsUpper(c: char) { 'A' <= c <= 'Z' }

  predicate IsLower(c: char) { 'a' <= c <= 'z' }

  /** `[A-Z]` under `(?i)`: Java folds the case of ASCII letters only. */
  predicate IsLetter(c: char) { IsUpper(c) || IsLower(c) }

  /** `[A-Z0-9]` under `(?i)`. */
  predicate IsAlnum(c: char) { IsLetter(c) || IsDigit(c) }

  /** `\s` without UNICODE_CHARACTER_CLASS: space, tab, newline, vertical tab, form feed, carriage return. */
  predicate IsSpace(c: char)
  {
    c == ' ' || c == '\t' || c == '\n' || c == '\U{B}' || c == '\U{C}' || c == '\r'
  }

  /** The characters that `.` does not match when DOTALL is off. */
  predicate IsLineTerminator(c: char)
  {
    c == '\n' || c == '\r' || c == '\U{85}' || c == '\U{2028}' || c == '\U{2029}'
  }

  predicate AllDigits(s: string) { forall i :: 0 <= i < |s| ==> IsDigit(s[i]) }

  predicate AllLetters(s: string) { forall i :: 0 <= i < |s| ==> IsLetter(s[i]) }

  predicate AllAlnum(s: string) { forall i :: 0 <= i < |s| ==> IsAlnum(s[i]) }

  predicate NoSpace(s: string) { forall i :: 0 <= i < |s| ==> !IsSpace(s[i]) }

  predicate NoLineTerminator(s: string) { forall i :: 0 <= i < |s| ==> !IsLineTerminator(s[i]) }

  /** `s.replaceAll("[...]", rep)` for a pattern that is one character class:
      every character of the class is replaced by `rep`, every other one kept. */
  function ReplaceEach(s: string, cls: char -> bool, rep: string): (r: string)
    ensures forall i :: 0 <= i < |r| ==> r[i] in rep || (r[i] in s && !cls(r[i]))
    ensures (forall i :: 0 <= i < |s| ==> !cls(s[i])) ==> r == s
  {
    if s == [] then []
    else (if cls(s[0]) then rep else [s[0]]) + ReplaceEach(s[1..], cls, rep)
  }

  /** A replacement pass distributes over concatenation. */
  lemma {:induction false} ReplaceEachAppend(a: string, b: string, cls: char -> bool, rep: string)
    ensures ReplaceEach(a + b, cls, rep) == ReplaceEach(a, cls, rep) + ReplaceEach(b, cls, rep)
  {
    if a == [] {
      assert a + b == b;
    } else {
      assert (a + b)[1..] == a[1..] + b;
      ReplaceEachAppend(a[1..], b, cls, rep);
    }
  }

  /** Leading characters at or below U+0020 removed. */
  function TrimStart(s: string): (r: string)
    ensures forall c :: c in r ==> c in s
    ensures r != [] ==> r[0] > ' '
    ensures (forall i :: 0 <= i < |s| ==> s[i] > ' ') ==> r == s
  {
    if s != [] && s[0] <= ' ' then TrimStart(s[1..]) else s
  }

  /** Trailing characters at or below U+0020 removed. */
  function TrimEnd(s: string): (r: string)
    ensures forall c :: c in r ==> c in s
    ensures r != [] ==> r[|r| - 1] > ' '
    ensures r != [] && s != [] ==> r[0] == s[0]
    ensures (forall i :: 0 <= i < |s| ==> s[i] > ' ') ==> r == s
  {
    if s != [] && s[|s| - 1] <= ' ' then TrimEnd(s[..|s| - 1]) else s
  }

  /** `String.trim()`: drops the characters at or below U+0020 at both ends. */
  function Trim(s: string): (r: string)
    ensures forall c :: c in r ==> c in s
    ensures r != [] ==> r[0] > ' ' && r[|r| - 1] > ' '
    ensures (forall i :: 0 <= i < |s| ==> s[i] > ' ') ==> r == s
  {
    TrimEnd(TrimStart(s))
  }

  /** The decimal digit character for `d`. */
  function DigitChar(d: nat): (c: char)
    requires d < 10
    ensures IsDigit(c)
  {
    ['0', '1', '2', '3', '4', '5', '6', '7', '8', '9'][d]
  }

  function DigitValue(c: char): nat
    requires IsDigit(c)
  {
    (c as int - '0' as int) as nat
  }

  /** `Integer.toString(n)` for a non-negative `n`: decimal, no sign, no leading zero. */
  function NatToString(n: nat): (s: string)
    ensures s != [] && AllDigits(s)
    ensures |s| > 1 ==> s[0] != '0'
  {
    if n < 10 then [DigitChar(n)] else NatToString(n / 10) + [DigitChar(n % 10)]
  }

  /** Reads a string of decimal digits back as a number. */
  function ParseNat(s: string): nat
    requires AllDigits(s)
  {
    if s == [] then 0 else 10 * ParseNat(s[..|s| - 1]) + DigitValue(s[|s| - 1])
  }

  /** Rendering a number in decimal loses nothing. */
  lemma {:induction false} ParseNatToString(n: nat)
    ensures ParseNat(NatToString(n)) == n
  {
    var s := NatToString(n);
    if n >= 10 {
      ParseNatToString(n / 10);
      assert s[..|s| - 1] == NatToString(n / 10);
    }
    assert DigitValue(DigitChar(n % 10)) == n % 10;
  }
}
