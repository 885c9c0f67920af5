/** String helpers the system takes from its platforms: whitespace
    classification and trimming (which differ between Kotlin, Java and
    JavaScript), lower-casing, substring search, lexicographic order and
    decimal rendering of numbers. */
module Text {

  /** The three notions of "whitespace" the system depends on.
      - `Kotlin`: `Char.isWhitespace`, used by Kotlin's `trim()` and `isBlank()`
        in the domain model.
      - `JavaTrim`: Java's `String.trim()`, which strips every char up to
        U+0020; the bean-validation `@NotBlank` check is defined through it.
      - `JavaScript`: `String.prototype.trim()` in the frontend. */
  datatype Platform = Kotlin | JavaTrim | JavaScript

  predicate IsSpace(p: Platform, c: char)
  {
    match p
    case Kotlin =>
      c == '\t' || c == '\n' || c == '\U{000B}' || c == '\U{000C}' || c == '\r'
      || ('\U{001C}' <= c <= '\U{001F}') || c == ' ' || c == '\U{00A0}'
      || c == '\U{1680}' || ('\U{2000}' <= c <= '\U{200A}') || c == '\U{2028}'
      || c == '\U{2029}' || c == '\U{202F}' || c == '\U{205F}' || c == '\U{3000}'
    case JavaTrim =>
      c <= ' '
    case JavaScript =>
      c == '\t' || c == '\n' || c == '\U{000B}' || c == '\U{000C}' || c == '\r'
      || c == ' ' || c == '\U{00A0}' || c == '\U{1680}' || ('\U{2000}' <= c <= '\U{200A}')
      || c == '\U{2028}' || c == '\U{2029}' || c == '\U{202F}' || c == '\U{205F}'
      || c == '\U{3000}' || c == '\U{FEFF}'
  }

  /** Kotlin's `isBlank()` (and the emptiness test on a trimmed string). */
  predicate IsBlank(p: Platform, s: string)
  {
    forall i | 0 <= i < |s| :: IsSpace(p, s[i])
  }

  /** Number of leading whitespace chars. */
  function Lead(p: Platform, s: string): (n: nat)
    ensures n <= |s|
    ensures forall i | 0 <= i < n :: IsSpace(p, s[i])
    ensures n < |s| ==> !IsSpace(p, s[n])
  {
    if |s| == 0 || !IsSpace(p, s[0]) then 0 else 1 + Lead(p, s[1..])
  }

  /** Number of trailing whitespace chars. */
  function Trail(p: Platform, s: string): (n: nat)
    ensures n <= |s|
    ensures forall i | |s| - n <= i < |s| :: IsSpace(p, s[i])
    ensures n < |s| ==> !IsSpace(p, s[|s| - 1 - n])
  {
    if |s| == 0 || !IsSpace(p, s[|s| - 1]) then 0 else 1 + Trail(p, s[..|s| - 1])
  }

  /** `trim()`: the slice of `s` left after dropping leading and trailing
      whitespace. */
  function Trim(p: Platform, s: string): (r: string)
    ensures |r| <= |s|
    ensures r == [] <==> IsBlank(p, s)
    ensures r != [] ==> !IsSpace(p, r[0]) && !IsSpace(p, r[|r| - 1])
    ensures Lead(p, s) + |r| <= |s| && r == s[Lead(p, s) .. Lead(p, s) + |r|]
    ensures IsBlank(p, s[Lead(p, s) + |r| ..])
  {
    var a := Lead(p, s);
    if a == |s| then [] else s[a .. |s| - Trail(p, s)]
  }

  /** A string without whitespace at either end is its own trim. */
  lemma TrimmedIsFixed(p: Platform, s: string)
    requires s == [] || (!IsSpace(p, s[0]) && !IsSpace(p, s[|s| - 1]))
    ensures Trim(p, s) == s
  {
    assert Lead(p, s) == 0;
    assert Trail(p, s) == 0;
  }

  /** Trimming twice is trimming once. */
  lemma TrimIdempotent(p: Platform, s: string)
    ensures Trim(p, Trim(p, s)) == Trim(p, s)
  {
    TrimmedIsFixed(p, Trim(p, s));
  }

  /** A blank string is a string whose trim is empty, on every platform. */
  lemma BlankIffTrimEmpty(p: Platform, s: string)
    ensures IsBlank(p, s) <==> |Trim(p, s)| == 0
  {
  }

  /** ASCII `toLowerCase` of one char. */
  function LowerChar(c: char): char
  {
    if 'A' <= c <= 'Z' then (c as int - 'A' as int + 'a' as int) as char else c
  }

  /** `toLowerCase()` restricted to the ASCII letters. */
  function Lower(s: string): (r: string)
    ensures |r| == |s|
    ensures forall i | 0 <= i < |s| :: r[i] == LowerChar(s[i])
  {
    if s == [] then [] else [LowerChar(s[0])] + Lower(s[1..])
  }

  /** JavaScript `hay.includes(needle)`: `needle` occurs as a contiguous slice. */
  predicate Contains(hay: string, needle: string)
  {
    exists i | 0 <= i <= |hay| - |needle| :: OccursAt(hay, needle, i)
  }

  predicate OccursAt(hay: string, needle: string, i: int)
  {
    0 <= i && i + |needle| <= |hay| && hay[i .. i + |needle|] == needle
  }

  /** Lexicographic order on chars, as the database and `String.compareTo`
      compare names. */
  predicate StrLe(a: string, b: string)
    decreases |a|
  {
    if a == [] then true
    else if b == [] then false
    else if a[0] != b[0] then a[0] < b[0]
    else StrLe(a[1..], b[1..])
  }

  lemma {:induction false} StrLeTotal(a: string, b: string)
    ensures StrLe(a, b) || StrLe(b, a)
    decreases |a|
  {
    if a != [] && b != [] && a[0] == b[0] {
      StrLeTotal(a[1..], b[1..]);
    }
  }

  lemma {:induction false} StrLeTransitive(a: string, b: string, c: string)
    requires StrLe(a, b) && StrLe(b, c)
    ensures StrLe(a, c)
    decreases |a|
  {
    if a != [] && b != [] && c != [] && a[0] == b[0] && b[0] == c[0] {
      StrLeTransitive(a[1..], b[1..], c[1..]);
    }
  }

  lemma {:induction false} StrLeAntisymmetric(a: string, b: string)
    requires StrLe(a, b) && StrLe(b, a)
    ensures a == b
    decreases |a|
  {
    if a != [] && b != [] {
      StrLeAntisymmetric(a[1..], b[1..]);
      assert a == [a[0]] + a[1..];
      assert b == [b[0]] + b[1..];
    }
  }

  predicate IsDigit(c: char)
  {
    '0' <= c <= '9'
  }

  function DigitChar(d: nat): (c: char)
    requires d < 10
    ensures IsDigit(c)
  {
    ('0' as int + d) as char
  }

  /** Decimal rendering of a non-negative number, as a template literal
      `${n}` prints it: digits only, no leading zero. */
  function NatToString(n: nat): (s: string)
    ensures |s| >= 1
    ensures |s| == 1 <==> n < 10
    ensures forall i | 0 <= i < |s| :: IsDigit(s[i])
    ensures s[0] == '0' ==> n == 0
  {
    if n < 10 then [DigitChar(n)] else NatToString(n / 10) + [DigitChar(n % 10)]
  }

  /** The value of a string of decimal digits. */
  function ParseNat(s: string): nat
    requires forall i | 0 <= i < |s| :: IsDigit(s[i])
  {
    if s == [] then 0
    else
      assert IsDigit(s[|s| - 1]);
      10 * ParseNat(s[..|s| - 1]) + (s[|s| - 1] as int - '0' as int)
  }

  /** Rendering loses nothing: the digits read back as the number. */
  lemma {:induction false} ParseNatToString(n: nat)
    ensures ParseNat(NatToString(n)) == n
  {
    var s := NatToString(n);
    if n >= 10 {
      ParseNatToString(n / 10);
      assert s[..|s| - 1] == NatToString(n / 10);
    }
  }
}
