/**
 * The Kotlin standard-library string operations the activity relies on, over `string`. A Dafny `char` is a
 * Unicode scalar value, where a Kotlin `Char` is a UTF-16 code unit.
 */
module KotlinText {
  import opened Wrappers
  import opened Sequences

  /** Kotlin's `Char.isWhitespace()` on the JVM: `Character.isWhitespace(c) || Character.isSpaceChar(c)`. */
  predicate IsWhitespace(c: char) {
    || c == '\t' || c == '\n' || c == '\U{000B}' || c == '\U{000C}' || c == '\r'
    || ('\U{001C}' <= c <= '\U{001F}')
    || c == ' ' || c == '\U{00A0}' || c == '\U{1680}'
    || ('\U{2000}' <= c <= '\U{200A}')
    || c == '\U{2028}' || c == '\U{2029}' || c == '\U{202F}' || c == '\U{205F}' || c == '\U{3000}'
  }

  /** `isBlank()`: empty or whitespace only. */
  predicate IsBlank(s: string) {
    forall i :: 0 <= i < |s| ==> IsWhitespace(s[i])
  }

  /** `trim()`. */
  function TrimWhitespace(s: string): (r: string)
    ensures r == [] <==> IsBlank(s)
    ensures r != [] ==> !IsWhitespace(r[0]) && !IsWhitespace(r[|r| - 1])
  {
    Trim(s, IsWhitespace)
  }

  /** `trim()` removes the leading and the trailing whitespace and nothing else. */
  lemma TrimWhitespaceKeepsMiddle(s: string)
    ensures InfixAmidDropped(s, TrimWhitespace(s), LeadingRun(s, IsWhitespace), IsWhitespace)
  {
    TrimKeepsMiddle(s, IsWhitespace);
  }

  lemma TrimWhitespaceIdempotent(s: string)
    ensures TrimWhitespace(TrimWhitespace(s)) == TrimWhitespace(s)
  {
    TrimIdempotent(s, IsWhitespace);
  }

  /** `substringAfterLast(delimiter)`: the text after the last delimiter, or the whole text when there is none. */
  function SubstringAfterLast(s: string, delimiter: char): (r: string)
    ensures delimiter !in r
    ensures |r| <= |s| && r == s[|s| - |r|..]
    ensures |r| < |s| ==> s[|s| - |r| - 1] == delimiter
    ensures delimiter !in s ==> r == s
  {
    match LastIndexOf(s, delimiter)
    case Some(i) => s[i + 1..]
    case None => s
  }

  /** The text after the last delimiter is the only delimiter-free suffix that is either all of `s` or preceded by the delimiter. */
  lemma AfterLastUnique(s: string, delimiter: char, r: string)
    requires delimiter !in r && |r| <= |s| && r == s[|s| - |r|..]
    requires |r| < |s| ==> s[|s| - |r| - 1] == delimiter
    ensures r == SubstringAfterLast(s, delimiter)
  {
  }

  /** Appending delimiter-free text extends the text after the last delimiter by exactly that text. */
  lemma SubstringAfterLastAppend(prefix: string, suffix: string, delimiter: char)
    requires delimiter !in suffix
    ensures SubstringAfterLast(prefix + suffix, delimiter) == SubstringAfterLast(prefix, delimiter) + suffix
  {
    var s := prefix + suffix;
    var q := SubstringAfterLast(prefix, delimiter);
    var r := q + suffix;
    assert r == s[|s| - |r|..];
    if |r| < |s| {
      assert s[|s| - |r| - 1] == prefix[|prefix| - |q| - 1];
    }
    AfterLastUnique(s, delimiter, r);
  }

  /** `substringBeforeLast(delimiter, missingDelimiterValue)`. */
  function SubstringBeforeLast(s: string, delimiter: char, missing: string): (r: string)
    ensures delimiter !in s ==> r == missing
    ensures delimiter in s ==> |r| < |s| && r == s[..|r|] && s[|r|] == delimiter && delimiter !in s[|r| + 1..]
  {
    match LastIndexOf(s, delimiter)
    case Some(i) => s[..i]
    case None => missing
  }

  predicate IsDigit(c: char) { '0' <= c <= '9' }

  /** Decimal digits of a natural number, most significant first, without leading zeros. */
  function NatToString(n: nat): (r: string)
    ensures r != [] && forall i :: 0 <= i < |r| ==> IsDigit(r[i])
    ensures r[0] == '0' ==> n == 0
  {
    var digit := ['0' + ((n % 10) as char)];
    if n < 10 then digit else NatToString(n / 10) + digit
  }

  /** The value of a string of decimal digits, most significant first. */
  function DigitsValue(s: string): nat
    requires forall i :: 0 <= i < |s| ==> IsDigit(s[i])
  {
    if s == [] then 0 else assert IsDigit(s[|s| - 1]); 10 * DigitsValue(s[..|s| - 1]) + (s[|s| - 1] as int - '0' as int)
  }

  /** Reading the digits back gives the number. */
  lemma {:induction false} NatToStringValue(n: nat)
    ensures DigitsValue(NatToString(n)) == n
  {
    var r := NatToString(n);
    if n >= 10 {
      NatToStringValue(n / 10);
      assert r[..|r| - 1] == NatToString(n / 10);
    }
  }

  /** Different numbers have different digit strings. */
  lemma NatToStringInjective(a: nat, b: nat)
    requires NatToString(a) == NatToString(b)
    ensures a == b
  {
    NatToStringValue(a);
    NatToStringValue(b);
  }

  /** Kotlin's `Int.toString()`, as used by string templates such as `"slot_$slot"`: a sign only for negatives. */
  function IntToString(n: int): (r: string)
    ensures r != [] && (r[0] == '-' <==> n < 0)
    ensures forall i :: 0 <= i < |r| ==> IsDigit(r[i]) || (i == 0 && r[i] == '-')
    ensures n < 0 ==> |r| > 1
  {
    if n < 0 then "-" + NatToString(-n) else NatToString(n)
  }

  /** Different numbers print differently, so `"slot_$slot"` tells slots apart. */
  lemma IntToStringInjective(a: int, b: int)
    requires IntToString(a) == IntToString(b)
    ensures a == b
  {
    if a < 0 {
      assert IntToString(a)[1..] == NatToString(-a);
      assert IntToString(b)[1..] == NatToString(-b);
      NatToStringInjective(-a, -b);
    } else {
      NatToStringInjective(a, b);
    }
  }
}
