/** Character classification for subword navigation: which characters belong to a
    word, which are hexadecimal digits, and the upper-case and digit tables that the
    subword breakpoint rule consults. Strings are `seq<char>`; the text is taken
    to lie in the Basic Multilingual Plane, where one `char` is one UTF-16 code unit. */
module Classify {

  /** Word characters that need no extras: ASCII digits, ASCII letters, `-` and `_`.
      The test is made on character codes, as the source does. */
  function IsAsciiWordChar(c: char): (r: bool)
    ensures r <==> ('0' <= c <= '9') || ('A' <= c <= 'Z') || ('a' <= c <= 'z') || c == '-' || c == '_'
  {
    var code := c as int;
    (47 < code < 58) || (64 < code < 91) || (96 < code < 123) || code == 45 || code == 95
  }

  /** A single character is a word character when it is an ASCII word character or one
      of the caller's extra characters. */
  predicate IsWordChar(c: char, xtra: string) {
    c in xtra || IsAsciiWordChar(c)
  }

  /** No character of `s` before index `i` is one of the extra characters. */
  predicate NoExtraBefore(s: string, i: int, xtra: string)
    requires 0 <= i <= |s|
  {
    forall j :: 0 <= j < i ==> s[j] !in xtra
  }

  /** The answer of the word-character test on a whole string: never for the empty
      string; otherwise the scan answers yes at the first extra character it meets and
      no at the first character that is neither extra nor an ASCII word character. */
  predicate Alphanumeric(s: string, xtra: string) {
    |s| > 0 &&
    forall i :: 0 <= i < |s| && NoExtraBefore(s, i, xtra) ==> IsWordChar(s[i], xtra)
  }

  /** The empty string is never a word character. */
  lemma AlphanumericEmpty(xtra: string)
    ensures !Alphanumeric("", xtra)
  {
  }

  /** On a one-character string the test is exactly the character test. */
  lemma AlphanumericSingle(c: char, xtra: string)
    ensures Alphanumeric([c], xtra) <==> IsWordChar(c, xtra)
  {
    if IsWordChar(c, xtra) {
      assert NoExtraBefore([c], 0, xtra);
    } else {
      assert NoExtraBefore([c], 0, xtra);
      assert [c][0] == c;
    }
  }

  /** Without extras, a string passes iff it is non-empty and made only of ASCII word
      characters. */
  lemma AlphanumericWithoutExtras(s: string)
    ensures Alphanumeric(s, "") <==> |s| > 0 && forall i :: 0 <= i < |s| ==> IsAsciiWordChar(s[i])
  {
    if |s| > 0 && forall i :: 0 <= i < |s| ==> IsAsciiWordChar(s[i]) {
      assert Alphanumeric(s, "");
    }
    if Alphanumeric(s, "") {
      forall i | 0 <= i < |s| ensures IsAsciiWordChar(s[i]) {
        assert NoExtraBefore(s, i, "");
      }
    }
  }

  /** A string that starts with an extra character passes whatever follows it. */
  lemma AlphanumericStopsAtFirstExtra(s: string, xtra: string)
    requires |s| > 0 && s[0] in xtra
    ensures Alphanumeric(s, xtra)
  {
    forall i | 0 <= i < |s| ensures NoExtraBefore(s, i, xtra) ==> IsWordChar(s[i], xtra) {
      if i > 0 {
        assert s[0] in xtra;
      }
    }
  }

  /** The word-character test over a string, scanning it index by index. */
  method IsAlphanumeric(s: string, xtra: string) returns (r: bool)
    ensures r == Alphanumeric(s, xtra)
  {
    if |s| == 0 {
      return false;
    }
    var i := 0;
    while i < |s|
      invariant 0 <= i <= |s|
      invariant NoExtraBefore(s, i, xtra)
      invariant forall k :: 0 <= k < i ==> IsAsciiWordChar(s[k])
    {
      if s[i] in xtra {
        forall k | 0 <= k < |s| ensures NoExtraBefore(s, k, xtra) ==> IsWordChar(s[k], xtra) {
          if k > i {
            assert s[i] in xtra;
          }
        }
        return true;
      }
      if !IsAsciiWordChar(s[i]) {
        assert !IsWordChar(s[i], xtra);
        return false;
      }
      i := i + 1;
    }
    return true;
  }

  const HexDigits := "0123456789abcdefABCDEF"

  predicate IsHexDigit(c: char) {
    ('0' <= c <= '9') || ('a' <= c <= 'f') || ('A' <= c <= 'F')
  }

  /** Membership in the hexadecimal digit table is exactly `IsHexDigit`. */
  lemma HexDigitTable(c: char)
    ensures c in HexDigits <==> IsHexDigit(c)
  {
  }

  /** Every character is a hexadecimal digit (vacuously so for the empty string). */
  predicate IsHexString(s: string) {
    forall i :: 0 <= i < |s| ==> IsHexDigit(s[i])
  }

  /** The hexadecimal test over a string, stopping at the first non-hex character. */
  method IsHexadecimalString(s: string) returns (r: bool)
    ensures r == IsHexString(s)
  {
    var i := 0;
    while i < |s|
      invariant 0 <= i <= |s|
      invariant forall k :: 0 <= k < i ==> IsHexDigit(s[k])
    {
      HexDigitTable(s[i]);
      if s[i] !in HexDigits {
        return false;
      }
      i := i + 1;
    }
    return true;
  }

  /** The upper-case letters of the breakpoint rule: ASCII and a few accented ones. */
  const Uppers := "ABCDEFGHIJKLMNOPQRSTUVWXYZÉÈÊÀÓÒŽŠ"

  const Numbers := "0123456789"

  /** The upper-case letters of the table: `A` to `Z` and the eight accented capitals. */
  predicate IsUpper(c: char) {
    ('A' <= c <= 'Z') || c == 'É' || c == 'È' || c == 'Ê' || c == 'À' ||
    c == 'Ó' || c == 'Ò' || c == 'Ž' || c == 'Š'
  }

  predicate IsAsciiLower(c: char) {
    'a' <= c <= 'z'
  }

  predicate IsDigit(c: char) {
    '0' <= c <= '9'
  }

  /** Membership in the upper-case table is exactly `IsUpper`. */
  lemma UpperTable(c: char)
    ensures c in Uppers <==> IsUpper(c)
  {
  }

  /** Membership in the digit table is exactly `IsDigit`. */
  lemma DigitTable(c: char)
    ensures c in Numbers <==> IsDigit(c)
  {
  }

  /** The accented upper-case letters are not word characters, so a word only ever
      holds ASCII upper-case letters. */
  lemma UpperWordCharsAreAscii(c: char)
    requires IsUpper(c) && IsAsciiWordChar(c)
    ensures 'A' <= c <= 'Z'
  {
  }
}
