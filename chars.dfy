/**
 * Character classes and case mapping.
 *
 * The original relies on the JavaScript engine's Unicode tables (`\p{L}`,
 * `toUpperCase`, `toLowerCase` and the case folding of the `i` regex flag).
 * This module stands in for them with tables that cover ASCII and the
 * Latin-1 letters. The laws proved here (idempotence, and each mapping
 * undoing the other up to case) hold for these tables but not for full
 * Unicode, where for example `ı`, `ſ`, `µ` and the Kelvin sign map to a
 * character whose opposite case is a different character, and where the
 * `i` flag folds more characters together than lower-casing does.
 */
module Chars {

  predicate IsAsciiUpper(c: char) { 'A' <= c <= 'Z' }

  predicate IsAsciiLower(c: char) { 'a' <= c <= 'z' }

  /** Latin-1 upper-case letters that have a one-character lower-case partner. */
  predicate IsLatinUpper(c: char) { 'À' <= c <= 'Þ' && c != '×' }

  predicate IsLatinLower(c: char) { 'à' <= c <= 'þ' && c != '÷' }

  /** Stand-in for the Unicode property `\p{L}`. */
  predicate IsLetter(c: char)
  {
    || IsAsciiUpper(c) || IsAsciiLower(c)
    || IsLatinUpper(c) || IsLatinLower(c)
    || c == 'ª' || c == 'µ' || c == 'º' || c == 'ß' || c == 'ÿ'
  }

  /** Stand-in for `toUpperCase` on one code point. */
  function UpperChar(c: char): char
  {
    if IsAsciiLower(c) || IsLatinLower(c) then (c as int - 32) as char else c
  }

  /** Stand-in for `toLowerCase` on one code point. */
  function LowerChar(c: char): char
  {
    if IsAsciiUpper(c) || IsLatinUpper(c) then (c as int + 32) as char else c
  }

  /** Case folding used by a regular expression with the `i` and `u` flags. */
  function Fold(c: char): char { LowerChar(c) }

  /** Both mappings are idempotent, each undoes the other on a letter of its partner's case, and neither changes letter-ness. */
  lemma CaseLaws(c: char)
    ensures IsLetter(UpperChar(c)) == IsLetter(c) && IsLetter(LowerChar(c)) == IsLetter(c)
    ensures UpperChar(UpperChar(c)) == UpperChar(c)
    ensures LowerChar(LowerChar(c)) == LowerChar(c)
    ensures LowerChar(UpperChar(c)) == LowerChar(c)
    ensures UpperChar(LowerChar(c)) == UpperChar(c)
  {
  }

  /** `s.toUpperCase()` */
  function Upper(s: string): (r: string)
    ensures |r| == |s|
  {
    if s == [] then [] else [UpperChar(s[0])] + Upper(s[1..])
  }

  /** `s.toLowerCase()` */
  function Lower(s: string): (r: string)
    ensures |r| == |s|
  {
    if s == [] then [] else [LowerChar(s[0])] + Lower(s[1..])
  }

  /** Both string mappings work character by character. */
  lemma {:induction false} CaseAt(s: string, i: nat)
    requires i < |s|
    ensures Upper(s)[i] == UpperChar(s[i]) && Lower(s)[i] == LowerChar(s[i])
  {
    if i > 0 { CaseAt(s[1..], i - 1); }
  }

  lemma {:induction false} UpperIdempotent(s: string)
    ensures Upper(Upper(s)) == Upper(s)
  {
    if s != [] {
      UpperIdempotent(s[1..]);
      CaseLaws(s[0]);
    }
  }

  lemma {:induction false} LowerIdempotent(s: string)
    ensures Lower(Lower(s)) == Lower(s)
  {
    if s != [] {
      LowerIdempotent(s[1..]);
      CaseLaws(s[0]);
    }
  }

  lemma {:induction false} LowerOfUpper(s: string)
    ensures Lower(Upper(s)) == Lower(s)
  {
    if s != [] {
      LowerOfUpper(s[1..]);
      CaseLaws(s[0]);
    }
  }

  /** No character changes under `toUpperCase`. */
  predicate IsUpperCase(s: string)
  {
    s == [] || (UpperChar(s[0]) == s[0] && IsUpperCase(s[1..]))
  }

  /** No character changes under `toLowerCase`. */
  predicate IsLowerCase(s: string)
  {
    s == [] || (LowerChar(s[0]) == s[0] && IsLowerCase(s[1..]))
  }

  /** `s === s.toUpperCase()` and `s === s.toLowerCase()`, character by character. */
  lemma {:induction false} CaseTestsMeaning(s: string)
    ensures IsUpperCase(s) <==> s == Upper(s)
    ensures IsLowerCase(s) <==> s == Lower(s)
  {
    if s != [] {
      CaseTestsMeaning(s[1..]);
      assert Upper(s) == [UpperChar(s[0])] + Upper(s[1..]);
      assert Lower(s) == [LowerChar(s[0])] + Lower(s[1..]);
      if s == Upper(s) {
        assert Upper(s)[0] == s[0] && Upper(s)[1..] == s[1..];
      }
      if s == Lower(s) {
        assert Lower(s)[0] == s[0] && Lower(s)[1..] == s[1..];
      }
      if IsUpperCase(s) {
        assert s == [s[0]] + s[1..];
      }
      if IsLowerCase(s) {
        assert s == [s[0]] + s[1..];
      }
    }
  }

  /** Equal ignoring case, character by character. */
  predicate SameUpToCase(a: string, b: string)
  {
    if a == [] || b == [] then a == b
    else Fold(a[0]) == Fold(b[0]) && SameUpToCase(a[1..], b[1..])
  }

  /** Equality up to case is equality of the lower-cased strings. */
  lemma {:induction false} SameUpToCaseIsLowerEqual(a: string, b: string)
    ensures SameUpToCase(a, b) <==> Lower(a) == Lower(b)
  {
    if a != [] && b != [] {
      SameUpToCaseIsLowerEqual(a[1..], b[1..]);
      assert Lower(a) == [LowerChar(a[0])] + Lower(a[1..]);
      assert Lower(b) == [LowerChar(b[0])] + Lower(b[1..]);
      if Lower(a) == Lower(b) {
        assert Lower(a)[0] == Lower(b)[0];
        assert Lower(a)[1..] == Lower(b)[1..];
      }
    } else if a != [] || b != [] {
      assert |Lower(a)| != |Lower(b)|;
    }
  }
}
