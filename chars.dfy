/** Character classes and string length as the JavaScript code of the users
    service sees them.

    A Dafny `char` is a Unicode scalar value, while a JavaScript string is a
    sequence of UTF-16 code units: a character above U+FFFF is one `char` here
    and two code units (a surrogate pair) there, so `.length` is `Utf16Length`,
    not `|s|`. */
module Chars {

  /** The regular-expression classes `[A-Z]`, `[a-z]` and `[0-9]`. */
  predicate IsUpper(c: char) { 'A' <= c <= 'Z' }
  predicate IsLower(c: char) { 'a' <= c <= 'z' }
  predicate IsDigit(c: char) { '0' <= c <= '9' }

  /** Whether `c` takes a single UTF-16 code unit (it lies in the Basic Multilingual Plane). */
  predicate InBmp(c: char) { c as int < 0x1_0000 }

  /** JavaScript `s.length`: one code unit per character in the Basic
      Multilingual Plane, two (a surrogate pair) per character above it. */
  function Utf16Length(s: string): (n: nat)
    ensures |s| <= n <= 2 * |s|
  {
    if s == [] then 0 else (if InBmp(s[0]) then 1 else 2) + Utf16Length(s[1..])
  }

  /** A string of Basic Multilingual Plane characters has as many code units as characters. */
  lemma {:induction false} BmpLength(s: string)
    requires forall k :: 0 <= k < |s| ==> InBmp(s[k])
    ensures Utf16Length(s) == |s|
  {
    if s != [] {
      BmpLength(s[1..]);
    }
  }

}
