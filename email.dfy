/** Email normalisation of the users service: `String(email).trim().toLowerCase()`.
    `trim` removes ECMAScript white space and line terminators from both ends;
    `toLowerCase` is modelled on the ASCII letters A-Z. */
module EmailNormalization {
  import opened Chars

  /** ECMAScript WhiteSpace and LineTerminator code points, the ones `trim` removes. */
  predicate IsTrimmable(c: char) {
    var n := c as int;
    if n <= 0x20 then n == 0x20 || 0x09 <= n <= 0x0D
    else if n < 0x2000 then n == 0xA0 || n == 0x1680
    else if n <= 0x3000 then
      n <= 0x200A || n == 0x2028 || n == 0x2029 || n == 0x202F || n == 0x205F || n == 0x3000
    else n == 0xFEFF
  }

  /** `s` with its leading trimmable characters removed. */
  function TrimStart(s: string): (r: string)
    ensures |r| <= |s|
  {
    if |s| > 0 && IsTrimmable(s[0]) then TrimStart(s[1..]) else s
  }

  /** `s` with its trailing trimmable characters removed. */
  function TrimEnd(s: string): (r: string)
    ensures |r| <= |s|
  {
    if |s| > 0 && IsTrimmable(s[|s| - 1]) then TrimEnd(s[..|s| - 1]) else s
  }

  /** JavaScript `String.prototype.trim`. */
  function Trim(s: string): (r: string)
    ensures |r| <= |s|
  {
    TrimEnd(TrimStart(s))
  }

  function LowerChar(c: char): (d: char)
    ensures !IsUpper(d)
    ensures !IsUpper(c) ==> d == c
  {
    if IsUpper(c) then (c as int + 32) as char else c
  }

  /** `toLowerCase` on ASCII letters: same length, every upper-case letter lowered,
      every other character kept. */
  function ToLowerCase(s: string): (r: string)
    ensures |r| == |s|
  {
    seq(|s|, k requires 0 <= k < |s| => LowerChar(s[k]))
  }

  /** The normalised form under which users are stored and looked up. */
  function NormalizeEmail(email: string): (r: string)
    ensures |r| <= |email|
  {
    ToLowerCase(Trim(email))
  }

  /** `s[i..j]` is what remains of `s` after dropping trimmable characters only. */
  predicate TrimmedSlice(s: string, i: int, j: int) {
    0 <= i <= j <= |s| &&
    (forall k :: 0 <= k < i ==> IsTrimmable(s[k])) &&
    (forall k :: j <= k < |s| ==> IsTrimmable(s[k]))
  }

  /** A string is trimmed when neither end is a trimmable character. */
  predicate IsTrimmed(s: string) {
    s != [] ==> !IsTrimmable(s[0]) && !IsTrimmable(s[|s| - 1])
  }

  /** A string is in normal form when it is trimmed and has no upper-case ASCII letter. */
  predicate IsNormalEmail(s: string) {
    IsTrimmed(s) && forall k :: 0 <= k < |s| ==> !IsUpper(s[k])
  }

  lemma TrimStartUnfold(s: string)
    requires |s| > 0
    ensures TrimStart(s) == if IsTrimmable(s[0]) then TrimStart(s[1..]) else s
  {
  }

  lemma TrimEndUnfold(s: string)
    requires |s| > 0
    ensures TrimEnd(s) == if IsTrimmable(s[|s| - 1]) then TrimEnd(s[..|s| - 1]) else s
  {
  }

  /** `TrimStart` drops a prefix made only of trimmable characters, and what it
      keeps does not start with one. */
  lemma {:induction false} TrimStartSpec(s: string)
    ensures TrimStart(s) == s[|s| - |TrimStart(s)|..]
    ensures TrimmedSlice(s, |s| - |TrimStart(s)|, |s|)
    ensures TrimStart(s) != [] ==> !IsTrimmable(TrimStart(s)[0])
    decreases |s|
  {
    if |s| > 0 {
      TrimStartUnfold(s);
      if IsTrimmable(s[0]) {
        TrimStartSpec(s[1..]);
        var r := TrimStart(s);
        assert r == s[1..][|s| - 1 - |r|..];
      }
    }
  }

  /** `TrimEnd` drops a suffix made only of trimmable characters, and what it
      keeps does not end with one. */
  lemma {:induction false} TrimEndSpec(s: string)
    ensures TrimEnd(s) == s[..|TrimEnd(s)|]
    ensures TrimmedSlice(s, 0, |TrimEnd(s)|)
    ensures TrimEnd(s) != [] ==> !IsTrimmable(TrimEnd(s)[|TrimEnd(s)| - 1])
    decreases |s|
  {
    if |s| > 0 {
      TrimEndUnfold(s);
      if IsTrimmable(s[|s| - 1]) {
        TrimEndSpec(s[..|s| - 1]);
      }
    }
  }

  /** What `trim` keeps is a contiguous part of its input, everything it drops is
      trimmable, and the result is trimmed. */
  lemma TrimSpec(s: string)
    ensures exists i, j :: TrimmedSlice(s, i, j) && Trim(s) == s[i..j]
    ensures IsTrimmed(Trim(s))
  {
    var t := TrimStart(s);
    var r := TrimEnd(t);
    TrimStartSpec(s);
    TrimEndSpec(t);
    assert r == s[|s| - |t|..|s| - |t| + |r|];
    assert TrimmedSlice(s, |s| - |t|, |s| - |t| + |r|);
  }

  /** Trimming a trimmed string changes nothing. */
  lemma TrimOfTrimmed(s: string)
    requires IsTrimmed(s)
    ensures Trim(s) == s
  {
  }

  /** Lowering never turns a trimmable character into a non-trimmable one, or back. */
  lemma TrimmableLowerChar(c: char)
    ensures IsTrimmable(LowerChar(c)) == IsTrimmable(c)
  {
  }

  /** What `NormalizeEmail` returns is in normal form. */
  lemma NormalizeEmailSpec(email: string)
    ensures IsNormalEmail(NormalizeEmail(email))
  {
    var t := Trim(email);
    TrimSpec(email);
    if t != [] {
      TrimmableLowerChar(t[0]);
      TrimmableLowerChar(t[|t| - 1]);
    }
  }

  /** A string in normal form is its own normalisation. */
  lemma NormalFormIsFixed(s: string)
    requires IsNormalEmail(s)
    ensures NormalizeEmail(s) == s
  {
    TrimOfTrimmed(s);
    assert ToLowerCase(s) == s;
  }

  /** Normalising an already normalised address changes nothing, so a stored
      address is found again by the normalised form of any of its spellings. */
  lemma NormalizeEmailIdempotent(email: string)
    ensures NormalizeEmail(NormalizeEmail(email)) == NormalizeEmail(email)
  {
    NormalizeEmailSpec(email);
    NormalFormIsFixed(NormalizeEmail(email));
  }

  /** Lowering commutes with taking a slice. */
  lemma ToLowerCaseSlice(s: string, i: nat, j: nat)
    requires i <= j <= |s|
    ensures ToLowerCase(s)[i..j] == ToLowerCase(s[i..j])
  {
  }

  lemma {:induction false} TrimStartCommutesWithLower(s: string)
    ensures TrimStart(ToLowerCase(s)) == ToLowerCase(TrimStart(s))
    decreases |s|
  {
    if |s| > 0 {
      var l := ToLowerCase(s);
      TrimmableLowerChar(s[0]);
      assert l[0] == LowerChar(s[0]);
      TrimStartUnfold(s);
      TrimStartUnfold(l);
      if IsTrimmable(s[0]) {
        ToLowerCaseSlice(s, 1, |s|);
        assert s[1..|s|] == s[1..] && l[1..|s|] == l[1..];
        TrimStartCommutesWithLower(s[1..]);
      }
    }
  }

  lemma {:induction false} TrimEndCommutesWithLower(s: string)
    ensures TrimEnd(ToLowerCase(s)) == ToLowerCase(TrimEnd(s))
    decreases |s|
  {
    if |s| > 0 {
      var l := ToLowerCase(s);
      var n := |s| - 1;
      TrimmableLowerChar(s[n]);
      assert l[n] == LowerChar(s[n]);
      TrimEndUnfold(s);
      TrimEndUnfold(l);
      if IsTrimmable(s[n]) {
        ToLowerCaseSlice(s, 0, n);
        TrimEndCommutesWithLower(s[..n]);
      }
    }
  }

  /** Lowering twice is lowering once. */
  lemma ToLowerCaseIdempotent(s: string)
    ensures ToLowerCase(ToLowerCase(s)) == ToLowerCase(s)
  {
    var r := ToLowerCase(s);
    assert forall k :: 0 <= k < |r| ==> ToLowerCase(r)[k] == r[k];
  }

  /** Two spellings of an address that differ only in the case of ASCII letters
      normalise to the same string. */
  lemma NormalizeIgnoresCase(email: string)
    ensures NormalizeEmail(ToLowerCase(email)) == NormalizeEmail(email)
  {
    TrimStartCommutesWithLower(email);
    TrimEndCommutesWithLower(TrimStart(email));
    ToLowerCaseIdempotent(Trim(email));
  }

  /** Lowering works character by character, so it distributes over concatenation. */
  lemma ToLowerCaseAppend(a: string, b: string)
    ensures ToLowerCase(a + b) == ToLowerCase(a) + ToLowerCase(b)
  {
  }

  lemma LowerCaseOfUser()
    ensures ToLowerCase("USER") == "user"
  {
    assert LowerChar('U') == 'u' && LowerChar('S') == 's';
    assert LowerChar('E') == 'e' && LowerChar('R') == 'r';
  }

  /** The case from the users service's tests: a login with `USER@example.com`
      looks up the address stored as `user@example.com`. */
  lemma MixedCaseLoginAddress()
    ensures NormalizeEmail("USER@example.com") == "user@example.com"
  {
    var s := "USER@example.com";
    TrimOfTrimmed(s);
    assert s == "USER" + "@example.com";
    ToLowerCaseAppend("USER", "@example.com");
    LowerCaseOfUser();
    assert ToLowerCase("@example.com") == "@example.com";
  }
}
