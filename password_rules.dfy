/** The password-strength rules of the users service: a length rule and four
    character-class rules, each reported under a fixed name and in a fixed order. */
module PasswordRules {
  import opened Chars

  /** The rules, in the order in which a violation report lists them. */
  datatype Rule = MinLength | Uppercase | Lowercase | Digit | SpecialChar

  /** The shortest password, in UTF-16 code units, that satisfies MinLength. */
  const MinPasswordLength := 8

  /** The characters of the class `[!@#$%^&*(),.?":{}|<>]`. */
  const SpecialChars: string := "!@#$%^&*(),.?\":{}|<>"

  /** The name under which a violated rule is reported. */
  function RuleName(rule: Rule): string {
    match rule
    case MinLength => "minLength"
    case Uppercase => "uppercase"
    case Lowercase => "lowercase"
    case Digit => "digit"
    case SpecialChar => "specialChar"
  }

  /** The character class of the special-character rule; the other three
      classes are `IsUpper`, `IsLower` and `IsDigit`. */
  predicate IsSpecial(c: char) { c in SpecialChars }

  /** Some character of `s` is an upper-case letter (the regular expression `[A-Z]` matches). */
  predicate HasUpper(s: string) { exists k :: 0 <= k < |s| && IsUpper(s[k]) }
  predicate HasLower(s: string) { exists k :: 0 <= k < |s| && IsLower(s[k]) }
  predicate HasDigit(s: string) { exists k :: 0 <= k < |s| && IsDigit(s[k]) }
  predicate HasSpecial(s: string) { exists k :: 0 <= k < |s| && IsSpecial(s[k]) }

  /** Whether `password` breaks `rule`. */
  predicate Violates(rule: Rule, password: string) {
    match rule
    case MinLength => Utf16Length(password) < MinPasswordLength
    case Uppercase => !HasUpper(password)
    case Lowercase => !HasLower(password)
    case Digit => !HasDigit(password)
    case SpecialChar => !HasSpecial(password)
  }

  /** All rules, in report order. */
  const AllRules: seq<Rule> := [MinLength, Uppercase, Lowercase, Digit, SpecialChar]

  /** Position of a rule in report order. */
  function Rank(rule: Rule): nat {
    match rule
    case MinLength => 0
    case Uppercase => 1
    case Lowercase => 2
    case Digit => 3
    case SpecialChar => 4
  }

  /** The rules among `rules` that `password` breaks, keeping their order. */
  function ViolatedAmong(rules: seq<Rule>, password: string): (r: seq<Rule>)
    ensures |r| <= |rules|
  {
    if rules == [] then []
    else (if Violates(rules[0], password) then [rules[0]] else []) + ViolatedAmong(rules[1..], password)
  }

  /** The violation report for `password`. */
  function Violations(password: string): seq<Rule> {
    ViolatedAmong(AllRules, password)
  }

  /** Ranks strictly increase along `rules`. */
  predicate InReportOrder(rules: seq<Rule>) {
    forall i, j :: 0 <= i < j < |rules| ==> Rank(rules[i]) < Rank(rules[j])
  }

  /** The independent statement of a strong password: every rule holds. */
  predicate IsStrong(password: string) {
    Utf16Length(password) >= MinPasswordLength &&
    HasUpper(password) && HasLower(password) && HasDigit(password) && HasSpecial(password)
  }

  /** `ViolatedAmong` keeps exactly the broken rules of its input. */
  lemma {:induction false} ViolatedAmongMembers(rules: seq<Rule>, password: string, rule: Rule)
    ensures rule in ViolatedAmong(rules, password) <==> rule in rules && Violates(rule, password)
  {
    if rules != [] {
      ViolatedAmongMembers(rules[1..], password, rule);
      assert rules == [rules[0]] + rules[1..];
    }
  }

  /** `ViolatedAmong` keeps the order of its input. */
  lemma {:induction false} ViolatedAmongOrdered(rules: seq<Rule>, password: string)
    requires InReportOrder(rules)
    ensures InReportOrder(ViolatedAmong(rules, password))
  {
    if rules != [] {
      var tail := ViolatedAmong(rules[1..], password);
      ViolatedAmongOrdered(rules[1..], password);
      forall rule | rule in tail ensures Rank(rules[0]) < Rank(rule) {
        ViolatedAmongMembers(rules[1..], password, rule);
      }
    }
  }

  /** A rule appears in the report exactly when the password breaks it, and the
      report lists the broken rules in the fixed order. */
  lemma ViolationsSpec(password: string)
    ensures forall rule :: rule in Violations(password) <==> Violates(rule, password)
    ensures InReportOrder(Violations(password))
  {
    forall rule ensures rule in Violations(password) <==> Violates(rule, password) {
      ViolatedAmongMembers(AllRules, password, rule);
    }
    ViolatedAmongOrdered(AllRules, password);
  }

  /** The report is empty exactly for a strong password. */
  lemma NoViolationsIffStrong(password: string)
    ensures Violations(password) == [] <==> IsStrong(password)
  {
    ViolationsSpec(password);
    if Violations(password) != [] {
      assert Violations(password)[0] in Violations(password);
    } else {
      assert !Violates(MinLength, password) && !Violates(Uppercase, password);
      assert !Violates(Lowercase, password) && !Violates(Digit, password);
      assert !Violates(SpecialChar, password);
    }
  }

  lemma ViolatedAmongCons(rules: seq<Rule>, password: string)
    requires rules != []
    ensures ViolatedAmong(rules, password) ==
      (if Violates(rules[0], password) then [rules[0]] else []) + ViolatedAmong(rules[1..], password)
  {
  }

  /** Checking one more rule at the end appends it to the report when it is broken:
      the report can be built by checking the rules one after another. */
  lemma {:induction false} ViolatedAmongSnoc(rules: seq<Rule>, rule: Rule, password: string)
    ensures ViolatedAmong(rules + [rule], password) ==
      ViolatedAmong(rules, password) + (if Violates(rule, password) then [rule] else [])
  {
    if rules == [] {
      assert [rule][1..] == [];
    } else {
      assert (rules + [rule])[1..] == rules[1..] + [rule];
      ViolatedAmongSnoc(rules[1..], rule, password);
    }
  }

  /** No special character is a lower-case letter. */
  lemma LowerIsNotSpecial(c: char)
    requires IsLower(c)
    ensures !IsSpecial(c)
  {
    forall i | 0 <= i < |SpecialChars| ensures SpecialChars[i] != c {
    }
  }

  /** A password made of lower-case letters only breaks the upper-case, digit and
      special-character rules and keeps the lower-case one when it is not empty. */
  lemma OnlyLowerViolations(password: string)
    requires password != []
    requires forall k :: 0 <= k < |password| ==> IsLower(password[k])
    ensures Violations(password) ==
      (if |password| < MinPasswordLength then [MinLength] else []) + [Uppercase, Digit, SpecialChar]
  {
    assert HasLower(password) by { assert IsLower(password[0]); }
    forall k | 0 <= k < |password| ensures !IsSpecial(password[k]) {
      LowerIsNotSpecial(password[k]);
    }
    assert !HasUpper(password) && !HasDigit(password) && !HasSpecial(password);
    BmpLength(password);
    var p := password;
    var r1 := [Uppercase, Lowercase, Digit, SpecialChar];
    var r2 := [Lowercase, Digit, SpecialChar];
    var r3 := [Digit, SpecialChar];
    var r4 := [SpecialChar];
    assert AllRules[1..] == r1 && r1[1..] == r2 && r2[1..] == r3 && r3[1..] == r4 && r4[1..] == [];
    ViolatedAmongCons(r4, p);
    ViolatedAmongCons(r3, p);
    ViolatedAmongCons(r2, p);
    ViolatedAmongCons(r1, p);
    ViolatedAmongCons(AllRules, p);
  }

  /** The weak password from the service's tests: `lowercase` has eight or more
      characters and lower-case letters only, so it breaks the upper-case, digit
      and special-character rules, in that order. */
  lemma LowercaseOnlyExample()
    ensures Violations("lowercase") == [Uppercase, Digit, SpecialChar]
  {
    OnlyLowerViolations("lowercase");
  }

  /** `short`, the weak password of the registration tests, breaks every rule but
      the lower-case one. */
  lemma ShortExample()
    ensures Violations("short") == [MinLength, Uppercase, Digit, SpecialChar]
  {
    OnlyLowerViolations("short");
  }

  /** The password used for registration in the service's tests is strong. */
  lemma StrongExample()
    ensures IsStrong("StrongPass1!")
    ensures Violations("StrongPass1!") == []
  {
    var p := "StrongPass1!";
    assert IsUpper(p[0]) && IsLower(p[1]) && IsDigit(p[10]);
    assert p[11] == SpecialChars[0];
    BmpLength(p);
    NoViolationsIffStrong(p);
  }

  /** Length is counted in UTF-16 code units: two emoji count four, so a password
      of six characters can meet the length rule. */
  lemma SupplementaryCharactersCountTwice()
    ensures |"Aa1!\U{1F600}\U{1F600}"| == 6 && Utf16Length("Aa1!\U{1F600}\U{1F600}") == 8
    ensures Violations("Aa1!\U{1F600}\U{1F600}") == []
  {
    var p := "Aa1!\U{1F600}\U{1F600}";
    assert |p| == 6 && Utf16Length(p) == 8;
    assert IsUpper(p[0]) && IsLower(p[1]) && IsDigit(p[2]);
    assert p[3] == SpecialChars[0];
    NoViolationsIffStrong(p);
  }
}
