/** The form validators (app/src/utils/validators/index.ts): the e-mail
    shape test, the password policy, and the required / range / length
    checks. Numbers are integers here. */
module Validators {
  import opened Wrappers
  import opened Strings

  /** `{ isValid: true }` or `{ isValid: false, message }`. */
  datatype Validation = Valid | Invalid(message: string)

  // ---------------------------------------------------------------------------
  // E-mail

  /** A character `[^\s@]` accepts. */
  predicate Plain(c: char) {
    !IsWhitespace(c) && c != '@'
  }

  predicate AllPlain(t: string) {
    forall k :: 0 <= k < |t| ==> Plain(t[k])
  }

  /** What `/^[^\s@]+@[^\s@]+\.[^\s@]+$/` matches: a non-empty local part,
      `@`, a non-empty name, a dot, a non-empty ending, none of the three
      containing white space or `@`. */
  ghost predicate EmailShape(s: string) {
    exists a: string, b: string, c: string ::
      |a| > 0 && |b| > 0 && |c| > 0 && AllPlain(a) && AllPlain(b) && AllPlain(c)
      && s == a + "@" + b + "." + c
  }

  /** The position of the first `x` in `s`, or `|s|` when there is none. */
  function IndexOf(s: string, x: char): (r: nat)
    ensures r <= |s|
    ensures r < |s| ==> s[r] == x
    ensures forall k :: 0 <= k < r ==> s[k] != x
    decreases |s|
  {
    if |s| == 0 then 0
    else if s[0] == x then 0
    else 1 + IndexOf(s[1..], x)
  }

  /** `isValidEmail`, evaluated left to right: the text before the first
      `@` is the local part; everything after it must be free of white
      space and `@`, and hold a dot with text on both sides. */
  function IsValidEmail(s: string): bool {
    var at := IndexOf(s, '@');
    && 0 < at && at + 3 < |s|
    && AllPlain(s[..at])
    && AllPlain(s[at + 1..])
    && '.' in s[at + 2..|s| - 1]
  }

  /** The computed test accepts exactly the strings the regular expression
      matches. */
  lemma IsValidEmailIff(s: string)
    ensures IsValidEmail(s) <==> EmailShape(s)
  {
    if IsValidEmail(s) {
      EmailFromTest(s);
    }
    if EmailShape(s) {
      var a: string, b: string, c: string :| |a| > 0 && |b| > 0 && |c| > 0
        && AllPlain(a) && AllPlain(b) && AllPlain(c) && s == a + "@" + b + "." + c;
      TestFromEmail(s, a, b, c);
    }
  }

  lemma EmailFromTest(s: string)
    requires IsValidEmail(s)
    ensures EmailShape(s)
  {
    var at := IndexOf(s, '@');
    var mid := s[at + 2..|s| - 1];
    var k :| 0 <= k < |mid| && mid[k] == '.';
    var j := at + 2 + k;
    var a, b, c := s[..at], s[at + 1..j], s[j + 1..];
    assert s[at + 1..] == b + "." + c by {
      assert s[at + 1..] == s[at + 1..j] + [s[j]] + s[j + 1..];
    }
    assert AllPlain(b) by {
      forall i | 0 <= i < |b| ensures Plain(b[i]) { assert b[i] == s[at + 1..][i]; }
    }
    assert AllPlain(c) by {
      forall i | 0 <= i < |c| ensures Plain(c[i]) { assert c[i] == s[at + 1..][i + |b| + 1]; }
    }
    assert s == a + "@" + b + "." + c by {
      assert s == s[..at] + [s[at]] + s[at + 1..];
    }
  }

  lemma TestFromEmail(s: string, a: string, b: string, c: string)
    requires |a| > 0 && |b| > 0 && |c| > 0 && AllPlain(a) && AllPlain(b) && AllPlain(c)
    requires s == a + "@" + b + "." + c
    ensures IsValidEmail(s)
  {
    var at := |a|;
    assert s[at] == '@';
    assert forall k :: 0 <= k < at ==> s[k] == a[k];
    assert IndexOf(s, '@') == at;
    assert s[..at] == a;
    var rest := s[at + 1..];
    assert rest == b + "." + c;
    assert AllPlain(rest) by {
      forall i | 0 <= i < |rest| ensures Plain(rest[i]) {
        if i < |b| { assert rest[i] == b[i]; }
        else if i == |b| { assert rest[i] == '.'; }
        else { assert rest[i] == c[i - |b| - 1]; }
      }
    }
    var j := at + 1 + |b|;
    assert s[j] == '.';
    assert s[at + 2..|s| - 1][j - (at + 2)] == '.';
  }

  // ---------------------------------------------------------------------------
  // Password

  /** The options object; every property may be left out. */
  datatype PasswordOptions = PasswordOptions(
    minLength: Option<int>,
    requireUppercase: Option<bool>,
    requireLowercase: Option<bool>,
    requireNumbers: Option<bool>,
    requireSpecialChars: Option<bool>)

  /** The options after destructuring with defaults. */
  datatype PasswordPolicy = PasswordPolicy(
    minLength: int,
    requireUppercase: bool,
    requireLowercase: bool,
    requireNumbers: bool,
    requireSpecialChars: bool)

  const NoOptions: PasswordOptions := PasswordOptions(None, None, None, None, None)

  /** Length 8 and every character class, unless the options say otherwise. */
  function Resolve(o: PasswordOptions): (p: PasswordPolicy)
    ensures o == NoOptions ==> p == PasswordPolicy(8, true, true, true, true)
    ensures o.minLength.Some? ==> p.minLength == o.minLength.value
    ensures o.requireUppercase.Some? ==> p.requireUppercase == o.requireUppercase.value
    ensures o.requireLowercase.Some? ==> p.requireLowercase == o.requireLowercase.value
    ensures o.requireNumbers.Some? ==> p.requireNumbers == o.requireNumbers.value
    ensures o.requireSpecialChars.Some? ==> p.requireSpecialChars == o.requireSpecialChars.value
    ensures o.minLength.None? ==> p.minLength == 8
    ensures o.requireUppercase.None? ==> p.requireUppercase
    ensures o.requireLowercase.None? ==> p.requireLowercase
    ensures o.requireNumbers.None? ==> p.requireNumbers
    ensures o.requireSpecialChars.None? ==> p.requireSpecialChars
  {
    PasswordPolicy(o.minLength.GetOr(8), o.requireUppercase.GetOr(true), o.requireLowercase.GetOr(true),
      o.requireNumbers.GetOr(true), o.requireSpecialChars.GetOr(true))
  }

  /** The characters of `[!@#$%^&*(),.?":{}|<>]`. */
  const SpecialChars: string := "!@#$%^&*(),.?\":{}|<>"

  predicate HasUpper(s: string) { exists k :: 0 <= k < |s| && IsAsciiUpper(s[k]) }
  predicate HasLower(s: string) { exists k :: 0 <= k < |s| && IsAsciiLower(s[k]) }
  predicate HasDigit(s: string) { exists k :: 0 <= k < |s| && IsDigit(s[k]) }
  predicate HasSpecial(s: string) { exists k :: 0 <= k < |s| && s[k] in SpecialChars }

  const PasswordRequired: string := "Password is required"
  const NeedsUpper: string := "Password must contain at least one uppercase letter"
  const NeedsLower: string := "Password must contain at least one lowercase letter"
  const NeedsNumber: string := "Password must contain at least one number"
  const NeedsSpecial: string := "Password must contain at least one special character"

  function TooShort(minLength: int): string {
    "Password must be at least " + IntToString(minLength) + " characters long"
  }

  /** `validatePassword(password, options)`. */
  function ValidatePassword(password: string, o: PasswordOptions): (r: Validation)
    ensures r.Valid? <==> Acceptable(password, Resolve(o))
    ensures password == "" ==> r == Invalid(PasswordRequired)
  {
    var p := Resolve(o);
    if password == "" then Invalid(PasswordRequired)
    else if Utf16Length(password) < p.minLength then Invalid(TooShort(p.minLength))
    else if p.requireUppercase && !HasUpper(password) then Invalid(NeedsUpper)
    else if p.requireLowercase && !HasLower(password) then Invalid(NeedsLower)
    else if p.requireNumbers && !HasDigit(password) then Invalid(NeedsNumber)
    else if p.requireSpecialChars && !HasSpecial(password) then Invalid(NeedsSpecial)
    else Valid
  }

  /** The policy as one condition: non-empty, long enough in UTF-16 code
      units, and every required character class present. */
  predicate Acceptable(password: string, p: PasswordPolicy) {
    && |password| > 0
    && Utf16Length(password) >= p.minLength
    && (p.requireUppercase ==> HasUpper(password))
    && (p.requireLowercase ==> HasLower(password))
    && (p.requireNumbers ==> HasDigit(password))
    && (p.requireSpecialChars ==> HasSpecial(password))
  }

  /** The checks in the order they run, each with whether it passes and the
      message it reports when it does not. */
  function PasswordChecks(password: string, p: PasswordPolicy): seq<(bool, string)> {
    [(password != "", PasswordRequired),
     (Utf16Length(password) >= p.minLength, TooShort(p.minLength)),
     (!p.requireUppercase || HasUpper(password), NeedsUpper),
     (!p.requireLowercase || HasLower(password), NeedsLower),
     (!p.requireNumbers || HasDigit(password), NeedsNumber),
     (!p.requireSpecialChars || HasSpecial(password), NeedsSpecial)]
  }

  /** The message of the first failing check, if any. */
  function FirstFailure(checks: seq<(bool, string)>): (r: Option<string>)
    ensures r.None? <==> forall i :: 0 <= i < |checks| ==> checks[i].0
    ensures r.Some? ==>
      exists i :: 0 <= i < |checks| && !checks[i].0 && checks[i].1 == r.value && (forall j :: 0 <= j < i ==> checks[j].0)
    decreases |checks|
  {
    if |checks| == 0 then None
    else if !checks[0].0 then Some(checks[0].1)
    else
      var r := FirstFailure(checks[1..]);
      assert forall i :: 1 <= i < |checks| ==> checks[i] == checks[1..][i - 1];
      if r.Some? then
        var i :| 0 <= i < |checks[1..]| && !checks[1..][i].0 && checks[1..][i].1 == r.value
          && (forall j :: 0 <= j < i ==> checks[1..][j].0);
        assert forall j :: 0 <= j < i + 1 ==> checks[j].0 by {
          forall j | 0 <= j < i + 1 ensures checks[j].0 {
            if j > 0 { assert checks[j] == checks[1..][j - 1]; }
          }
        }
        r
      else r
  }

  /** The password check reports the first failing check of the fixed
      order length, uppercase, lowercase, digit, special character. */
  lemma ValidatePasswordFirstFailure(password: string, o: PasswordOptions)
    ensures var f := FirstFailure(PasswordChecks(password, Resolve(o)));
      ValidatePassword(password, o) == if f.None? then Valid else Invalid(f.value)
  {
    var cs := PasswordChecks(password, Resolve(o));
    var f := FirstFailure(cs);
    if f.Some? {
      var i :| 0 <= i < |cs| && !cs[i].0 && cs[i].1 == f.value && (forall j :: 0 <= j < i ==> cs[j].0);
      var p := Resolve(o);
      assert i > 0 ==> cs[0].0;
      assert i > 0 ==> password != "";
      assert i > 1 ==> cs[1].0;
      assert i > 1 ==> Utf16Length(password) >= p.minLength;
      assert i > 2 ==> cs[2].0;
      assert i > 2 ==> !p.requireUppercase || HasUpper(password);
      assert i > 3 ==> cs[3].0;
      assert i > 3 ==> !p.requireLowercase || HasLower(password);
      assert i > 4 ==> cs[4].0;
      assert i > 4 ==> !p.requireNumbers || HasDigit(password);
      assert |cs| == 6;
      if i == 0 {
        assert password == "" && f.value == PasswordRequired;
        assert ValidatePassword(password, o) == Invalid(f.value);
      } else if i == 1 {
        assert f.value == TooShort(p.minLength);
        assert ValidatePassword(password, o) == Invalid(TooShort(p.minLength));
      } else if i == 2 {
        assert f.value == NeedsUpper;
        assert ValidatePassword(password, o) == Invalid(NeedsUpper);
      } else if i == 3 {
        assert f.value == NeedsLower;
        assert ValidatePassword(password, o) == Invalid(NeedsLower);
      } else if i == 4 {
        assert f.value == NeedsNumber;
        assert ValidatePassword(password, o) == Invalid(NeedsNumber);
      } else {
        assert f.value == NeedsSpecial;
        assert ValidatePassword(password, o) == Invalid(NeedsSpecial);
      }
    } else {
      assert cs[0].0 && cs[1].0 && cs[2].0 && cs[3].0 && cs[4].0 && cs[5].0;
    }
  }

  /** Relaxing the policy (a shorter minimum, fewer required classes) never
      rejects a password the stricter policy accepted. */
  lemma RelaxingKeepsValid(password: string, strict: PasswordOptions, relaxed: PasswordOptions)
    requires Resolve(relaxed).minLength <= Resolve(strict).minLength
    requires Resolve(relaxed).requireUppercase ==> Resolve(strict).requireUppercase
    requires Resolve(relaxed).requireLowercase ==> Resolve(strict).requireLowercase
    requires Resolve(relaxed).requireNumbers ==> Resolve(strict).requireNumbers
    requires Resolve(relaxed).requireSpecialChars ==> Resolve(strict).requireSpecialChars
    ensures ValidatePassword(password, strict).Valid? ==> ValidatePassword(password, relaxed).Valid?
  {
  }

  // ---------------------------------------------------------------------------
  // Required, range, length

  /** `string | number | boolean | null | undefined`. */
  datatype FieldValue = Null | Undefined | Str(s: string) | Num(n: int) | Bool(b: bool)

  /** `validateRequired(value, fieldName = 'Field')`. */
  function ValidateRequired(value: FieldValue, fieldName: Option<string>): (r: Validation)
    ensures r.Valid? <==> !(value.Null? || value.Undefined? || (value.Str? && AllWhitespace(value.s)))
    ensures (value.Null? || value.Undefined? || value == Str("")) ==>
      r == Invalid(fieldName.GetOr("Field") + " is required")
    ensures value.Str? && value.s != "" && AllWhitespace(value.s) ==>
      r == Invalid(fieldName.GetOr("Field") + " cannot be empty")
  {
    var name := fieldName.GetOr("Field");
    if value.Null? || value.Undefined? || value == Str("") then Invalid(name + " is required")
    else if value.Str? && Trim(value.s) == "" then Invalid(name + " cannot be empty")
    else Valid
  }

  /** Numbers and booleans always pass, zero and false included. */
  lemma RequiredAcceptsNumbersAndBooleans(n: int, b: bool, fieldName: Option<string>)
    ensures ValidateRequired(Num(n), fieldName) == Valid
    ensures ValidateRequired(Bool(b), fieldName) == Valid
  {
  }

  /** `validateNumberRange(value, min, max, fieldName = 'Value')` on integers. */
  function ValidateNumberRange(value: int, min: int, max: int, fieldName: Option<string>): (r: Validation)
    ensures r.Valid? <==> min <= value <= max
    ensures r.Invalid? ==>
      r.message == fieldName.GetOr("Value") + " must be between " + IntToString(min) + " and " + IntToString(max)
  {
    if value < min || value > max then
      Invalid(fieldName.GetOr("Value") + " must be between " + IntToString(min) + " and " + IntToString(max))
    else Valid
  }

  /** `validateStringLength(value, minLength, maxLength, fieldName = 'Field')`:
      the length counted is that of the trimmed text in UTF-16 code units,
      and too short is reported before too long. */
  function ValidateStringLength(value: string, minLength: int, maxLength: int, fieldName: Option<string>)
    : (r: Validation)
    ensures r.Valid? <==> minLength <= Utf16Length(Trim(value)) <= maxLength
    ensures Utf16Length(Trim(value)) < minLength ==>
      r == Invalid(fieldName.GetOr("Field") + " must be at least " + IntToString(minLength) + " characters long")
    ensures minLength <= Utf16Length(Trim(value)) && Utf16Length(Trim(value)) > maxLength ==>
      r == Invalid(fieldName.GetOr("Field") + " cannot exceed " + IntToString(maxLength) + " characters")
  {
    var name := fieldName.GetOr("Field");
    var length := Utf16Length(Trim(value));
    if length < minLength then Invalid(name + " must be at least " + IntToString(minLength) + " characters long")
    else if length > maxLength then Invalid(name + " cannot exceed " + IntToString(maxLength) + " characters")
    else Valid
  }

  /** Length is counted as JavaScript counts it: six characters, two of
      them above U+FFFF, make eight code units and meet the default minimum
      of eight. */
  lemma PasswordLengthInCodeUnits()
    ensures Utf16Length("Aa1!\U{1F600}\U{1F600}") == 8
    ensures ValidatePassword("Aa1!\U{1F600}\U{1F600}", NoOptions) == Valid
  {
    var pw := "Aa1!\U{1F600}\U{1F600}";
    assert Utf16Length(pw[4..]) == 4;
    assert IsAsciiUpper(pw[0]) && IsAsciiLower(pw[1]) && IsDigit(pw[2]);
    assert pw[3] == SpecialChars[0];
  }

  /** Surrounding white space never changes the verdict. */
  lemma StringLengthIgnoresPadding(value: string, pad: string, minLength: int, maxLength: int)
    requires AllWhitespace(pad)
    ensures ValidateStringLength(pad + value + pad, minLength, maxLength, None).Valid?
        <==> ValidateStringLength(value, minLength, maxLength, None).Valid?
  {
    TrimPadded(value, pad);
  }

  lemma TrimPadded(value: string, pad: string)
    requires AllWhitespace(pad)
    ensures Trim(pad + value + pad) == Trim(value)
  {
    var a, b := TrimSplit(value);
    var t := Trim(value);
    Regroup(pad, a, t, b);
    AllWhitespaceAppend(pad, a);
    AllWhitespaceAppend(b, pad);
    TrimExact(pad + a, t, b + pad);
  }

  lemma Regroup(pad: string, a: string, t: string, b: string)
    ensures pad + (a + t + b) + pad == (pad + a) + t + (b + pad)
  {
  }
}
