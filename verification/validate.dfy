/**
 * The registration form's validator: four string fields, each checked by a
 * "required" rule and then by a format or range rule, giving at most one
 * message per field.
 */
module Validation {
  import opened JsStrings

  datatype Field = Name | Email | Phone | Age

  const AllFields: set<Field> := {Name, Email, Phone, Age}

  /** The four input values, as the strings the inputs hold. */
  datatype FormValues = FormValues(name: string, email: string, phone: string, age: string)
  {
    function Get(f: Field): string {
      match f
      case Name => name
      case Email => email
      case Phone => phone
      case Age => age
    }

    /** `{ ...values, [f]: v }` */
    function With(f: Field, v: string): (r: FormValues)
      ensures r.Get(f) == v
      ensures forall g | g != f :: r.Get(g) == Get(g)
    {
      match f
      case Name => this.(name := v)
      case Email => this.(email := v)
      case Phone => this.(phone := v)
      case Age => this.(age := v)
    }
  }

  const EmptyValues := FormValues("", "", "", "")

  /** The message a field gets when it is left blank. */
  function RequiredMessage(f: Field): string {
    match f
    case Name => "Full name is required."
    case Email => "Email address is required."
    case Phone => "Phone number is required."
    case Age => "Age is required."
  }

  /** The message a field gets when it is filled in but fails its format or range rule. */
  function InvalidMessage(f: Field): string {
    match f
    case Name => "Name must be at least 2 characters."
    case Email => "Please enter a valid email."
    case Phone => "Please enter a valid phone number."
    case Age => "Age must be between 1 and 120."
  }

  /**
   * Blank as the "required" rule sees it: the age only when empty, since it
   * is not trimmed; the other three when trimming leaves nothing, that is,
   * when they are all whitespace (`TrimSpec`).
   */
  predicate IsBlank(f: Field, s: string) {
    if f == Age then s == [] else AllWhitespace(s)
  }

  // ---------------------------------------------------------------- name

  function NameError(s: string): Option<string>
  {
    if AllWhitespace(s) then Some(RequiredMessage(Name))
    else if Utf16Length(Trim(s)) < 2 then Some(InvalidMessage(Name))
    else None
  }

  /**
   * The name rule: blank after trimming is "required"; a trimmed name whose
   * `length` (in UTF-16 code units) is 1, that is, one character of the
   * Basic Multilingual Plane, is too short.
   */
  lemma NameRule(s: string)
    ensures NameError(s) == None <==> Utf16Length(Trim(s)) >= 2
    ensures NameError(s) == Some(RequiredMessage(Name)) <==> Trim(s) == []
    ensures NameError(s) == Some(InvalidMessage(Name)) <==> Utf16Length(Trim(s)) == 1
    ensures NameError(s) == Some(InvalidMessage(Name)) <==> |Trim(s)| == 1 && Trim(s)[0] < '\U{10000}'
  {
    TrimSpec(s);
    Utf16LengthBounds(Trim(s));
  }

  /** A single character outside the Basic Multilingual Plane has `length` 2, so it is a long enough name. */
  lemma AstralNameAccepted()
    ensures NameError("\U{20BB7}") == None
  {
    NameRule("\U{20BB7}");
  }

  // ---------------------------------------------------------------- email

  /** `[^\s@]` */
  predicate IsEmailChar(c: char) {
    !IsWhitespace(c) && c != '@'
  }

  /**
   * The reading of `^[^\s@]+@[^\s@]+\.[^\s@]+$`: an `@` at `i` and a `.` at
   * `j`, with at least one character before the `@`, between the two and
   * after the `.`, and every character but the `@` drawn from `[^\s@]`.
   */
  ghost predicate MatchesEmailPattern(s: string) {
    exists i, j | 0 < i && i + 1 < j && j + 1 < |s| ::
      s[i] == '@' && s[j] == '.' &&
      forall k | 0 <= k < |s| && k != i :: IsEmailChar(s[k])
  }

  /** A `.` in `d` that is neither its first nor its last character. */
  predicate HasInnerDot(d: string) {
    |d| >= 3 && '.' in d[1..|d| - 1]
  }

  /**
   * The email check written out: no whitespace anywhere, a non-empty local
   * part before the first `@`, no further `@`, and a domain holding an inner `.`.
   */
  predicate IsValidEmail(s: string) {
    NoWhitespace(s) &&
    match IndexOf(s, '@')
    case None => false
    case Some(i) => 0 < i && '@' !in s[i + 1..] && HasInnerDot(s[i + 1..])
  }

  lemma EmailCheckMatchesPattern(s: string)
    ensures IsValidEmail(s) <==> MatchesEmailPattern(s)
  {
    NoWhitespaceAt(s);
    IndexOfSpec(s, '@');
    if IsValidEmail(s) {
      var i := IndexOf(s, '@').value;
      var d := s[i + 1..];
      var inner := d[1..|d| - 1];
      var m :| 0 <= m < |inner| && inner[m] == '.';
      var j := i + 2 + m;
      assert s[j] == inner[m];
      forall k | 0 <= k < |s| && k != i
        ensures IsEmailChar(s[k])
      {
        if k < i {
          assert s[k] in s[..i];
        } else {
          assert s[k] == d[k - i - 1];
        }
      }
    }
    if MatchesEmailPattern(s) {
      var i, j :| 0 < i && i + 1 < j && j + 1 < |s| &&
        s[i] == '@' && s[j] == '.' &&
        forall k | 0 <= k < |s| && k != i :: IsEmailChar(s[k]);
      assert IsEmailChar(s[0]);
      var i' := IndexOf(s, '@').value;
      assert !IsEmailChar(s[i']);
      assert i' == i;
      var d := s[i + 1..];
      assert d[1..|d| - 1][j - i - 2] == '.';
      assert '@' !in d by {
        forall k | 0 <= k < |d| ensures d[k] != '@' {
          assert d[k] == s[i + 1 + k];
        }
      }
    }
  }

  function EmailError(s: string): Option<string>
  {
    if AllWhitespace(s) then Some(RequiredMessage(Email))
    else if !IsValidEmail(s) then Some(InvalidMessage(Email))
    else None
  }

  /** The email rule: blank after trimming is "required"; otherwise the untrimmed text must match the pattern. */
  lemma EmailRule(s: string)
    ensures EmailError(s) == Some(RequiredMessage(Email)) <==> Trim(s) == []
    ensures EmailError(s) == Some(InvalidMessage(Email)) <==> Trim(s) != [] && !MatchesEmailPattern(s)
    ensures EmailError(s) == None <==> Trim(s) != [] && MatchesEmailPattern(s)
  {
    TrimSpec(s);
    EmailCheckMatchesPattern(s);
  }

  /** Surrounding spaces are not trimmed before the format check, so they make the email invalid. */
  lemma EmailSurroundingSpaceRejected(s: string)
    requires Trim(s) != []
    requires IsWhitespace(s[0]) || IsWhitespace(s[|s| - 1])
    ensures EmailError(s) == Some(InvalidMessage(Email))
  {
    EmailRule(s);
  }

  // ---------------------------------------------------------------- phone

  /** `[\d\s\-().]` */
  predicate IsPhoneChar(c: char) {
    IsDigit(c) || IsWhitespace(c) || c == '-' || c == '(' || c == ')' || c == '.'
  }

  /** Every character of `b` is a phone character. */
  predicate AllPhoneChars(b: string) {
    b == [] || (IsPhoneChar(b[0]) && AllPhoneChars(b[1..]))
  }

  lemma {:induction false} AllPhoneCharsAt(b: string)
    ensures AllPhoneChars(b) <==> forall k | 0 <= k < |b| :: IsPhoneChar(b[k])
  {
    if b != [] {
      AllPhoneCharsAt(b[1..]);
      assert forall k | 1 <= k < |b| :: b[k] == b[1..][k - 1];
    }
  }

  /** `[\d\s\-().]{7,15}` matching the whole of `b`. */
  predicate IsPhoneRun(b: string) {
    7 <= |b| <= 15 && AllPhoneChars(b)
  }

  /** The reading of `^\+?[\d\s\-().]{7,15}$`: with or without the leading `+`. */
  ghost predicate MatchesPhonePattern(s: string) {
    (7 <= |s| <= 15 && forall k | 0 <= k < |s| :: IsPhoneChar(s[k])) ||
    (8 <= |s| <= 16 && s[0] == '+' && forall k | 1 <= k < |s| :: IsPhoneChar(s[k]))
  }

  /** The phone check written out: drop one leading `+`, then 7 to 15 phone characters. */
  predicate IsValidPhone(s: string) {
    if |s| > 0 && s[0] == '+' then IsPhoneRun(s[1..]) else IsPhoneRun(s)
  }

  lemma PhoneCheckMatchesPattern(s: string)
    ensures IsValidPhone(s) <==> MatchesPhonePattern(s)
  {
    AllPhoneCharsAt(s);
    if |s| > 0 {
      AllPhoneCharsAt(s[1..]);
      assert forall k | 1 <= k < |s| :: s[k] == s[1..][k - 1];
      if s[0] == '+' {
        assert !IsPhoneChar(s[0]);
      }
    }
  }

  function PhoneError(s: string): Option<string>
  {
    if AllWhitespace(s) then Some(RequiredMessage(Phone))
    else if !IsValidPhone(s) then Some(InvalidMessage(Phone))
    else None
  }

  /** The phone rule: blank after trimming is "required"; otherwise the untrimmed text must match the pattern. */
  lemma PhoneRule(s: string)
    ensures PhoneError(s) == Some(RequiredMessage(Phone)) <==> Trim(s) == []
    ensures PhoneError(s) == Some(InvalidMessage(Phone)) <==> Trim(s) != [] && !MatchesPhonePattern(s)
    ensures PhoneError(s) == None <==> Trim(s) != [] && MatchesPhonePattern(s)
  {
    TrimSpec(s);
    PhoneCheckMatchesPattern(s);
  }

  // ---------------------------------------------------------------- age

  /** `Number(s) < 1 || Number(s) > 120`; false when `Number(s)` is NaN. */
  predicate AgeOutOfRange(s: string) {
    var n := ToNumber(s);
    LessThan(n, 1) || GreaterThan(n, 120)
  }

  function AgeError(s: string): Option<string>
  {
    if s == [] then Some(RequiredMessage(Age))
    else if AgeOutOfRange(s) then Some(InvalidMessage(Age))
    else None
  }

  /**
   * The age rule: only the empty string is "required" (the age is not
   * trimmed); otherwise `Number(age)` must not compare below 1 or above 120.
   * A digit string passes exactly when its value lies in 1..120, blank text
   * that is not empty coerces to 0 and fails, and text that is NaN passes,
   * since every comparison with NaN is false.
   */
  lemma AgeRule(s: string)
    ensures AgeError(s) == Some(RequiredMessage(Age)) <==> s == []
    ensures AgeError(s) == Some(InvalidMessage(Age)) <==> s != [] && AgeOutOfRange(s)
    ensures AgeError(s) == None <==> s != [] && !AgeOutOfRange(s)
    ensures IsDigitString(s) ==> (AgeError(s) == None <==> 1 <= DecimalValue(s) <= 120)
    ensures AllWhitespace(s) && s != [] ==> AgeError(s) == Some(InvalidMessage(Age))
    ensures ToNumber(s) == NaN && s != [] ==> AgeError(s) == None
  {
    ToNumberSpec(s);
  }

  /** `Number("abc")` is NaN, so "abc" is accepted as an age. */
  lemma NonNumericAgeAccepted()
    ensures AgeError("abc") == None
  {
  }

  // ---------------------------------------------------------------- validate

  /**
   * An errors object: at most one message per field. A missing key and a key
   * holding `undefined` read the same way (`None`), since the form only ever
   * tests an entry for truthiness.
   */
  datatype Errors = Errors(name: Option<string>, email: Option<string>, phone: Option<string>, age: Option<string>)
  {
    /** `errors[f]` */
    function Get(f: Field): Option<string> {
      match f
      case Name => name
      case Email => email
      case Phone => phone
      case Age => age
    }

    /** `{ ...errors, [f]: message }` */
    function With(f: Field, message: Option<string>): (r: Errors)
      ensures r.Get(f) == message
      ensures forall g | g != f :: r.Get(g) == Get(g)
    {
      match f
      case Name => this.(name := message)
      case Email => this.(email := message)
      case Phone => this.(phone := message)
      case Age => this.(age := message)
    }

    /** `Object.keys(errors)` for an object that holds only the messages that are present. */
    function Keys(): (ks: set<Field>)
      ensures forall f :: f in ks <==> Get(f).Some?
    {
      set f | f in AllFields && Get(f).Some?
    }

    /** The entries of the fields in `fields`; every other field reads as missing. */
    function Restrict(fields: set<Field>): (r: Errors)
      ensures forall f :: r.Get(f) == if f in fields then Get(f) else None
    {
      Errors(
        if Name in fields then name else None,
        if Email in fields then email else None,
        if Phone in fields then phone else None,
        if Age in fields then age else None)
    }
  }

  /** `{}` */
  const NoErrors := Errors(None, None, None, None)

  function FieldError(f: Field, s: string): Option<string> {
    match f
    case Name => NameError(s)
    case Email => EmailError(s)
    case Phone => PhoneError(s)
    case Age => AgeError(s)
  }

  /**
   * `validate(values)`: each field checked on its own, a blank field getting
   * its "required" message and any other failing field its format or range
   * message.
   */
  function Validate(v: FormValues): Errors {
    Errors(NameError(v.name), EmailError(v.email), PhoneError(v.phone), AgeError(v.age))
  }

  /** The entry `validate` gives a field is that field's own rule applied to its value. */
  lemma ValidateEntry(v: FormValues, f: Field)
    ensures Validate(v).Get(f) == FieldError(f, v.Get(f))
  {
  }

  /** Every message is the field's "required" message when the field is blank, its other message otherwise. */
  lemma ValidateMessages(v: FormValues)
    ensures forall f | Validate(v).Get(f).Some? ::
      Validate(v).Get(f).value == if IsBlank(f, v.Get(f)) then RequiredMessage(f) else InvalidMessage(f)
  {
  }

  /** The rules of `validate`, field by field, in terms of the values alone. */
  lemma ValidateRules(v: FormValues)
    ensures Validate(v).name == None <==> Utf16Length(Trim(v.name)) >= 2
    ensures Validate(v).email == None <==> Trim(v.email) != [] && MatchesEmailPattern(v.email)
    ensures Validate(v).phone == None <==> Trim(v.phone) != [] && MatchesPhonePattern(v.phone)
    ensures Validate(v).age == None <==> v.age != [] && !AgeOutOfRange(v.age)
  {
    NameRule(v.name);
    EmailRule(v.email);
    PhoneRule(v.phone);
    AgeRule(v.age);
  }

  /** No rule ever produces an empty message, so a recorded message is always truthy. */
  lemma FieldErrorNonEmpty(f: Field, s: string)
    ensures FieldError(f, s).Some? ==> |FieldError(f, s).value| > 0
  {
  }

  /** `validate` has no keys exactly when all four fields pass their rules. */
  lemma ValidateEmptyIff(v: FormValues)
    ensures Validate(v).Keys() == {} <==>
      && Utf16Length(Trim(v.name)) >= 2
      && Trim(v.email) != [] && MatchesEmailPattern(v.email)
      && Trim(v.phone) != [] && MatchesPhonePattern(v.phone)
      && v.age != [] && !AgeOutOfRange(v.age)
  {
    ValidateRules(v);
    var e := Validate(v);
    assert e.Keys() == {} <==> e == NoErrors by {
      if e.Keys() != {} {
        var f :| f in e.Keys();
      } else {
        assert Name !in e.Keys() && Email !in e.Keys() && Phone !in e.Keys() && Age !in e.Keys();
      }
    }
  }

  /** Every field of the blank form gets its "required" message. */
  lemma BlankFormIsAllRequired()
    ensures forall f :: Validate(EmptyValues).Get(f) == Some(RequiredMessage(f))
  {
  }

  /** "1" and "120", the ends of the range, are accepted ages. */
  lemma AgeRangeEndsAccepted()
    ensures AgeError("1") == None && AgeError("120") == None
  {
    AgeRule("1");
    AgeRule("120");
    assert "1"[..0] == [];
    assert "120"[..2] == "12" && "12"[..1] == "1";
  }

  /** "0" and "121", just outside the range, are rejected. */
  lemma AgeJustOutsideRejected()
    ensures AgeError("0") == Some(InvalidMessage(Age)) && AgeError("121") == Some(InvalidMessage(Age))
  {
    AgeRule("0");
    AgeRule("121");
    assert "0"[..0] == [];
    assert "121"[..2] == "12" && "12"[..1] == "1";
  }

  /** Changing one value changes that field's entry, to its rule's verdict on the new value, and no other. */
  lemma ValidateWith(v: FormValues, f: Field, value: string)
    ensures Validate(v.With(f, value)) == Validate(v).With(f, FieldError(f, value))
  {
  }

  const SampleValues := FormValues("Jo", "a@b.co", "+1 555 123 4567", "30")

  lemma SampleNamePasses()
    ensures NameError(SampleValues.name) == None
  {
  }

  lemma SampleEmailPasses()
    ensures EmailError(SampleValues.email) == None
  {
    var s := SampleValues.email;
    assert !IsWhitespace(s[0]);
    TrimSpec(s);
    assert MatchesEmailPattern(s) by {
      assert s[1] == '@' && s[3] == '.';
      assert forall k | 0 <= k < |s| && k != 1 :: IsEmailChar(s[k]);
    }
    EmailRule(s);
  }

  lemma SamplePhonePasses()
    ensures PhoneError(SampleValues.phone) == None
  {
    var s := SampleValues.phone;
    assert !IsWhitespace(s[0]);
    TrimSpec(s);
    assert MatchesPhonePattern(s) by {
      assert 8 <= |s| <= 16 && s[0] == '+';
      assert forall k | 1 <= k < |s| :: IsPhoneChar(s[k]);
    }
    PhoneRule(s);
  }

  lemma SampleAgePasses()
    ensures AgeError(SampleValues.age) == None
  {
    var s := SampleValues.age;
    assert s[..1] == "3" && s[1..] == "0" && s[..1][1..] == [];
    assert IsDigitString(s);
    assert DecimalValue(s) == 30;
    AgeRule(s);
  }

  /** A fully filled-in form has no errors. */
  lemma SampleFormIsValid()
    ensures Validate(SampleValues) == NoErrors
  {
    SampleNamePasses();
    SampleEmailPasses();
    SamplePhonePasses();
    SampleAgePasses();
  }

  /** Text that is not blank but has no `@` is a format error. */
  lemma EmailWithoutAtRejected(s: string)
    requires !AllWhitespace(s) && '@' !in s
    ensures EmailError(s) == Some(InvalidMessage(Email))
  {
    TrimSpec(s);
    IndexOfSpec(s, '@');
  }

  lemma NotAnEmailFails()
    ensures EmailError("not-an-email") == Some(InvalidMessage(Email))
  {
    var s := "not-an-email";
    assert !IsWhitespace(s[0]);
    assert forall k | 0 <= k < |s| :: s[k] != '@';
    EmailWithoutAtRejected(s);
  }

  /** Text without `@` is a format error for the email, and the other fields stay clean. */
  lemma NotAnEmailIsTheOnlyError()
    ensures Validate(SampleValues.With(Email, "not-an-email")) == NoErrors.With(Email, Some(InvalidMessage(Email)))
  {
    SampleFormIsValid();
    NotAnEmailFails();
    ValidateWith(SampleValues, Email, "not-an-email");
  }
}
