/**
  Field validation of the booking form (script.js:176-269): the "required" rule,
  the email and phone patterns, and the pass over every required field that
  `validateForm` makes. Each regular expression is given twice: as the set of
  strings the pattern matches (a split into the pieces the pattern names), and
  as the direct check the model runs; lemmas show the two agree.
*/
module Validation {
  import opened Wrappers
  import opened Text

  // ---------------------------------------------------------------------------
  // Email: /^[^\s@]+@[^\s@]+\.[^\s@]+$/

  /** A match of `[^\s@]+`: a non-empty run of characters that are neither white space nor '@'. */
  predicate IsEmailAtom(t: string) {
    |t| > 0 && forall k | 0 <= k < |t| :: !IsSpace(t[k]) && t[k] != '@'
  }

  /** The strings the email pattern matches: atom '@' atom '.' atom, covering the whole value. */
  ghost predicate MatchesEmailRegex(s: string) {
    exists i, j | 0 < i && i + 1 < j && j + 1 < |s| ::
      s[i] == '@' && s[j] == '.' && IsEmailAtom(s[..i]) && IsEmailAtom(s[i + 1..j]) && IsEmailAtom(s[j + 1..])
  }

  /** The first index of `c` in `s`, or `|s|` when there is none. */
  function IndexOf(s: string, c: char): (i: nat)
    ensures i <= |s|
    ensures i < |s| ==> s[i] == c
    ensures forall k | 0 <= k < i :: s[k] != c
  {
    if s == [] then 0
    else if s[0] == c then 0
    else 1 + IndexOf(s[1..], c)
  }

  /**
    The email shape: no white space, exactly one '@' with something before it,
    and a '.' in the domain part that is neither its first nor its last character.
  */
  predicate IsEmailShape(s: string) {
    NoSpace(s)
    && var at := IndexOf(s, '@');
    && 0 < at < |s|
    && '@' !in s[at + 1..]
    && var domain := s[at + 1..];
    && |domain| >= 3 && '.' in domain[1..|domain| - 1]
  }

  lemma EmailShapeMatches(s: string)
    requires IsEmailShape(s)
    ensures MatchesEmailRegex(s)
  {
    var at := IndexOf(s, '@');
    var domain := s[at + 1..];
    var inner := domain[1..|domain| - 1];
    var k :| 0 <= k < |inner| && inner[k] == '.';
    var j := at + 2 + k;
    assert s[j] == '.';
    forall p | at < p < |s| ensures s[p] != '@' {
      assert domain[p - at - 1] == s[p];
    }
    assert IsEmailAtom(s[..at]) && IsEmailAtom(s[at + 1..j]) && IsEmailAtom(s[j + 1..]);
  }

  /** In a match, the three atoms cover every position but the '@' and the '.'. */
  lemma MatchCharacters(s: string, i: int, j: int)
    requires 0 < i && i + 1 < j && j + 1 < |s| && s[i] == '@' && s[j] == '.'
    requires IsEmailAtom(s[..i]) && IsEmailAtom(s[i + 1..j]) && IsEmailAtom(s[j + 1..])
    ensures NoSpace(s)
    ensures forall p | 0 <= p < |s| && p != i :: s[p] != '@'
  {
    forall p | 0 <= p < |s| ensures !IsSpace(s[p]) && (p != i ==> s[p] != '@') {
      if p < i {
        assert s[..i][p] == s[p];
      } else if i < p < j {
        assert s[i + 1..j][p - i - 1] == s[p];
      } else if j < p {
        assert s[j + 1..][p - j - 1] == s[p];
      }
    }
  }

  lemma MatchesEmailShape(s: string)
    requires MatchesEmailRegex(s)
    ensures IsEmailShape(s)
  {
    var i, j :| 0 < i && i + 1 < j && j + 1 < |s| && s[i] == '@' && s[j] == '.'
      && IsEmailAtom(s[..i]) && IsEmailAtom(s[i + 1..j]) && IsEmailAtom(s[j + 1..]);
    MatchCharacters(s, i, j);
    assert IndexOf(s, '@') == i;
    var domain := s[i + 1..];
    assert '@' !in domain by {
      forall p | 0 <= p < |domain| ensures domain[p] != '@' {
        assert domain[p] == s[i + 1 + p];
      }
    }
    assert domain[1..|domain| - 1][j - i - 2] == s[j];
  }

  /** The direct check accepts exactly the strings the email pattern matches. */
  lemma EmailShapeIff(s: string)
    ensures IsEmailShape(s) <==> MatchesEmailRegex(s)
  {
    if IsEmailShape(s) {
      EmailShapeMatches(s);
    }
    if MatchesEmailRegex(s) {
      MatchesEmailShape(s);
    }
  }

  lemma EmailAccepted()
    ensures IsEmailShape("a@b.com")
  {
    var good := "a@b.com";
    assert IndexOf(good, '@') == 1;
    assert good[2..][1..4][0] == good[3] == '.';
  }

  lemma EmailWithoutDotRejected()
    ensures !IsEmailShape("a@b")
  {
  }

  lemma EmailWithTwoAtsRejected()
    ensures !IsEmailShape("a@@b.com")
  {
    assert "a@@b.com"[2..][0] == '@';
  }

  lemma EmailWithoutLocalPartRejected()
    ensures !IsEmailShape("@b.com")
  {
  }

  lemma EmailWithSpaceRejected()
    ensures !IsEmailShape("a b@c.de")
  {
    assert "a b@c.de"[1] == ' ';
  }

  lemma EmailWithLeadingDotRejected()
    ensures !IsEmailShape("a@.com")
  {
    assert "a@.com"[2..][1..3] == "co";
  }

  // ---------------------------------------------------------------------------
  // Phone: separators /[\s\-\(\)]/g are removed, then /^[\+]?[1-9][\d]{0,15}$/

  predicate IsPhoneSeparator(c: char) {
    IsSpace(c) || c == '-' || c == '(' || c == ')'
  }

  predicate NoSeparator(s: string) {
    forall k | 0 <= k < |s| :: !IsPhoneSeparator(s[k])
  }

  /** `value.replace(/[\s\-\(\)]/g, '')`: every separator removed, everything else kept in order. */
  function StripPhone(s: string): (r: string)
    ensures |r| <= |s|
    ensures NoSeparator(r)
  {
    if s == [] then []
    else (if IsPhoneSeparator(s[0]) then [] else [s[0]]) + StripPhone(s[1..])
  }

  lemma {:induction false} StripPhoneKeepsClean(s: string)
    requires NoSeparator(s)
    ensures StripPhone(s) == s
  {
    if s != [] {
      StripPhoneKeepsClean(s[1..]);
    }
  }

  /** On a single character, stripping drops a separator and keeps anything else. */
  lemma StripPhoneSingle(c: char)
    ensures StripPhone([c]) == if IsPhoneSeparator(c) then [] else [c]
  {
    assert [c][1..] == [];
  }

  /** Stripping separators twice is stripping them once. */
  lemma StripPhoneIdempotent(s: string)
    ensures StripPhone(StripPhone(s)) == StripPhone(s)
  {
    StripPhoneKeepsClean(StripPhone(s));
  }

  /** A match of `[1-9][\d]{0,15}`. */
  predicate IsPhoneDigits(u: string) {
    1 <= |u| <= 16 && '1' <= u[0] <= '9' && forall k | 0 <= k < |u| :: IsDigit(u[k])
  }

  /** The strings the phone pattern matches: zero or one '+', then the digit run. */
  predicate MatchesPhoneRegex(t: string) {
    exists p | 0 <= p <= 1 && p <= |t| :: (p == 1 ==> t[0] == '+') && IsPhoneDigits(t[p..])
  }

  /** The direct phone check: an optional leading '+', then a digit run. */
  predicate IsPhoneShape(t: string) {
    if |t| > 0 && t[0] == '+' then IsPhoneDigits(t[1..]) else IsPhoneDigits(t)
  }

  /** The direct check accepts exactly the strings the phone pattern matches. */
  lemma PhoneShapeIff(t: string)
    ensures IsPhoneShape(t) <==> MatchesPhoneRegex(t)
  {
    assert t[0..] == t;
    if |t| > 0 && t[0] == '+' {
      assert !IsPhoneDigits(t[0..]);
    }
  }

  /** The number of decimal digits in `s`. */
  function DigitCount(s: string): nat {
    if s == [] then 0 else (if IsDigit(s[0]) then 1 else 0) + DigitCount(s[1..])
  }

  lemma {:induction false} StripPhoneKeepsDigits(s: string)
    ensures DigitCount(StripPhone(s)) == DigitCount(s)
  {
    if s != [] {
      StripPhoneKeepsDigits(s[1..]);
      var head := if IsPhoneSeparator(s[0]) then [] else [s[0]];
      var r := head + StripPhone(s[1..]);
      assert StripPhone(s) == r;
      if head != [] {
        assert r[0] == s[0] && r[1..] == StripPhone(s[1..]);
        assert DigitCount(r) == (if IsDigit(s[0]) then 1 else 0) + DigitCount(StripPhone(s[1..]));
      } else {
        assert !IsDigit(s[0]);
        assert r == StripPhone(s[1..]);
      }
    }
  }

  lemma {:induction false} AllDigitsCount(u: string)
    requires forall k | 0 <= k < |u| :: IsDigit(u[k])
    ensures DigitCount(u) == |u|
  {
    if u != [] {
      AllDigitsCount(u[1..]);
    }
  }

  /** A value with more than sixteen digits, however it is punctuated, is never a valid phone number. */
  lemma TooManyDigitsRejected(s: string)
    requires DigitCount(s) > 16
    ensures !IsPhoneShape(StripPhone(s))
  {
    var t := StripPhone(s);
    StripPhoneKeepsDigits(s);
    if IsPhoneShape(t) {
      if |t| > 0 && t[0] == '+' {
        AllDigitsCount(t[1..]);
      } else {
        AllDigitsCount(t);
      }
      assert false;
    }
  }

  lemma {:induction false} StripPhoneAppend(a: string, b: string)
    ensures StripPhone(a + b) == StripPhone(a) + StripPhone(b)
  {
    if a != [] {
      var head := if IsPhoneSeparator(a[0]) then [] else [a[0]];
      assert (a + b)[0] == a[0] && (a + b)[1..] == a[1..] + b;
      assert StripPhone(a + b) == head + StripPhone(a[1..] + b);
      StripPhoneAppend(a[1..], b);
      assert StripPhone(a) == head + StripPhone(a[1..]);
    } else {
      assert a + b == b;
    }
  }

  lemma StripPhoneCountryCode()
    ensures StripPhone("+1 ") == "+1"
  {
  }

  lemma StripPhoneAreaCode()
    ensures StripPhone("555-") == "555"
  {
  }

  lemma StripPhoneExchange()
    ensures StripPhone("123-") == "123"
  {
  }

  lemma StripPhoneLine()
    ensures StripPhone("4567") == "4567"
  {
    StripPhoneKeepsClean("4567");
  }

  lemma StripPhoneExampleTail()
    ensures StripPhone("123-" + "4567") == "123" + "4567"
  {
    StripPhoneExchange();
    StripPhoneLine();
    StripPhoneAppend("123-", "4567");
  }

  lemma StripPhoneExampleHead()
    ensures StripPhone("+1 " + "555-") == "+1" + "555"
  {
    StripPhoneCountryCode();
    StripPhoneAreaCode();
    StripPhoneAppend("+1 ", "555-");
  }

  lemma StripPhoneExample()
    ensures StripPhone("+1 555-123-4567") == "+15551234567"
  {
    StripPhoneExampleHead();
    StripPhoneExampleTail();
    var head := "+1 " + "555-";
    var tail := "123-" + "4567";
    StripPhoneAppend(head, tail);
    assert head + tail == "+1 555-123-4567";
    assert ("+1" + "555") + ("123" + "4567") == "+15551234567";
  }

  lemma PhoneDigitsExample()
    ensures IsPhoneShape("+15551234567")
  {
    var t := "+15551234567";
    assert t[1..] == "15551234567";
  }

  lemma PhoneExampleAccepted()
    ensures IsPhoneShape(StripPhone("+1 555-123-4567"))
  {
    StripPhoneExample();
    PhoneDigitsExample();
  }

  lemma PhoneExampleLeadingZero()
    ensures !IsPhoneShape(StripPhone("0123"))
    ensures !IsPhoneShape(StripPhone("+0123"))
  {
    StripPhoneKeepsClean("0123");
    StripPhoneKeepsClean("+0123");
    assert "+0123"[1..] == "0123";
  }

  // ---------------------------------------------------------------------------
  // Fields

  /** The `type` of a form control, as far as validation looks at it. */
  datatype InputType = EmailType | TelType | OtherType

  /** A form control: its current value, whether it carries `required`, and its type. */
  datatype Field = Field(value: string, required: bool, inputType: InputType)

  datatype FieldError = RequiredFieldError | InvalidEmailError | InvalidPhoneError

  function ErrorMessage(e: FieldError): string {
    match e
    case RequiredFieldError => "This field is required"
    case InvalidEmailError => "Please enter a valid email address"
    case InvalidPhoneError => "Please enter a valid phone number"
  }

  /** Each verdict has its own message, so the message on the page names the failing rule. */
  lemma ErrorMessagesDistinct(a: FieldError, b: FieldError)
    ensures ErrorMessage(a) == ErrorMessage(b) <==> a == b
  {
  }

  predicate EmailFails(f: Field) {
    f.inputType == EmailType && Trim(f.value) != [] && !IsEmailShape(Trim(f.value))
  }

  predicate PhoneFails(f: Field) {
    f.inputType == TelType && Trim(f.value) != [] && !IsPhoneShape(StripPhone(Trim(f.value)))
  }

  /**
    `validateField` (script.js:176-215): the trimmed value goes through the
    required, email and phone rules in turn; the message of the last failing
    rule is the one shown, and `None` means the field passes.
  */
  function ValidateField(f: Field): (r: Option<FieldError>)
    ensures r.None? <==> !(f.required && Trim(f.value) == []) && !EmailFails(f) && !PhoneFails(f)
    ensures r == Some(RequiredFieldError) <==> f.required && Trim(f.value) == []
    ensures r == Some(InvalidEmailError) <==> EmailFails(f)
    ensures r == Some(InvalidPhoneError) <==> PhoneFails(f)
  {
    var value := Trim(f.value);
    var afterRequired := if f.required && value == [] then Some(RequiredFieldError) else None;
    var afterEmail := if f.inputType == EmailType && value != [] && !IsEmailShape(value)
      then Some(InvalidEmailError) else afterRequired;
    if f.inputType == TelType && value != [] && !IsPhoneShape(StripPhone(value))
    then Some(InvalidPhoneError) else afterEmail
  }

  /** White space around a control's value never changes its verdict or its message. */
  lemma ValidateFieldPadding(f: Field, p: string, q: string)
    requires AllSpace(p) && AllSpace(q)
    ensures ValidateField(f.(value := p + f.value + q)) == ValidateField(f)
  {
    TrimPadding(p, f.value, q);
  }

  lemma EmailFieldAccepted()
    ensures ValidateField(Field("a@b.com", true, EmailType)) == None
  {
    EmailAccepted();
    assert Trim("a@b.com") == "a@b.com";
  }

  lemma EmailFieldPadded()
    ensures Trim(" a@b.com ") == "a@b.com"
  {
    var s := " a@b.com ";
    assert LeadingSpaces(s) == 1;
    var t := s[1..];
    assert t == "a@b.com ";
    assert ContentEnd(t) == 7;
  }

  lemma EmailFieldPaddedAccepted()
    ensures ValidateField(Field(" a@b.com ", true, EmailType)) == None
  {
    EmailAccepted();
    EmailFieldPadded();
  }

  lemma EmailFieldRejected()
    ensures ValidateField(Field("a@b", true, EmailType)) == Some(InvalidEmailError)
  {
    EmailWithoutDotRejected();
    assert Trim("a@b") == "a@b";
  }

  lemma BlankFieldRequired()
    ensures ValidateField(Field("  ", true, EmailType)) == Some(RequiredFieldError)
  {
    TrimEmptyIff("  ");
  }

  lemma TrimPhoneExample()
    ensures Trim("+1 555-123-4567") == "+1 555-123-4567"
  {
    var s := "+1 555-123-4567";
    assert LeadingSpaces(s) == 0;
    assert s[0..] == s;
    assert ContentEnd(s) == |s|;
  }

  lemma PhoneFieldAccepted()
    ensures ValidateField(Field("+1 555-123-4567", true, TelType)) == None
  {
    TrimPhoneExample();
    PhoneExampleAccepted();
  }

  lemma PhoneFieldRejected()
    ensures ValidateField(Field("0123", true, TelType)) == Some(InvalidPhoneError)
  {
    PhoneExampleLeadingZero();
    assert Trim("0123") == "0123";
  }

  lemma EmptyOptionalFieldPasses()
    ensures ValidateField(Field("", false, TelType)) == None
  {
  }

  /** Every control the selector `[required]` matches passes `validateField`. */
  predicate RequiredFieldsValid(fields: seq<Field>) {
    forall k | 0 <= k < |fields| :: fields[k].required ==> ValidateField(fields[k]).None?
  }
}
