/**
 * The contact form's validation engine: the fixed rule table of the four
 * fields and `validateField`, a first-failure-wins chain of checks over one
 * string value (res.js:153-176 and res.js:240-283). The DOM side of
 * `validateField` (the `is-invalid` class, the error element) is not here;
 * the marker it leaves is kept by `ContactForm.Form`.
 */
module FieldValidation {
  import opened Wrappers
  import opened JsText

  datatype Field = Name | Email | Phone | Message

  /** The key of the field in the script's `fields` and `validators` objects. */
  function Key(f: Field): string {
    match f
    case Name => "name"
    case Email => "email"
    case Phone => "phone"
    case Message => "message"
  }

  /** The two regular expressions of the rule table. */
  datatype Pattern = EmailAddress | PhoneNumber

  /** One entry of the rule table; an absent attribute is `None`. */
  datatype Rule = Rule(
    required: bool,
    minLength: Option<nat>,
    maxLength: Option<nat>,
    pattern: Option<Pattern>,
    message: string)

  /** The `validators` table. */
  function RuleFor(f: Field): Rule {
    match f
    case Name => Rule(true, Some(2), Some(50), None, "Name must be between 2-50 characters")
    case Email => Rule(true, None, None, Some(EmailAddress), "Please enter a valid email address")
    case Phone => Rule(false, None, None, Some(PhoneNumber), "Please enter a valid phone number")
    case Message => Rule(true, Some(10), Some(500), None, "Message must be between 10-500 characters")
  }

  /**
   * The shape of the table: every rule has a message, only phone is optional,
   * the length bounds come in pairs of positive numbers, and each rule has
   * either length bounds or a pattern.
   */
  lemma RuleTableShape(f: Field)
    ensures RuleFor(f).message != ""
    ensures RuleFor(f).required <==> f != Phone
    ensures RuleFor(f).minLength.Some? <==> RuleFor(f).maxLength.Some?
    ensures RuleFor(f).minLength.Some? ==> 0 < RuleFor(f).minLength.value < RuleFor(f).maxLength.value
    ensures RuleFor(f).minLength.Some? <==> RuleFor(f).pattern.None?
  {
  }

  // ---------------------------------------------------------------------
  // The email pattern  /^[^\s@]+@[^\s@]+\.[^\s@]+$/
  // ---------------------------------------------------------------------

  /** One character of the class `[^\s@]`. */
  predicate LocalChar(c: char) {
    !IsSpace(c) && c != '@'
  }

  /** `[^\s@]+` matching all of t. */
  predicate LocalRun(t: string) {
    |t| > 0 && forall k :: 0 <= k < |t| ==> LocalChar(t[k])
  }

  /**
   * The email pattern read as its concatenation: s splits at an '@' (index i)
   * and a later '.' (index j) into three non-empty runs of `[^\s@]`.
   */
  predicate EmailSplit(s: string, i: nat, j: nat) {
    i < j < |s| && s[i] == '@' && s[j] == '.'
    && LocalRun(s[..i]) && LocalRun(s[i + 1..j]) && LocalRun(s[j + 1..])
  }

  /** `/^[^\s@]+@[^\s@]+\.[^\s@]+$/.test(s)`: the pattern backtracks, so any split is a match. */
  predicate IsEmailAddress(s: string)
    ensures IsEmailAddress(s) ==> 5 <= |s|
  {
    exists i: nat, j: nat | i < j < |s| :: EmailSplit(s, i, j)
  }

  /** A '.' with at least one character on each side of it. */
  predicate HasInnerDot(d: string) {
    exists j :: 0 < j < |d| - 1 && d[j] == '.'
  }

  /** The only '@' of s is at index i > 0, and the part after it has an inner '.'. */
  predicate SoleAt(s: string, i: nat) {
    0 < i < |s| && s[i] == '@'
    && (forall k :: 0 <= k < |s| && k != i ==> s[k] != '@')
    && HasInnerDot(s[i + 1..])
  }

  /**
   * The email pattern described by what it accepts: no whitespace, exactly one
   * '@', not at the start, and a '.' strictly inside the part after the '@'.
   */
  predicate EmailShape(s: string) {
    NoSpace(s) && exists i: nat | i < |s| :: SoleAt(s, i)
  }

  lemma EmailAddressShape(s: string)
    ensures IsEmailAddress(s) <==> EmailShape(s)
  {
    if IsEmailAddress(s) {
      var i: nat, j: nat :| i < j < |s| && EmailSplit(s, i, j);
      MatchHasShape(s, i, j);
    }
    if EmailShape(s) {
      var i: nat :| i < |s| && SoleAt(s, i);
      var d := s[i + 1..];
      var j' :| 0 < j' < |d| - 1 && d[j'] == '.';
      assert s[i + 1 + j'] == d[j'];
      ShapeHasMatch(s, i, i + 1 + j');
    }
  }

  /** A split witnessing the pattern gives the shape, with the '@' at i. */
  lemma MatchHasShape(s: string, i: nat, j: nat)
    requires EmailSplit(s, i, j)
    ensures EmailShape(s)
  {
    var a, m, z := s[..i], s[i + 1..j], s[j + 1..];
    forall k | 0 <= k < |s| && k != i ensures LocalChar(s[k]) || k == j {
      if k < i {
        assert s[k] == a[k];
      } else if i < k < j {
        assert s[k] == m[k - i - 1];
      } else if k > j {
        assert s[k] == z[k - j - 1];
      }
    }
    assert NoSpace(s);
    var d := s[i + 1..];
    assert d[j - i - 1] == '.';
    assert HasInnerDot(d);
    assert SoleAt(s, i);
  }

  /** The shape, with its '@' at i and a '.' at j, gives a split witnessing the pattern. */
  lemma ShapeHasMatch(s: string, i: nat, j: nat)
    requires NoSpace(s)
    requires 0 < i && i + 1 < j < |s| - 1 && s[i] == '@' && s[j] == '.'
    requires forall k :: 0 <= k < |s| && k != i ==> s[k] != '@'
    ensures IsEmailAddress(s)
  {
    var a, m, z := s[..i], s[i + 1..j], s[j + 1..];
    forall k | 0 <= k < |a| ensures LocalChar(a[k]) {
      assert a[k] == s[k];
    }
    forall k | 0 <= k < |m| ensures LocalChar(m[k]) {
      assert m[k] == s[i + 1 + k];
    }
    forall k | 0 <= k < |z| ensures LocalChar(z[k]) {
      assert z[k] == s[j + 1 + k];
    }
    assert LocalRun(a) && LocalRun(m) && LocalRun(z);
    assert EmailSplit(s, i, j);
  }

  // ---------------------------------------------------------------------
  // The phone pattern  /^[\+]?[1-9][\d]{0,15}$/
  // ---------------------------------------------------------------------

  /** `\d`, which in ECMAScript is ASCII 0-9 only. */
  predicate IsDigit(c: char) {
    '0' <= c <= '9'
  }

  /** `[1-9][\d]{0,15}` matching all of t. */
  predicate PhoneDigits(t: string) {
    1 <= |t| <= 16 && '1' <= t[0] <= '9'
    && forall k :: 1 <= k < |t| ==> IsDigit(t[k])
  }

  /** The phone pattern: `[\+]?` either consumes nothing or a leading '+'. */
  predicate IsPhoneNumber(s: string)
    ensures IsPhoneNumber(s) ==> 1 <= |s| <= 17 && IsDigit(s[|s| - 1])
  {
    PhoneDigits(s) || (|s| > 0 && s[0] == '+' && PhoneDigits(s[1..]))
  }

  /**
   * The optional '+' is taken exactly when present, so a phone number is
   * its digits, with at most one '+' in front, between 1 and 17 characters.
   */
  lemma PhoneNumberShape(s: string)
    ensures IsPhoneNumber(s) <==>
      PhoneDigits(if |s| > 0 && s[0] == '+' then s[1..] else s)
    ensures IsPhoneNumber(s) ==>
      1 <= |s| <= 17 && Utf16Length(s) == |s|
      && forall k :: 0 <= k < |s| ==> IsDigit(s[k]) || (k == 0 && s[k] == '+')
  {
    if IsPhoneNumber(s) {
      var t := if s[0] == '+' then s[1..] else s;
      forall k | 0 <= k < |s| ensures IsDigit(s[k]) || (k == 0 && s[k] == '+') {
        if s[0] == '+' && k > 0 {
          assert s[k] == t[k - 1];
        }
      }
      assert InBmp(s);
    }
  }

  function Matches(p: Pattern, s: string): bool {
    match p
    case EmailAddress => IsEmailAddress(s)
    case PhoneNumber => IsPhoneNumber(s)
  }

  // ---------------------------------------------------------------------
  // validateField
  // ---------------------------------------------------------------------

  /** What `validateField` decides: the returned flag and the error text it shows. */
  datatype Verdict = Verdict(valid: bool, message: string)

  /** `charAt(0).toUpperCase() + slice(1)` on the ASCII keys of the table. */
  function Capitalize(key: string): (r: string)
    ensures |r| == |key|
    ensures r != [] ==> r[1..] == key[1..] && ('a' <= key[0] <= 'z' ==> r[0] as int == key[0] as int - 32)
  {
    if key == [] then []
    else [if 'a' <= key[0] <= 'z' then (key[0] as int - 32) as char else key[0]] + key[1..]
  }

  function RequiredMessage(key: string): string {
    Capitalize(key) + " is required"
  }

  /**
   * A length bound is tested only when it is present and truthy: a bound of
   * zero is falsy in JavaScript and skips its check.
   */
  predicate Enforced(bound: Option<nat>) {
    bound.Some? && bound.value != 0
  }

  /**
   * Every check a value must pass under a rule, as one conjunction; length
   * is JavaScript's UTF-16 length, and the pattern is tested on non-empty
   * values only.
   */
  predicate Satisfies(rule: Rule, value: string) {
    && (rule.required ==> value != "")
    && (Enforced(rule.minLength) ==> Utf16Length(value) >= rule.minLength.value)
    && (Enforced(rule.maxLength) ==> Utf16Length(value) <= rule.maxLength.value)
    && (rule.pattern.Some? && value != "" ==> Matches(rule.pattern.value, value))
  }

  /**
   * The rule chain of `validateField`: required, then minimum length, then
   * maximum length, then pattern; the first failing check decides. Only the
   * required check has its own message; the three later checks all report
   * the rule's message.
   */
  function Check(key: string, rule: Rule, value: string): (r: Verdict)
    ensures r.valid <==> Satisfies(rule, value)
    ensures r.valid ==> r.message == ""
    ensures !r.valid && rule.required && value == "" ==> r.message == RequiredMessage(key)
    ensures !r.valid && !(rule.required && value == "") ==> r.message == rule.message
  {
    if rule.required && value == "" then
      Verdict(false, RequiredMessage(key))
    else if Enforced(rule.minLength) && Utf16Length(value) < rule.minLength.value then
      Verdict(false, rule.message)
    else if Enforced(rule.maxLength) && Utf16Length(value) > rule.maxLength.value then
      Verdict(false, rule.message)
    else if rule.pattern.Some? && value != "" && !Matches(rule.pattern.value, value) then
      Verdict(false, rule.message)
    else
      Verdict(true, "")
  }

  /** What each field accepts, read off the rule table. */
  predicate Acceptable(f: Field, value: string) {
    match f
    case Name => 2 <= Utf16Length(value) <= 50
    case Email => IsEmailAddress(value)
    case Phone => value == "" || IsPhoneNumber(value)
    case Message => 10 <= Utf16Length(value) <= 500
  }

  /** `validateField(fieldName, value)` with its error message. */
  function Validate(f: Field, value: string): (r: Verdict)
    ensures r.valid <==> Acceptable(f, value)
    ensures r.valid <==> r.message == ""
    ensures !r.valid ==>
      r.message == if value == "" && f != Phone then RequiredMessage(Key(f)) else RuleFor(f).message
  {
    TableSatisfies(f, value);
    Check(Key(f), RuleFor(f), value)
  }

  /** The table's rule for f is satisfied exactly by the values `Acceptable` names. */
  lemma TableSatisfies(f: Field, value: string)
    ensures Satisfies(RuleFor(f), value) <==> Acceptable(f, value)
    ensures RuleFor(f).message != "" && RequiredMessage(Key(f)) != ""
    ensures RuleFor(f).required <==> f != Phone
  {
    match f
    case Name =>
    case Email =>
      if IsEmailAddress(value) {
        var i: nat, j: nat :| i < j < |value| && EmailSplit(value, i, j);
      }
    case Phone =>
    case Message =>
  }

  /** The display name of a field, as its error messages spell it. */
  function Label(f: Field): string {
    match f
    case Name => "Name"
    case Email => "Email"
    case Phone => "Phone"
    case Message => "Message"
  }

  /** Capitalising a key of the table gives the field's display name. */
  lemma CapitalizedKey(f: Field)
    ensures Capitalize(Key(f)) == Label(f)
  {
    var key := Key(f);
    var c := (key[0] as int - 32) as char;
    assert c == Label(f)[0];
    assert Capitalize(key) == [c] + key[1..];
    assert key[1..] == Label(f)[1..];
  }

  /** An empty required field reports "<Label> is required". */
  lemma RequiredMessages(f: Field)
    requires RuleFor(f).required
    ensures Validate(f, "") == Verdict(false, Label(f) + " is required")
  {
    CapitalizedKey(f);
  }

  /** A non-empty name is valid exactly when its length is 2 to 50; otherwise the rule's message. */
  lemma NameBounds(value: string)
    requires value != ""
    ensures Validate(Name, value).valid <==> 2 <= Utf16Length(value) <= 50
    ensures !Validate(Name, value).valid ==>
      Validate(Name, value).message == "Name must be between 2-50 characters"
  {
  }

  /** A non-empty message is valid exactly when its length is 10 to 500; otherwise the rule's message. */
  lemma MessageBounds(value: string)
    requires value != ""
    ensures Validate(Message, value).valid <==> 10 <= Utf16Length(value) <= 500
    ensures !Validate(Message, value).valid ==>
      Validate(Message, value).message == "Message must be between 10-500 characters"
  {
  }

  /** A non-empty email is valid exactly when it has the shape of `EmailShape`. */
  lemma EmailValidity(value: string)
    requires value != ""
    ensures Validate(Email, value).valid <==> EmailShape(value)
    ensures !Validate(Email, value).valid ==>
      Validate(Email, value).message == "Please enter a valid email address"
  {
    EmailAddressShape(value);
  }

  /** The phone field is optional: empty is valid, anything else must match the pattern. */
  lemma PhoneValidity(value: string)
    ensures Validate(Phone, "").valid
    ensures value != "" ==>
      (Validate(Phone, value).valid <==>
        PhoneDigits(if value[0] == '+' then value[1..] else value))
    ensures !Validate(Phone, value).valid ==>
      Validate(Phone, value).message == "Please enter a valid phone number"
  {
    PhoneNumberShape(value);
  }

  lemma EmailExamples()
    ensures Validate(Email, "a@b.com").valid
    ensures !Validate(Email, "a@b").valid
  {
    var s := "a@b.com";
    assert s[..1] == "a" && s[2..3] == "b" && s[4..] == "com";
    assert s[1] == '@' && s[3] == '.';
    assert LocalRun(s[..1]) && LocalRun(s[2..3]) && LocalRun(s[4..]);
    assert EmailSplit(s, 1, 3);
    assert IsEmailAddress(s);
    EmailAddressShape("a@b");
  }

  lemma PhoneExamples()
    ensures Validate(Phone, "12345").valid
    ensures Validate(Phone, "+4915112345678").valid
    ensures !Validate(Phone, "abc").valid
    ensures !Validate(Phone, "0123").valid
    ensures !Validate(Phone, "+").valid
    ensures !Validate(Phone, "12345678901234567").valid
  {
  }

  /** A run of n copies of one character of the Basic Multilingual Plane has length n. */
  lemma RepeatedLength(n: nat, c: char)
    requires c as int <= 0xFFFF
    ensures Utf16Length(seq(n, _ => c)) == n
  {
    assert InBmp(seq(n, _ => c));
  }

  /** The name's length boundaries: 1 and 51 characters fail, 2 and 50 pass. */
  lemma NameLengthExamples()
    ensures !Validate(Name, seq(1, _ => 'a')).valid && Validate(Name, seq(2, _ => 'a')).valid
    ensures Validate(Name, seq(50, _ => 'a')).valid && !Validate(Name, seq(51, _ => 'a')).valid
  {
    RepeatedLength(1, 'a');
    RepeatedLength(2, 'a');
    RepeatedLength(50, 'a');
    RepeatedLength(51, 'a');
  }

  /** The message's length boundaries: 9 and 501 characters fail, 10 and 500 pass. */
  lemma MessageLengthExamples()
    ensures !Validate(Message, seq(9, _ => 'a')).valid && Validate(Message, seq(10, _ => 'a')).valid
    ensures Validate(Message, seq(500, _ => 'a')).valid && !Validate(Message, seq(501, _ => 'a')).valid
  {
    RepeatedLength(9, 'a');
    RepeatedLength(10, 'a');
    RepeatedLength(500, 'a');
    RepeatedLength(501, 'a');
  }

  /**
   * A name of whitespace only passes on blur, where the raw value is
   * validated, and fails "required" on submit, where the value is trimmed.
   */
  lemma BlankNameBlurVersusSubmit(value: string)
    requires AllSpace(value) && 2 <= Utf16Length(value) <= 50
    ensures Validate(Name, value).valid
    ensures Validate(Name, Trim(value)) == Verdict(false, "Name is required")
  {
    RequiredMessages(Name);
  }
}
