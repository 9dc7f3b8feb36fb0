/**
 * The form-validation helpers: the permissive e-mail shape check, the password
 * strength score, the presence check, and the rule-driven form validator.
 */
module Validation {
  import opened Wrappers
  import opened Text

  // ---------------------------------------------------------------------------
  // isValidEmail
  // ---------------------------------------------------------------------------

  /** A character of the class `[^\s@]`. */
  predicate IsPlain(c: char) {
    !IsWhitespace(c) && c != '@'
  }

  predicate AllPlain(s: string) {
    forall i | 0 <= i < |s| :: IsPlain(s[i])
  }

  /**
   * The language of the pattern `^[^\s@]+@[^\s@]+\.[^\s@]+$`, written with the
   * positions `at` and `dot` of the pattern's literal '@' and '.'.
   */
  ghost predicate EmailRegex(s: string) {
    exists at, dot | 0 < at && at + 1 < dot && dot + 1 < |s| ::
      && s[at] == '@' && s[dot] == '.'
      && AllPlain(s[..at]) && AllPlain(s[at + 1..dot]) && AllPlain(s[dot + 1..])
  }

  /** The text before the '@': non-empty, no whitespace, no '@'. */
  predicate LocalPart(l: string) {
    |l| > 0 && AllPlain(l)
  }

  /** Some '.' of `d` is neither its first nor its last character. */
  predicate HasInnerDot(d: string) {
    exists k | 0 < k < |d| - 1 :: d[k] == '.'
  }

  /** The text after the '@': no whitespace, no '@', and an inner dot. */
  predicate DomainPart(d: string) {
    AllPlain(d) && HasInnerDot(d)
  }

  /**
   * The states of a deterministic automaton for the pattern: `Host` is inside the
   * domain before any usable dot, `Dot` has just read a dot that follows at least
   * one domain character, `Tld` has seen such a dot followed by more characters.
   */
  datatype EmailState = Start | Local | AfterAt | Host | Dot | Tld | Reject

  function Step(st: EmailState, c: char): EmailState {
    if !IsPlain(c) then
      if st == Local && c == '@' then AfterAt else Reject
    else
      match st
      case Start => Local
      case Local => Local
      case AfterAt => Host
      case Host => if c == '.' then Dot else Host
      case Dot => Tld
      case Tld => Tld
      case Reject => Reject
  }

  /** The state after reading all of `s` from the start state. */
  function Run(s: string): EmailState {
    if s == [] then Start else Step(Run(s[..|s| - 1]), s[|s| - 1])
  }

  /** `emailRegex.test(email)`: the automaton ends in its accepting state. */
  predicate IsValidEmail(email: string) {
    Run(email) == Tld
  }

  /** What the automaton has concluded about the domain text read so far. */
  ghost function DomainState(d: string): (st: EmailState)
    ensures st.AfterAt? || st.Host? || st.Dot? || st.Tld?
  {
    if d == [] then AfterAt
    else if HasInnerDot(d) then Tld
    else if |d| >= 2 && d[|d| - 1] == '.' then Dot
    else Host
  }

  /** What the automaton has concluded about a prefix, stated without running it. */
  ghost function Classify(p: string): EmailState {
    if p == [] then Start
    else if AllPlain(p) then Local
    else match IndexOf(p, '@')
      case None => Reject
      case Some(at) =>
        if at == 0 || !AllPlain(p[..at]) || !AllPlain(p[at + 1..]) then Reject
        else DomainState(p[at + 1..])
  }

  lemma InnerDotSnoc(d: string, c: char)
    ensures HasInnerDot(d + [c]) <==> HasInnerDot(d) || (|d| >= 2 && d[|d| - 1] == '.')
  {
    var e := d + [c];
    if HasInnerDot(d + [c]) {
      var k :| 0 < k < |e| - 1 && e[k] == '.';
      assert e[k] == d[k];
      if k < |d| - 1 { assert HasInnerDot(d); }
    }
    if HasInnerDot(d) {
      var k :| 0 < k < |d| - 1 && d[k] == '.';
      assert e[k] == d[k];
    }
    if |d| >= 2 && d[|d| - 1] == '.' {
      assert e[|d| - 1] == '.';
    }
  }

  lemma AllPlainSnoc(s: string, c: char)
    ensures AllPlain(s + [c]) <==> AllPlain(s) && IsPlain(c)
  {
    var e := s + [c];
    assert e[|s|] == c;
    assert forall i | 0 <= i < |s| :: e[i] == s[i];
  }

  lemma IndexOfSnoc(p: string, c: char)
    ensures IndexOf(p, '@').Some? ==> IndexOf(p + [c], '@') == IndexOf(p, '@')
    ensures IndexOf(p, '@').None? && c == '@' ==> IndexOf(p + [c], '@') == Some(|p|)
    ensures IndexOf(p, '@').None? && c != '@' ==> IndexOf(p + [c], '@') == None
  {
    var e := p + [c];
    assert e[..|p|] == p;
    match IndexOf(p, '@')
    case Some(at) =>
      assert e[..at] == p[..at];
      IndexOfIsFirst(e, at);
    case None =>
      if c == '@' { IndexOfIsFirst(e, |p|); }
  }

  /** A position holding `c` with no `c` before it is what `IndexOf` finds. */
  lemma IndexOfIsFirst(s: string, at: nat)
    requires at < |s| && s[at] == '@' && '@' !in s[..at]
    ensures IndexOf(s, '@') == Some(at)
  {
  }

  lemma DomainStep(d: string, c: char)
    requires IsPlain(c)
    ensures DomainState(d + [c]) == Step(DomainState(d), c)
  {
    InnerDotSnoc(d, c);
    assert (d + [c])[|d|] == c;
  }

  /** Reading one more character moves `Classify` as the automaton's `Step` does. */
  lemma ClassifyStep(p: string, c: char)
    ensures Classify(p + [c]) == Step(Classify(p), c)
  {
    if p == [] {
      ClassifyFirst(c);
    } else if AllPlain(p) {
      ClassifyAfterLocal(p, c);
    } else {
      match IndexOf(p, '@')
      case None => ClassifyAfterReject(p, c);
      case Some(at) => ClassifyAfterAt(p, c, at);
    }
  }

  lemma ClassifyFirst(c: char)
    ensures Classify([] + [c]) == Step(Classify([]), c)
  {
    var e := [] + [c];
    assert e == [c];
    AllPlainSnoc([], c);
    if c == '@' { IndexOfIsFirst(e, 0); }
  }

  lemma ClassifyAfterLocal(p: string, c: char)
    requires p != [] && AllPlain(p)
    ensures Classify(p + [c]) == Step(Classify(p), c)
  {
    var e := p + [c];
    AllPlainSnoc(p, c);
    IndexOfSnoc(p, c);
    assert forall i | 0 <= i < |p| :: p[i] != '@';
    if c == '@' {
      assert e[..|p|] == p;
      assert e[|p| + 1..] == [];
    }
  }

  lemma ClassifyAfterReject(p: string, c: char)
    requires p != [] && !AllPlain(p) && IndexOf(p, '@').None?
    ensures Classify(p + [c]) == Step(Classify(p), c)
  {
    var e := p + [c];
    AllPlainSnoc(p, c);
    IndexOfSnoc(p, c);
    if c == '@' { assert e[..|p|] == p; }
  }

  lemma ClassifyAfterAt(p: string, c: char, at: nat)
    requires p != [] && !AllPlain(p) && IndexOf(p, '@') == Some(at)
    ensures Classify(p + [c]) == Step(Classify(p), c)
  {
    var e := p + [c];
    AllPlainSnoc(p, c);
    IndexOfSnoc(p, c);
    assert e[..at] == p[..at];
    assert e[at + 1..] == p[at + 1..] + [c];
    AllPlainSnoc(p[at + 1..], c);
    if at == 0 || !AllPlain(p[..at]) || !AllPlain(p[at + 1..]) {
      assert Classify(p) == Reject;
      assert Classify(e) == Reject;
    } else {
      ClassifyInDomain(p, c, at);
    }
  }

  /** Past a well-formed local part the automaton tracks only the domain. */
  lemma ClassifyInDomain(p: string, c: char, at: nat)
    requires p != [] && !AllPlain(p) && IndexOf(p, '@') == Some(at)
    requires at > 0 && AllPlain(p[..at]) && AllPlain(p[at + 1..])
    requires IndexOf(p + [c], '@') == Some(at) && (p + [c])[..at] == p[..at]
    requires (p + [c])[at + 1..] == p[at + 1..] + [c]
    requires AllPlain(p[at + 1..] + [c]) <==> IsPlain(c)
    ensures Classify(p + [c]) == Step(Classify(p), c)
  {
    var d := p[at + 1..];
    assert Classify(p) == DomainState(d);
    if IsPlain(c) {
      assert Classify(p + [c]) == DomainState(d + [c]);
      DomainStep(d, c);
    } else {
      assert Classify(p + [c]) == Reject;
      assert Step(DomainState(d), c) == Reject;
    }
  }

  lemma {:induction false} RunIsClassify(s: string)
    ensures Run(s) == Classify(s)
  {
    if s != [] {
      var p := s[..|s| - 1];
      assert s == p + [s[|s| - 1]];
      RunIsClassify(p);
      ClassifyStep(p, s[|s| - 1]);
    }
  }

  /**
   * `isValidEmail` accepts exactly the strings L@D where L is non-empty with no
   * whitespace and no '@', and D has no whitespace, no '@', and a dot that is
   * neither its first nor its last character.
   */
  lemma IsValidEmailShape(s: string)
    ensures IsValidEmail(s) <==>
      exists at | 0 <= at < |s| :: s[at] == '@' && LocalPart(s[..at]) && DomainPart(s[at + 1..])
  {
    if IsValidEmail(s) {
      AcceptedHasShape(s);
    }
    if exists at | 0 <= at < |s| :: s[at] == '@' && LocalPart(s[..at]) && DomainPart(s[at + 1..]) {
      var at :| 0 <= at < |s| && s[at] == '@' && LocalPart(s[..at]) && DomainPart(s[at + 1..]);
      ShapeIsAccepted(s, at);
    }
  }

  /** An accepted address splits at its first '@' into a local part and a domain part. */
  lemma AcceptedHasShape(s: string)
    ensures IsValidEmail(s) ==> var at := IndexOf(s, '@');
      at.Some? && LocalPart(s[..at.value]) && DomainPart(s[at.value + 1..])
  {
    RunIsClassify(s);
  }

  /** A local part, an '@' and a domain part make an accepted address. */
  lemma ShapeIsAccepted(s: string, at: nat)
    requires at < |s| && s[at] == '@' && LocalPart(s[..at]) && DomainPart(s[at + 1..])
    ensures IsValidEmail(s)
  {
    RunIsClassify(s);
    assert '@' !in s[..at] by {
      forall i | 0 <= i < at ensures s[..at][i] != '@' { assert IsPlain(s[..at][i]); }
    }
    IndexOfIsFirst(s, at);
    assert !IsPlain(s[at]);
  }

  /** The automaton decides exactly the language of the source's pattern. */
  lemma IsValidEmailMatchesRegex(s: string)
    ensures IsValidEmail(s) <==> EmailRegex(s)
  {
    IsValidEmailShape(s);
    if EmailRegex(s) {
      RegexHasShape(s);
    }
    if exists at | 0 <= at < |s| :: s[at] == '@' && LocalPart(s[..at]) && DomainPart(s[at + 1..]) {
      var at :| 0 <= at < |s| && s[at] == '@' && LocalPart(s[..at]) && DomainPart(s[at + 1..]);
      ShapeIsRegex(s, at);
    }
  }

  lemma RegexHasShape(s: string)
    requires EmailRegex(s)
    ensures exists at | 0 <= at < |s| :: s[at] == '@' && LocalPart(s[..at]) && DomainPart(s[at + 1..])
  {
    var at, dot :| 0 < at && at + 1 < dot && dot + 1 < |s| && s[at] == '@' && s[dot] == '.'
      && AllPlain(s[..at]) && AllPlain(s[at + 1..dot]) && AllPlain(s[dot + 1..]);
    var d, k := s[at + 1..], dot - at - 1;
    forall i | 0 <= i < |d| ensures IsPlain(d[i]) {
      if i < k {
        assert d[i] == s[at + 1..dot][i];
      } else if k < i {
        assert d[i] == s[dot + 1..][i - k - 1];
      }
    }
    assert d[k] == '.';
    assert DomainPart(d);
  }

  lemma ShapeIsRegex(s: string, at: nat)
    requires at < |s| && s[at] == '@' && LocalPart(s[..at]) && DomainPart(s[at + 1..])
    ensures EmailRegex(s)
  {
    var d := s[at + 1..];
    var k :| 0 < k < |d| - 1 && d[k] == '.';
    var dot := at + 1 + k;
    assert s[at + 1..dot] == d[..k];
    assert s[dot + 1..] == d[k + 1..];
    assert s[dot] == '.';
  }

  /** Every accepted address contains exactly one '@'. */
  lemma ValidEmailHasOneAt(s: string)
    requires IsValidEmail(s)
    ensures multiset(s)['@'] == 1
  {
    IsValidEmailShape(s);
    var at :| 0 <= at < |s| && s[at] == '@' && LocalPart(s[..at]) && DomainPart(s[at + 1..]);
    assert s == s[..at] + [s[at]] + s[at + 1..];
    NoAtCount(s[..at]);
    NoAtCount(s[at + 1..]);
  }

  lemma NoAtCount(s: string)
    requires AllPlain(s)
    ensures multiset(s)['@'] == 0
  {
  }

  /** Several dots are accepted, and so is a domain that starts with a dot. */
  lemma EmailSeveralDots()
    ensures IsValidEmail("a@b.c.d") && IsValidEmail("a@.b.c")
  {
    var s, t := "a@b.c.d", "a@.b.c";
    assert s[..1] == "a" && s[2..] == "b.c.d" && t[..1] == "a" && t[2..] == ".b.c";
    assert AllPlain("a") by { assert IsPlain("a"[0]); }
    assert DomainPart("b.c.d") by {
      var d := "b.c.d";
      assert IsPlain(d[0]) && IsPlain(d[1]) && IsPlain(d[2]) && IsPlain(d[3]) && IsPlain(d[4]);
      assert d[1] == '.';
    }
    assert DomainPart(".b.c") by {
      var d := ".b.c";
      assert IsPlain(d[0]) && IsPlain(d[1]) && IsPlain(d[2]) && IsPlain(d[3]);
      assert d[2] == '.';
    }
    ShapeIsAccepted(s, 1);
    ShapeIsAccepted(t, 1);
  }

  /** A dot that opens or closes the domain does not count. */
  lemma EmailEdgeDots()
    ensures !IsValidEmail("a@.bc") && !IsValidEmail("a@bc.")
  {
    var s, t := "a@.bc", "a@bc.";
    AcceptedHasShape(s);
    AcceptedHasShape(t);
    IndexOfIsFirst(s, 1);
    IndexOfIsFirst(t, 1);
    assert s[2..] == ".bc" && t[2..] == "bc.";
    assert !HasInnerDot(".bc") by { assert ".bc"[1] != '.'; }
    assert !HasInnerDot("bc.") by { assert "bc."[1] != '.'; }
  }

  // ---------------------------------------------------------------------------
  // checkPasswordStrength
  // ---------------------------------------------------------------------------

  /** The class `[^A-Za-z0-9]`. */
  predicate IsSpecial(c: char) {
    !IsLowerAscii(c) && !IsUpperAscii(c) && !IsDigit(c)
  }

  /** `re.test(s)` for a pattern that is a single character class. */
  function Contains(s: string, inClass: char -> bool): (r: bool)
    ensures r <==> exists i | 0 <= i < |s| :: inClass(s[i])
  {
    if s == [] then false
    else if inClass(s[0]) then true
    else
      var r := Contains(s[1..], inClass);
      assert forall i | 1 <= i < |s| :: s[i] == s[1..][i - 1];
      r
  }

  /** The five sub-checks the strength meter displays. */
  datatype PasswordChecks = PasswordChecks(length: bool, lowercase: bool, uppercase: bool, number: bool, special: bool)

  /** `checks` is `None` for an empty password, whose result object has no `checks` key. */
  datatype PasswordStrength = PasswordStrength(strength: nat, labelText: string, color: string, checks: Option<PasswordChecks>)

  function ChecksOf(password: string): PasswordChecks {
    PasswordChecks(
      |password| >= 8,
      Contains(password, IsLowerAscii),
      Contains(password, IsUpperAscii),
      Contains(password, IsDigit),
      Contains(password, IsSpecial))
  }

  function CountTrue(c: PasswordChecks): (n: nat)
    ensures n <= 5
  {
    (if c.length then 1 else 0) + (if c.lowercase then 1 else 0) + (if c.uppercase then 1 else 0)
    + (if c.number then 1 else 0) + (if c.special then 1 else 0)
  }

  /** The fixed table of labels and colours, indexed by strength. */
  const StrengthTable: seq<(string, string)> := [
    ("Very Weak", "error"),
    ("Weak", "error"),
    ("Fair", "warning"),
    ("Good", "warning"),
    ("Strong", "success"),
    ("Very Strong", "success")
  ]

  /** `!password`: absent or the empty string. */
  predicate NoPassword(password: Option<string>) {
    password.None? || password.value == ""
  }

  function CheckPasswordStrength(password: Option<string>): (r: PasswordStrength)
    ensures NoPassword(password) ==> r == PasswordStrength(0, "None", "neutral", None)
    ensures !NoPassword(password) ==>
      (r.checks.Some? && r.strength <= 5 && (r.labelText, r.color) == StrengthTable[r.strength])
  {
    if NoPassword(password) then PasswordStrength(0, "None", "neutral", None)
    else
      var checks := ChecksOf(password.value);
      var strength := CountTrue(checks);
      PasswordStrength(strength, StrengthTable[strength].0, StrengthTable[strength].1, Some(checks))
  }

  /**
   * For a non-empty password each sub-check is what its pattern tests, and the
   * strength is the number of sub-checks that hold.
   */
  lemma PasswordChecksMeaning(p: string)
    requires p != ""
    ensures var r := CheckPasswordStrength(Some(p));
      && r.checks == Some(PasswordChecks(
           |p| >= 8,
           exists i | 0 <= i < |p| :: IsLowerAscii(p[i]),
           exists i | 0 <= i < |p| :: IsUpperAscii(p[i]),
           exists i | 0 <= i < |p| :: IsDigit(p[i]),
           exists i | 0 <= i < |p| :: IsSpecial(p[i])))
      && r.strength == CountTrue(r.checks.value)
  {
  }

  /**
   * Every character is a lower-case letter, a capital, a digit or special, so a
   * non-empty password scores at least 1 and is never labelled "Very Weak".
   */
  lemma NonEmptyPasswordScoresAtLeastOne(p: string)
    requires p != ""
    ensures var r := CheckPasswordStrength(Some(p));
      1 <= r.strength <= 5 && r.labelText != "Very Weak" && r.labelText != "None"
  {
    var c := p[0];
    if IsLowerAscii(c) { assert Contains(p, IsLowerAscii); }
    else if IsUpperAscii(c) { assert Contains(p, IsUpperAscii); }
    else if IsDigit(c) { assert Contains(p, IsDigit); }
    else { assert Contains(p, IsSpecial); }
  }

  /** 0 and 1 are "error", 2 and 3 "warning", 4 and 5 "success"; the label names the score. */
  lemma StrengthColours(password: Option<string>)
    requires !NoPassword(password)
    ensures var r := CheckPasswordStrength(password);
      && (r.color == "error" <==> r.strength <= 1)
      && (r.color == "warning" <==> 2 <= r.strength <= 3)
      && (r.color == "success" <==> 4 <= r.strength)
      && r.color != "neutral" && r.labelText != "None"
  {
  }

  lemma EmptyPasswordExample()
    ensures CheckPasswordStrength(Some("")).labelText == "None"
  {
  }

  /** Eight lower-case letters: the length and lower-case checks only. */
  lemma LowerCasePasswordExample()
    ensures CheckPasswordStrength(Some("abcdefgh")).strength == 2
    ensures CheckPasswordStrength(Some("abcdefgh")).labelText == "Fair"
  {
    var p := "abcdefgh";
    assert forall i | 0 <= i < |p| :: IsLowerAscii(p[i]);
    assert ChecksOf(p) == PasswordChecks(true, true, false, false, false);
  }

  /** A capital, lower-case letters, digits and a symbol: all five checks. */
  lemma MixedPasswordExample()
    ensures CheckPasswordStrength(Some("Abc12345!")).strength == 5
    ensures CheckPasswordStrength(Some("Abc12345!")).labelText == "Very Strong"
  {
    var p := "Abc12345!";
    assert IsUpperAscii(p[0]) && IsLowerAscii(p[1]) && IsDigit(p[3]) && IsSpecial(p[8]);
    assert ChecksOf(p) == PasswordChecks(true, true, true, true, true);
  }

  // ---------------------------------------------------------------------------
  // isRequired
  // ---------------------------------------------------------------------------

  /** A form value: JavaScript's `undefined`, `null`, or a string. */
  datatype Value = Undefined | Null | Str(text: string)

  function IsRequired(value: Value): (r: bool)
    ensures r <==> value.Str? && !AllWhitespace(value.text)
  {
    match value
    case Str(s) => |Trim(s)| > 0
    case _ => false
  }

  /** JavaScript truthiness of a value: a non-empty string. */
  predicate Truthy(value: Value) {
    value.Str? && value.text != ""
  }

  // ---------------------------------------------------------------------------
  // validateForm
  // ---------------------------------------------------------------------------

  /**
   * One field's rule. Absent options are `false`/`None`; as in the source every
   * option is tested for truthiness, so `Some("")` messages, `Some(0)` bounds and
   * a `Some("")` partner field behave as if absent.
   */
  datatype FieldRule = FieldRule(
    required: bool,
    requiredMessage: Option<string>,
    email: bool,
    minLength: Option<int>,
    maxLength: Option<int>,
    matchField: Option<string>,
    matchMessage: Option<string>,
    custom: Option<(Value, map<string, Value>) -> bool>,
    customMessage: Option<string>)

  datatype ValidationResult = ValidationResult(isValid: bool, errors: map<string, string>)

  /** `fields[name]`: a missing key reads as `undefined`. */
  function Lookup(fields: map<string, Value>, name: string): Value {
    if name in fields then fields[name] else Undefined
  }

  /** `option || fallback` for a message. */
  function OrDefault(message: Option<string>, fallback: string): (r: string)
    ensures message.Some? && message.value != "" ==> r == message.value
    ensures message.None? || message.value == "" ==> r == fallback
  {
    if message.Some? && message.value != "" then message.value else fallback
  }

  /** A bound is in force when it is present and not 0. */
  predicate Enabled(bound: Option<int>) {
    bound.Some? && bound.value != 0
  }

  /** The checks a rule can apply, in the order that decides which message wins. */
  datatype Check = Required | Email | MinLength | MaxLength | Match | Custom

  const Precedence: seq<Check> := [Required, Email, MinLength, MaxLength, Match, Custom]

  /** Whether check `c` of `rule` rejects `value`, judged on its own. */
  predicate Fails(c: Check, value: Value, rule: FieldRule, fields: map<string, Value>) {
    match c
    case Required => rule.required && !IsRequired(value)
    case Email => rule.email && Truthy(value) && !IsValidEmail(value.text)
    case MinLength => Enabled(rule.minLength) && Truthy(value) && |value.text| < rule.minLength.value
    case MaxLength => Enabled(rule.maxLength) && Truthy(value) && |value.text| > rule.maxLength.value
    case Match =>
      rule.matchField.Some? && rule.matchField.value != "" && value != Lookup(fields, rule.matchField.value)
    case Custom => rule.custom.Some? && !rule.custom.value(value, fields)
  }

  /** A bound as a template literal renders it (`undefined` never reaches a message: the check needs the bound). */
  function BoundText(bound: Option<int>): string {
    match bound
    case Some(n) => IntToString(n)
    case None => "undefined"
  }

  /** The message recorded when check `c` of `rule` fails. */
  function Message(c: Check, rule: FieldRule): string {
    match c
    case Required => OrDefault(rule.requiredMessage, "This field is required")
    case Email => "Please enter a valid email address"
    case MinLength => "Must be at least " + BoundText(rule.minLength) + " characters"
    case MaxLength => "Must be no more than " + BoundText(rule.maxLength) + " characters"
    case Match => OrDefault(rule.matchMessage, "Fields do not match")
    case Custom => OrDefault(rule.customMessage, "Invalid value")
  }

  /** The message of the first check in `checks` that fails, if any. */
  function FirstFailure(checks: seq<Check>, value: Value, rule: FieldRule, fields: map<string, Value>): Option<string> {
    if checks == [] then None
    else if Fails(checks[0], value, rule, fields) then Some(Message(checks[0], rule))
    else FirstFailure(checks[1..], value, rule, fields)
  }

  /** `checks[i]` fails and every check before it passes. */
  predicate FailsFirstAt(checks: seq<Check>, i: int, value: Value, rule: FieldRule, fields: map<string, Value>) {
    && 0 <= i < |checks|
    && Fails(checks[i], value, rule, fields)
    && forall j | 0 <= j < i :: !Fails(checks[j], value, rule, fields)
  }

  lemma {:induction false} FirstFailureIsFirst(checks: seq<Check>, value: Value, rule: FieldRule, fields: map<string, Value>)
    ensures FirstFailure(checks, value, rule, fields).None? <==>
      forall i | 0 <= i < |checks| :: !Fails(checks[i], value, rule, fields)
    ensures forall i | FailsFirstAt(checks, i, value, rule, fields) ::
      FirstFailure(checks, value, rule, fields) == Some(Message(checks[i], rule))
  {
    if checks != [] {
      FirstFailureIsFirst(checks[1..], value, rule, fields);
      assert forall i | 1 <= i < |checks| :: checks[i] == checks[1..][i - 1];
      forall i | FailsFirstAt(checks, i, value, rule, fields)
        ensures FirstFailure(checks, value, rule, fields) == Some(Message(checks[i], rule))
      {
        if i > 0 { assert FailsFirstAt(checks[1..], i - 1, value, rule, fields); }
      }
    }
  }

  lemma {:induction false} FirstFailureAt(checks: seq<Check>, i: nat, value: Value, rule: FieldRule, fields: map<string, Value>)
    requires FailsFirstAt(checks, i, value, rule, fields)
    ensures FirstFailure(checks, value, rule, fields) == Some(Message(checks[i], rule))
  {
    if i > 0 {
      assert forall j | 0 <= j < i - 1 :: checks[1..][j] == checks[j + 1];
      assert FailsFirstAt(checks[1..], i - 1, value, rule, fields);
      FirstFailureAt(checks[1..], i - 1, value, rule, fields);
    }
  }

  /** The one message a field gets, or `None` when it passes. */
  function FieldError(value: Value, rule: FieldRule, fields: map<string, Value>): Option<string> {
    FirstFailure(Precedence, value, rule, fields)
  }

  /**
   * A field fails exactly when one of its checks fails, and then its message is
   * that of the first failing check in the order required, email, minLength,
   * maxLength, match, custom.
   */
  lemma FieldErrorPrecedence(value: Value, rule: FieldRule, fields: map<string, Value>)
    ensures FieldError(value, rule, fields).None? <==> forall c: Check :: !Fails(c, value, rule, fields)
    ensures forall i | FailsFirstAt(Precedence, i, value, rule, fields) ::
      FieldError(value, rule, fields) == Some(Message(Precedence[i], rule))
    ensures FieldError(value, rule, fields).Some? ==>
      exists i :: FailsFirstAt(Precedence, i, value, rule, fields)
  {
    FirstFailureIsFirst(Precedence, value, rule, fields);
    forall c: Check
      ensures (forall i | 0 <= i < |Precedence| :: !Fails(Precedence[i], value, rule, fields)) ==> !Fails(c, value, rule, fields)
    {
      match c
      case Required => assert Precedence[0] == c;
      case Email => assert Precedence[1] == c;
      case MinLength => assert Precedence[2] == c;
      case MaxLength => assert Precedence[3] == c;
      case Match => assert Precedence[4] == c;
      case Custom => assert Precedence[5] == c;
    }
    if FieldError(value, rule, fields).Some? {
      var i := FirstFailingIndex(Precedence, value, rule, fields);
    }
  }

  /** The position of the first failing check, when some check fails. */
  lemma {:induction false} FirstFailingIndex(checks: seq<Check>, value: Value, rule: FieldRule, fields: map<string, Value>)
    returns (i: nat)
    requires exists k | 0 <= k < |checks| :: Fails(checks[k], value, rule, fields)
    ensures FailsFirstAt(checks, i, value, rule, fields)
  {
    if Fails(checks[0], value, rule, fields) {
      i := 0;
    } else {
      var k :| 0 <= k < |checks| && Fails(checks[k], value, rule, fields);
      assert checks[1..][k - 1] == checks[k];
      var j := FirstFailingIndex(checks[1..], value, rule, fields);
      i := j + 1;
      assert forall m | 1 <= m <= j + 1 :: checks[m] == checks[1..][m - 1];
    }
  }

  /** A blank value fails a required rule with the required message, whatever else the rule says. */
  lemma BlankRequiredField(value: Value, rule: FieldRule, fields: map<string, Value>)
    requires rule.required
    requires value.Str? ==> AllWhitespace(value.text)
    ensures FieldError(value, rule, fields) == Some(OrDefault(rule.requiredMessage, "This field is required"))
  {
    FieldErrorPrecedence(value, rule, fields);
    assert FailsFirstAt(Precedence, 0, value, rule, fields);
  }

  /**
   * The `value &&` guards: an empty or missing value never gets an e-mail or a
   * length message; only the required, match or custom check can reject it.
   */
  lemma EmptyValueSkipsFormatChecks(value: Value, rule: FieldRule, fields: map<string, Value>)
    requires !Truthy(value)
    ensures !Fails(Email, value, rule, fields) && !Fails(MinLength, value, rule, fields)
      && !Fails(MaxLength, value, rule, fields)
    ensures FieldError(value, rule, fields).Some? ==>
      FieldError(value, rule, fields).value in {Message(Required, rule), Message(Match, rule), Message(Custom, rule)}
  {
    FieldErrorPrecedence(value, rule, fields);
    if FieldError(value, rule, fields).Some? {
      var i :| FailsFirstAt(Precedence, i, value, rule, fields);
    }
  }

  /**
   * The match check has no emptiness guard: an optional field left empty still
   * fails against a partner field that holds something else.
   */
  lemma EmptyOptionalFieldMismatch(rule: FieldRule, fields: map<string, Value>, partner: string)
    requires !rule.required && rule.matchField == Some(partner) && partner != ""
    requires Lookup(fields, partner) != Str("")
    ensures FieldError(Str(""), rule, fields) == Some(OrDefault(rule.matchMessage, "Fields do not match"))
  {
    FieldErrorPrecedence(Str(""), rule, fields);
    assert FailsFirstAt(Precedence, 4, Str(""), rule, fields);
  }

  /** An optional field left empty, with no match or custom check, is valid. */
  lemma EmptyOptionalFieldPasses(value: Value, rule: FieldRule, fields: map<string, Value>)
    requires !Truthy(value) && !rule.required
    requires rule.matchField.None? && rule.custom.None?
    ensures FieldError(value, rule, fields) == None
  {
    FieldErrorPrecedence(value, rule, fields);
  }

  /**
   * The length checks use the untrimmed length, are off when the bound is absent
   * or 0, let a value of exactly the bound's length through, and put the bound's
   * decimal rendering in their message, from which it reads back.
   */
  lemma LengthChecks(value: Value, rule: FieldRule, fields: map<string, Value>)
    ensures !Enabled(rule.minLength) ==> !Fails(MinLength, value, rule, fields)
    ensures !Enabled(rule.maxLength) ==> !Fails(MaxLength, value, rule, fields)
    ensures value.Str? && rule.minLength == Some(|value.text|) ==> !Fails(MinLength, value, rule, fields)
    ensures value.Str? && rule.maxLength == Some(|value.text|) ==> !Fails(MaxLength, value, rule, fields)
    ensures Fails(MinLength, value, rule, fields) ==>
      exists t :: Message(MinLength, rule) == "Must be at least " + t + " characters"
        && ParseInt(t) == Some(rule.minLength.value)
    ensures Fails(MaxLength, value, rule, fields) ==>
      exists t :: Message(MaxLength, rule) == "Must be no more than " + t + " characters"
        && ParseInt(t) == Some(rule.maxLength.value)
  {
    if rule.minLength.Some? { IntToStringRoundTrip(rule.minLength.value); }
    if rule.maxLength.Some? { IntToStringRoundTrip(rule.maxLength.value); }
  }

  /** One step of `FirstFailure`: the head check decides, or the rest does. */
  lemma FirstFailureCons(c: Check, rest: seq<Check>, value: Value, rule: FieldRule, fields: map<string, Value>)
    ensures FirstFailure([c] + rest, value, rule, fields) ==
      if Fails(c, value, rule, fields) then Some(Message(c, rule)) else FirstFailure(rest, value, rule, fields)
  {
    assert ([c] + rest)[1..] == rest;
  }

  /** `FieldError` spelled out as the chain of checks with early exits. */
  lemma FieldErrorChain(value: Value, rule: FieldRule, fields: map<string, Value>)
    ensures FieldError(value, rule, fields) ==
      if Fails(Required, value, rule, fields) then Some(Message(Required, rule))
      else if Fails(Email, value, rule, fields) then Some(Message(Email, rule))
      else if Fails(MinLength, value, rule, fields) then Some(Message(MinLength, rule))
      else if Fails(MaxLength, value, rule, fields) then Some(Message(MaxLength, rule))
      else if Fails(Match, value, rule, fields) then Some(Message(Match, rule))
      else if Fails(Custom, value, rule, fields) then Some(Message(Custom, rule))
      else None
  {
    var v, r, f := value, rule, fields;
    assert Precedence == [Required] + ([Email] + ([MinLength] + ([MaxLength] + ([Match] + ([Custom] + [])))));
    FirstFailureCons(Custom, [], v, r, f);
    FirstFailureCons(Match, [Custom], v, r, f);
    FirstFailureCons(MaxLength, [Match, Custom], v, r, f);
    FirstFailureCons(MinLength, [MaxLength, Match, Custom], v, r, f);
    FirstFailureCons(Email, [MinLength, MaxLength, Match, Custom], v, r, f);
    FirstFailureCons(Required, [Email, MinLength, MaxLength, Match, Custom], v, r, f);
  }

  /** Adding one ruled field to the processed set adds its error, if it has one. */
  lemma ErrorsForInsert(fields: map<string, Value>, rules: map<string, FieldRule>, done: set<string>, name: string)
    requires name in rules && name !in done
    ensures ErrorsFor(fields, rules, done + {name}) ==
      match FieldError(Lookup(fields, name), rules[name], fields)
      case Some(m) => ErrorsFor(fields, rules, done)[name := m]
      case None => ErrorsFor(fields, rules, done)
  {
  }

  /** The errors recorded for the ruled fields among `names`. */
  function ErrorsFor(fields: map<string, Value>, rules: map<string, FieldRule>, names: set<string>): map<string, string> {
    map name | name in names && name in rules && FieldError(Lookup(fields, name), rules[name], fields).Some? ::
      FieldError(Lookup(fields, name), rules[name], fields).value
  }

  /**
   * The per-field callback of `validateForm`: the checks in source order, each
   * returning early with its message; the result is the first failing check's.
   */
  method CheckField(value: Value, rule: FieldRule, fields: map<string, Value>) returns (message: Option<string>)
    ensures message == FieldError(value, rule, fields)
  {
    FieldErrorChain(value, rule, fields);
    if rule.required && !IsRequired(value) {
      return Some(OrDefault(rule.requiredMessage, "This field is required"));
    }
    if rule.email && Truthy(value) && !IsValidEmail(value.text) {
      return Some("Please enter a valid email address");
    }
    if Enabled(rule.minLength) && Truthy(value) && |value.text| < rule.minLength.value {
      return Some("Must be at least " + IntToString(rule.minLength.value) + " characters");
    }
    if Enabled(rule.maxLength) && Truthy(value) && |value.text| > rule.maxLength.value {
      return Some("Must be no more than " + IntToString(rule.maxLength.value) + " characters");
    }
    if rule.matchField.Some? && rule.matchField.value != "" && value != Lookup(fields, rule.matchField.value) {
      return Some(OrDefault(rule.matchMessage, "Fields do not match"));
    }
    if rule.custom.Some? && !rule.custom.value(value, fields) {
      return Some(OrDefault(rule.customMessage, "Invalid value"));
    }
    return None;
  }

  /**
   * `validateForm`: every ruled field gets the message of its first failing check
   * and no other field gets one; the form is valid exactly when no error was
   * recorded, that is, when every ruled field passes every check.
   */
  method ValidateForm(fields: map<string, Value>, rules: map<string, FieldRule>) returns (result: ValidationResult)
    ensures result.errors == ErrorsFor(fields, rules, rules.Keys)
    ensures result.errors.Keys <= rules.Keys
    ensures result.isValid <==> result.errors == map[]
    ensures rules == map[] ==> result.isValid
    ensures result.isValid <==>
      forall name | name in rules :: FieldError(Lookup(fields, name), rules[name], fields).None?
  {
    var errors: map<string, string> := map[];
    var pending := rules.Keys;
    while pending != {}
      invariant pending <= rules.Keys
      invariant errors == ErrorsFor(fields, rules, rules.Keys - pending)
      decreases pending
    {
      var name :| name in pending;
      var message := CheckField(Lookup(fields, name), rules[name], fields);
      if message.Some? {
        errors := errors[name := message.value];
      }
      ErrorsForInsert(fields, rules, rules.Keys - pending, name);
      assert rules.Keys - (pending - {name}) == (rules.Keys - pending) + {name};
      pending := pending - {name};
    }
    assert rules.Keys - pending == rules.Keys;
    result := ValidationResult(|errors| == 0, errors);
    forall name | name in rules ensures FieldError(Lookup(fields, name), rules[name], fields).None? <== errors == map[] {
      if errors == map[] {
        assert name !in errors;
      }
    }
  }

  /** A rule with no option set. */
  const NoRule := FieldRule(false, None, false, None, None, None, None, None, None)

  /**
   * The registration form's confirmation rule:
   * `{ required: true, match: "password", matchMessage: "Passwords do not match" }`.
   */
  const ConfirmRule := FieldRule(true, None, false, None, None, Some("password"), Some("Passwords do not match"), None, None)

  /** A form with one ruled field records that field's error and nothing else. */
  lemma SingleRuleErrors(fields: map<string, Value>, name: string, rule: FieldRule)
    ensures var rules := map[name := rule];
      ErrorsFor(fields, rules, rules.Keys) ==
        match FieldError(Lookup(fields, name), rule, fields)
        case Some(m) => map[name := m]
        case None => map[]
  {
    var rules := map[name := rule];
    assert rules.Keys == {} + {name};
    ErrorsForInsert(fields, rules, {}, name);
    assert ErrorsFor(fields, rules, {}) == map[];
  }

  /**
   * Under the confirmation rule a blank or missing confirmation is reported as
   * missing (required comes first), a present one that differs from the
   * password gets the rule's own message, and an equal one passes.
   */
  lemma ConfirmRuleError(fields: map<string, Value>)
    ensures var confirm := Lookup(fields, "confirmPassword");
      FieldError(confirm, ConfirmRule, fields) ==
        if !IsRequired(confirm) then Some("This field is required")
        else if confirm != Lookup(fields, "password") then Some("Passwords do not match")
        else None
  {
    var confirm := Lookup(fields, "confirmPassword");
    assert !Fails(Email, confirm, ConfirmRule, fields) && !Fails(MinLength, confirm, ConfirmRule, fields);
    assert !Fails(MaxLength, confirm, ConfirmRule, fields) && !Fails(Custom, confirm, ConfirmRule, fields);
    assert Fails(Required, confirm, ConfirmRule, fields) <==> !IsRequired(confirm);
    assert Fails(Match, confirm, ConfirmRule, fields) <==> confirm != Lookup(fields, "password");
    assert Message(Match, ConfirmRule) == "Passwords do not match";
    FieldErrorChain(confirm, ConfirmRule, fields);
  }

  /** Under the registration form's rule, a confirmation equal to the password passes. */
  lemma ConfirmMatches()
    ensures var rules := map["confirmPassword" := ConfirmRule];
      ErrorsFor(map["password" := Str("a"), "confirmPassword" := Str("a")], rules, rules.Keys) == map[]
  {
    var fields := map["password" := Str("a"), "confirmPassword" := Str("a")];
    assert Lookup(fields, "confirmPassword") == Lookup(fields, "password") == Str("a");
    assert IsRequired(Str("a")) by { assert !IsWhitespace("a"[0]); }
    ConfirmRuleError(fields);
    SingleRuleErrors(fields, "confirmPassword", ConfirmRule);
  }

  /** Under the registration form's rule, a different confirmation gets the rule's own message. */
  lemma ConfirmDiffers()
    ensures var rules := map["confirmPassword" := ConfirmRule];
      ErrorsFor(map["password" := Str("a"), "confirmPassword" := Str("b")], rules, rules.Keys)
        == map["confirmPassword" := "Passwords do not match"]
  {
    var fields := map["password" := Str("a"), "confirmPassword" := Str("b")];
    assert Lookup(fields, "confirmPassword") == Str("b") != Lookup(fields, "password");
    assert IsRequired(Str("b")) by { assert !IsWhitespace("b"[0]); }
    ConfirmRuleError(fields);
    SingleRuleErrors(fields, "confirmPassword", ConfirmRule);
  }

  /**
   * A rule with only a custom predicate: the predicate is applied to the value
   * and to the whole field map, and its rejection carries the custom message or
   * the default "Invalid value".
   */
  lemma CustomRuleOnly(value: Value, fields: map<string, Value>, pred: (Value, map<string, Value>) -> bool, message: Option<string>)
    ensures var rule := NoRule.(custom := Some(pred), customMessage := message);
      FieldError(value, rule, fields) ==
        if pred(value, fields) then None else Some(OrDefault(message, "Invalid value"))
  {
    FieldErrorChain(value, NoRule.(custom := Some(pred), customMessage := message), fields);
  }

  /** A custom predicate that reads another field: the value must equal the "password" field. */
  lemma CustomReadsOtherFields(fields: map<string, Value>)
    ensures var rule := NoRule.(custom := Some((v, fs) => v == Lookup(fs, "password")));
      FieldError(Lookup(fields, "confirm"), rule, fields) ==
        if Lookup(fields, "confirm") == Lookup(fields, "password") then None else Some("Invalid value")
  {
    CustomRuleOnly(Lookup(fields, "confirm"), fields, (v, fs) => v == Lookup(fs, "password"), None);
  }

  /** The reset-password form's one-time code rule: required, length exactly 6. */
  const OtpRule := FieldRule(true, None, false, Some(6), Some(6), None, None, None, None)

  /** Under that rule a blank code is reported missing. */
  lemma OtpBlank(code: string)
    requires AllWhitespace(code)
    ensures FieldError(Str(code), OtpRule, map[]) == Some("This field is required")
  {
    BlankRequiredField(Str(code), OtpRule, map[]);
  }

  /** The rule's two length messages, with the bound rendered as "6". */
  lemma OtpMessages()
    ensures Message(MinLength, OtpRule) == "Must be at least 6 characters"
    ensures Message(MaxLength, OtpRule) == "Must be no more than 6 characters"
  {
    assert IntToString(6) == "6";
  }

  /** A non-blank code shorter than 6 characters gets the minimum-length message. */
  lemma OtpTooShort(code: string)
    requires !AllWhitespace(code) && |code| < 6
    ensures FieldError(Str(code), OtpRule, map[]) == Some("Must be at least 6 characters")
  {
    var v: Value, f: map<string, Value> := Str(code), map[];
    assert code != "";
    assert FailsFirstAt(Precedence, 2, v, OtpRule, f);
    FirstFailureAt(Precedence, 2, v, OtpRule, f);
    OtpMessages();
  }

  /** A code longer than 6 characters gets the maximum-length message. */
  lemma OtpTooLong(code: string)
    requires !AllWhitespace(code) && |code| > 6
    ensures FieldError(Str(code), OtpRule, map[]) == Some("Must be no more than 6 characters")
  {
    var v: Value, f: map<string, Value> := Str(code), map[];
    assert code != "";
    assert FailsFirstAt(Precedence, 3, v, OtpRule, f);
    FirstFailureAt(Precedence, 3, v, OtpRule, f);
    OtpMessages();
  }

  /** A non-blank code of exactly 6 characters passes. */
  lemma OtpExact(code: string)
    requires !AllWhitespace(code) && |code| == 6
    ensures FieldError(Str(code), OtpRule, map[]) == None
  {
    FieldErrorPrecedence(Str(code), OtpRule, map[]);
  }
}
