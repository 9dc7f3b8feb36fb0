/** The display formatters for names, e-mail addresses and long text. */
module Formatters {
  import opened Wrappers
  import opened Text

  // ---------------------------------------------------------------------------
  // formatFullName
  // ---------------------------------------------------------------------------

  /** `name?.trim() || ""`. */
  function TrimmedOrEmpty(name: Option<string>): string {
    match name
    case None => ""
    case Some(s) => Trim(s)
  }

  /** A name that is absent or whitespace only. */
  predicate IsBlank(name: Option<string>) {
    name.None? || AllWhitespace(name.value)
  }

  const UnknownUser := "Unknown User"

  function FormatFullName(firstName: Option<string>, lastName: Option<string>): (r: string)
    ensures r != "" && IsTrimmed(r)
  {
    var first := TrimmedOrEmpty(firstName);
    var last := TrimmedOrEmpty(lastName);
    var joined := Trim(first + " " + last);
    if joined == "" then UnknownUser else joined
  }

  /** Joining two trimmed parts with one space and trimming leaves no stray space. */
  lemma TrimJoined(first: string, last: string)
    requires IsTrimmed(first) && IsTrimmed(last)
    ensures Trim(first + " " + last) ==
      if first == "" then last else if last == "" then first else first + " " + last
  {
    var ws := " ";
    assert AllWhitespace(ws) && AllWhitespace([]);
    var joined := first + ws + last;
    if first == "" {
      assert joined == ws + last + [];
      TrimOf(ws, last, []);
    } else if last == "" {
      assert joined == [] + first + ws;
      TrimOf([], first, ws);
    } else {
      assert joined[0] == first[0] && joined[|joined| - 1] == last[|last| - 1];
      assert joined == [] + joined + [];
      TrimOf([], joined, []);
    }
  }

  /**
   * The fallback is used exactly when both parts are blank; otherwise the
   * trimmed non-blank parts are joined by one space, with no stray space when
   * only one of them is there.
   */
  lemma FormatFullNameCases(firstName: Option<string>, lastName: Option<string>)
    ensures IsBlank(firstName) && IsBlank(lastName) ==> FormatFullName(firstName, lastName) == UnknownUser
    ensures !IsBlank(firstName) && IsBlank(lastName) ==> FormatFullName(firstName, lastName) == Trim(firstName.value)
    ensures IsBlank(firstName) && !IsBlank(lastName) ==> FormatFullName(firstName, lastName) == Trim(lastName.value)
    ensures !IsBlank(firstName) && !IsBlank(lastName) ==>
      FormatFullName(firstName, lastName) == Trim(firstName.value) + " " + Trim(lastName.value)
  {
    var first := TrimmedOrEmpty(firstName);
    var last := TrimmedOrEmpty(lastName);
    assert first == "" <==> IsBlank(firstName);
    assert last == "" <==> IsBlank(lastName);
    TrimJoined(first, last);
  }

  // ---------------------------------------------------------------------------
  // getInitials
  // ---------------------------------------------------------------------------

  /** `name?.charAt(0)?.toUpperCase() || ""`. */
  function Initial(name: Option<string>): (r: string)
    ensures |r| <= 1
  {
    match name
    case None => ""
    case Some(s) => if s == "" then "" else [ToUpperAscii(s[0])]
  }

  /** A name with no first character: absent or empty. */
  predicate NoInitial(name: Option<string>) {
    name.None? || name.value == ""
  }

  function GetInitials(firstName: Option<string>, lastName: Option<string>): (r: string)
    ensures 1 <= |r| <= 2
  {
    var joined := Initial(firstName) + Initial(lastName);
    if joined == "" then "?" else joined
  }

  /**
   * "?" when neither name has a first character; otherwise the upper-cased
   * first character of each name that has one, first name first.
   */
  lemma GetInitialsCases(firstName: Option<string>, lastName: Option<string>)
    ensures var r := GetInitials(firstName, lastName);
      && (NoInitial(firstName) && NoInitial(lastName) ==> r == "?")
      && (!NoInitial(firstName) && NoInitial(lastName) ==> r == [ToUpperAscii(firstName.value[0])])
      && (NoInitial(firstName) && !NoInitial(lastName) ==> r == [ToUpperAscii(lastName.value[0])])
      && (!NoInitial(firstName) && !NoInitial(lastName) ==>
            r == [ToUpperAscii(firstName.value[0]), ToUpperAscii(lastName.value[0])])
      && (!NoInitial(firstName) || !NoInitial(lastName) ==> forall i | 0 <= i < |r| :: !IsLowerAscii(r[i]))
  {
  }

  /** Names are not trimmed first: a leading space is kept as the initial. */
  lemma InitialsKeepLeadingSpace()
    ensures GetInitials(Some(" ann"), Some("lee")) == " L"
  {
  }

  // ---------------------------------------------------------------------------
  // maskEmail
  // ---------------------------------------------------------------------------

  function Min(a: int, b: int): (m: int)
    ensures m <= a && m <= b && (m == a || m == b)
  {
    if a <= b then a else b
  }

  function MaskEmail(email: Option<string>): (r: Option<string>)
    ensures email.None? ==> r.None?
  {
    match email
    case None => None
    case Some(s) =>
      if s == "" || '@' !in s then email
      else
        var parts := Split(s, '@');
        var username := parts[0];
        var domain := parts[1];
        var visibleChars := Min(3, |username| / 2);
        var masked := username[..visibleChars] + "***";
        Some(masked + "@" + domain)
  }

  /** An absent or empty address, or one without '@', is returned as it is. */
  lemma MaskEmailUnchanged(email: Option<string>)
    requires email.None? || email.value == "" || '@' !in email.value
    ensures MaskEmail(email) == email
  {
  }

  /** The text before the first '@' of an address that has one. */
  function UserName(s: string): string
    requires '@' in s
  {
    s[..IndexOf(s, '@').value]
  }

  /** The text between the first and the second '@' (or the end) of an address that has one. */
  function DomainName(s: string): (d: string)
    requires '@' in s
    ensures '@' !in d
  {
    FirstPiece(s[IndexOf(s, '@').value + 1..], '@')
  }

  /**
   * Otherwise the result is the first min(3, floor(|user|/2)) characters of the
   * text before the first '@', then "***@", then the text between the first and
   * the second '@' (anything after a second '@' is dropped).
   */
  lemma MaskEmailShape(s: string)
    requires '@' in s
    ensures MaskEmail(Some(s)) == Some(UserName(s)[..Min(3, |UserName(s)| / 2)] + "***@" + DomainName(s))
  {
    var parts := Split(s, '@');
    assert parts[1] == parts[1..][0];
    var user, domain := UserName(s), DomainName(s);
    var visible := user[..Min(3, |user| / 2)];
    assert visible + "***" + "@" + domain == visible + "***@" + domain;
  }

  /**
   * The mask shows at most three characters of the user name and at most half
   * of it, so a user name of length at most one is hidden completely.
   */
  lemma MaskEmailRevealsLittle(s: string)
    requires '@' in s
    ensures exists v | 0 <= v <= 3 && 2 * v <= |UserName(s)| ::
      MaskEmail(Some(s)) == Some(UserName(s)[..v] + "***@" + DomainName(s))
    ensures |UserName(s)| <= 1 ==> MaskEmail(Some(s)) == Some("***@" + DomainName(s))
  {
    MaskEmailShape(s);
    var v := Min(3, |UserName(s)| / 2);
    assert 0 <= v <= 3 && 2 * v <= |UserName(s)|;
    if |UserName(s)| <= 1 {
      assert v == 0;
      assert UserName(s)[..v] + "***@" + DomainName(s) == "***@" + DomainName(s);
    }
  }

  // ---------------------------------------------------------------------------
  // truncate
  // ---------------------------------------------------------------------------

  /** The `maxLength` used when the caller gives none. */
  const DefaultMaxLength := 100

  function Truncate(text: Option<string>, maxLength: int): (r: Option<string>)
    ensures text.None? ==> r.None?
  {
    match text
    case None => None
    case Some(s) =>
      if s == "" || |s| <= maxLength then text
      else
        // `substring(0, maxLength)` clamps a negative end to 0.
        var end := if maxLength < 0 then 0 else maxLength;
        Some(Trim(s[..end]) + "...")
  }

  /** `truncate(text)` with the default bound: text of at most 100 characters is kept, longer text is cut. */
  function TruncateDefault(text: Option<string>): (r: Option<string>)
    ensures text.None? || |text.value| <= DefaultMaxLength ==> r == text
    ensures text.Some? && |text.value| > DefaultMaxLength ==>
      r == Some(Trim(text.value[..DefaultMaxLength]) + "...") && |r.value| <= DefaultMaxLength + 3
  {
    Truncate(text, DefaultMaxLength)
  }

  /** Absent, empty or short enough text is returned as it is. */
  lemma TruncateUnchanged(text: Option<string>, maxLength: int)
    requires text.None? || text.value == "" || |text.value| <= maxLength
    ensures Truncate(text, maxLength) == text
  {
  }

  /**
   * Longer text becomes its first `maxLength` characters, trimmed at both ends,
   * followed by "..."; the result ends with "..." and is at most three
   * characters longer than `maxLength`.
   */
  lemma TruncateShape(s: string, maxLength: int)
    requires s != "" && |s| > maxLength
    ensures var end := if maxLength < 0 then 0 else maxLength;
      Truncate(Some(s), maxLength) == Some(Trim(s[..end]) + "...")
    ensures var r := Truncate(Some(s), maxLength).value;
      |r| >= 3 && r[|r| - 3..] == "..." && IsTrimmed(r[..|r| - 3])
    ensures |Truncate(Some(s), maxLength).value| <= (if maxLength < 0 then 0 else maxLength) + 3
    ensures maxLength <= 0 ==> Truncate(Some(s), maxLength) == Some("...")
  {
    var end := if maxLength < 0 then 0 else maxLength;
    var kept := Trim(s[..end]);
    var r := kept + "...";
    assert r[..|r| - 3] == kept && r[|r| - 3..] == "...";
    if maxLength <= 0 {
      assert s[..end] == [];
    }
  }
}
