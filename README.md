# Eventify client validation and formatting utilities in Dafny

This project models the two utility modules of the Eventify web client that hold real logic:

- The form-validation helpers in `client/src/lib/utils/validation.js`:
  - `isValidEmail`, the permissive e-mail shape check;
  - `checkPasswordStrength`, the five-check password meter;
  - `isRequired`, the presence test;
  - `validateForm`, the rule-driven form validator.
- The display formatters in `client/src/lib/utils/formatters.js`: `formatFullName`, `getInitials`, `maskEmail` and `truncate`.

The project has four modules, one file each:

- `Wrappers` (`wrappers.dfy`) holds `Option`.
- `Text` (`text.dfy`) holds the JavaScript string primitives the utilities use:
  - the ECMAScript whitespace set, which `\s` and `trim` share;
  - `trim`;
  - `indexOf` for one character (`includes` is Dafny's `in`);
  - `split` on one character;
  - ASCII upper-casing;
  - the decimal rendering of an integer inside a template literal.
- `Validation` (`validation.dfy`) and `Formatters` (`formatters.dfy`) follow the two source files.

How JavaScript values are represented:

- In `validateForm`, a field value is `Value = Undefined | Null | Str(text)`. The match check compares with `!==`, which tells `null` from `undefined`.
- The formatters take `Option<string>`. There, `undefined` and `null` behave the same under `?.` and `!x`.
- Every `x || fallback` and every `value &&` guard is JavaScript truthiness:
  - an empty message falls back to the default;
  - a bound of `0` switches its check off;
  - an empty value skips the guarded checks.

The e-mail check:

- `isValidEmail` is a deterministic automaton (`Step`, `Run`) for `^[^\s@]+@[^\s@]+\.[^\s@]+$`.
- It is proved equal to the pattern's language, written literally as `EmailRegex`.
- It is also proved equal to the L@D description.

The form validator:

- `validateForm` is a method. It loops over the rule keys not yet processed and builds the `errors` map.
- The per-field callback is the method `CheckField`. It runs the source's chain of checks with early returns.
- Both are proved against the independent specification `FieldError`. That function takes, out of the fixed precedence list, the message of the first check that fails.
- Two rules from the application's forms appear as worked examples: the registration page's confirmation rule and the reset-password page's one-time-code rule. The other fields of those forms are not modelled.

## Model

| member | source | states |
|---|---|---|
| Text.Trim | client/src/lib/utils/validation.js:37 | the result has no whitespace at either end, is no longer than the input, and is empty exactly when the input is all whitespace |
| Text.TrimStart | client/src/lib/utils/validation.js:37 | the result is a suffix of the input, only whitespace was dropped, and it does not start with whitespace |
| Text.TrimEnd | client/src/lib/utils/validation.js:37 | the result is a prefix of the input, only whitespace was dropped, and it does not end with whitespace |
| Text.TrimStartOf | client/src/lib/utils/validation.js:37 | dropping the leading whitespace of whitespace followed by a core that does not start with whitespace leaves that core |
| Text.TrimEndOf | client/src/lib/utils/validation.js:37 | dropping the trailing whitespace of a core followed by whitespace leaves that core |
| Text.TrimOf | client/src/lib/utils/formatters.js:61-63 | trimming whitespace, then a trimmed core, then whitespace gives exactly the core (the reference description of `trim`) |
| Text.TrimIdempotent | client/src/lib/utils/formatters.js:63 | trimming twice is trimming once |
| Text.IndexOf | client/src/lib/utils/formatters.js:76 | `None` exactly when the character is absent; otherwise the position holds it and no earlier position does |
| Text.FirstPiece | client/src/lib/utils/formatters.js:76 | the text before the first separator contains no separator |
| Text.Split | client/src/lib/utils/formatters.js:76 | at least one piece, no piece holds the separator, joining the pieces with the separator gives the input back, there are two or more pieces exactly when the separator occurs, the first piece is the text before the first separator and the rest is the split of the text after it |
| Text.SplitJoin | client/src/lib/utils/formatters.js:76 | splitting separator-free pieces joined by the separator gives the pieces back |
| Text.ToUpperAscii | client/src/lib/utils/formatters.js:67-68 | a lower-case ASCII letter becomes the capital at the same alphabet position; every other character is kept; the result is never a lower-case letter |
| Text.NatToDecimal | client/src/lib/utils/validation.js:73 | the rendering is a non-empty run of digits with no leading zero unless the number is 0 |
| Text.NatToDecimalValue | client/src/lib/utils/validation.js:73 | the digits read back as the number |
| Text.IntToStringRoundTrip | client/src/lib/utils/validation.js:73 | an interpolated integer, sign included, reads back as that integer |
| Validation.IsValidEmailShape | client/src/lib/utils/validation.js:2-5 | accepted exactly when the string is L@D: L non-empty without whitespace or '@'; D without whitespace or '@' and with a dot that is neither its first nor its last character |
| Validation.IsValidEmailMatchesRegex | client/src/lib/utils/validation.js:3-4 | the automaton accepts exactly the language of the source's pattern |
| Validation.RunIsClassify | client/src/lib/utils/validation.js:3-4 | the automaton's state after any input is the state `Classify` describes without running it |
| Validation.ClassifyStep | client/src/lib/utils/validation.js:3 | reading one more character moves `Classify` as a `Step` of the automaton does |
| Validation.AcceptedHasShape | client/src/lib/utils/validation.js:3-4 | an accepted address splits at its first '@' into a valid local part and a valid domain part |
| Validation.ShapeIsAccepted | client/src/lib/utils/validation.js:3-4 | a valid local part, an '@' and a valid domain part make an accepted address |
| Validation.RegexHasShape | client/src/lib/utils/validation.js:3 | every string of the pattern's language is L@D |
| Validation.ShapeIsRegex | client/src/lib/utils/validation.js:3 | every L@D string is in the pattern's language |
| Validation.ValidEmailHasOneAt | client/src/lib/utils/validation.js:3-4 | an accepted address holds exactly one '@' |
| Validation.EmailSeveralDots | client/src/lib/utils/validation.js:3 | "a@b.c.d" and "a@.b.c" are accepted: several dots are allowed, and so is a leading dot in the domain |
| Validation.EmailEdgeDots | client/src/lib/utils/validation.js:3 | "a@.bc" and "a@bc." are rejected: the only dot opens or closes the domain |
| Validation.Contains | client/src/lib/utils/validation.js:14-17 | `/[class]/.test(s)` is true exactly when some character of `s` is in the class |
| Validation.CountTrue | client/src/lib/utils/validation.js:20 | counting the true checks gives at most 5 |
| Validation.CheckPasswordStrength | client/src/lib/utils/validation.js:8-31 | an absent or empty password gives strength 0, "None", "neutral" and no checks; otherwise the checks are present, the strength is at most 5, and label and colour are the table's entry for the strength |
| Validation.PasswordChecksMeaning | client/src/lib/utils/validation.js:12-20 | for a non-empty password the five checks are: at least 8 characters, some a-z, some A-Z, some 0-9, some other character; the strength counts the true ones |
| Validation.NonEmptyPasswordScoresAtLeastOne | client/src/lib/utils/validation.js:14-17 | a non-empty password scores 1 to 5 and is never labelled "Very Weak" or "None" |
| Validation.StrengthColours | client/src/lib/utils/validation.js:22-29 | for a non-empty password: "error" exactly for strength 0-1, "warning" for 2-3, "success" for 4-5; never "neutral" or "None" |
| Validation.EmptyPasswordExample | client/src/lib/utils/validation.js:9 | the empty password is labelled "None" |
| Validation.LowerCasePasswordExample | client/src/lib/utils/validation.js:12-31 | "abcdefgh" scores 2, "Fair" |
| Validation.MixedPasswordExample | client/src/lib/utils/validation.js:12-31 | "Abc12345!" scores 5, "Very Strong" |
| Validation.IsRequired | client/src/lib/utils/validation.js:35-40 | true exactly for a string that is not all whitespace; false for `undefined` and `null` |
| Validation.OrDefault | client/src/lib/utils/validation.js:63 | a non-empty override wins; an absent or empty one falls back to the default |
| Validation.FirstFailureIsFirst | client/src/lib/utils/validation.js:62-90 | no message exactly when no listed check fails; when check i fails and none before it does, the message is check i's |
| Validation.FirstFailureAt | client/src/lib/utils/validation.js:62-90 | the message is that of the check that fails first |
| Validation.FirstFailingIndex | client/src/lib/utils/validation.js:62-90 | when some check fails there is a position where the first failure happens |
| Validation.FieldErrorPrecedence | client/src/lib/utils/validation.js:62-90 | a field passes exactly when each of the six checks passes, and a failing field gets exactly the message of its first failing check in the order required, email, minLength, maxLength, match, custom |
| Validation.FirstFailureCons | client/src/lib/utils/validation.js:62-90 | the first check of a list decides when it fails; otherwise the rest of the list decides |
| Validation.FieldErrorChain | client/src/lib/utils/validation.js:62-90 | the precedence specification equals the source's chain of early-returning `if`s |
| Validation.BlankRequiredField | client/src/lib/utils/validation.js:62-65 | a missing, null or blank value fails a required rule with the required message (override or default), whatever else the rule says |
| Validation.EmptyValueSkipsFormatChecks | client/src/lib/utils/validation.js:67-80 | an empty or missing value never fails the email or length checks, so its message can only be the required, match or custom one |
| Validation.EmptyOptionalFieldMismatch | client/src/lib/utils/validation.js:82-85 | an optional empty field whose partner field holds anything else fails with the mismatch message |
| Validation.EmptyOptionalFieldPasses | client/src/lib/utils/validation.js:62-90 | an optional empty field with no match and no custom check passes |
| Validation.LengthChecks | client/src/lib/utils/validation.js:72-80 | an absent or 0 bound switches its check off; a value exactly as long as the bound passes; the length messages embed the bound's decimal text, which reads back as the bound |
| Validation.ErrorsForInsert | client/src/lib/utils/validation.js:58-90 | processing one more ruled field adds its message under its name, or nothing when it passes |
| Validation.SingleRuleErrors | client/src/lib/utils/validation.js:55-96 | a rule set with one field records that field's message under its name and nothing else |
| Validation.CheckField | client/src/lib/utils/validation.js:59-90 | the per-field callback's result is the precedence specification's message |
| Validation.ValidateForm | client/src/lib/utils/validation.js:55-97 | the errors are exactly the first-failure messages of the ruled fields; only ruled fields get errors; valid exactly when there are no errors, that is, when every ruled field passes; an empty rule set is valid |
| Validation.ConfirmRuleError | client/src/lib/utils/validation.js:62-85 | under the registration page's confirmation rule (required, match "password", message "Passwords do not match"), a blank or missing confirmation is "This field is required", a differing one "Passwords do not match", and an equal one passes |
| Validation.ConfirmMatches | client/src/lib/utils/validation.js:82-85 | equal password and confirmation give no errors |
| Validation.ConfirmDiffers | client/src/lib/utils/validation.js:82-85 | differing ones give only the confirmation's mismatch message |
| Validation.CustomRuleOnly | client/src/lib/utils/validation.js:87-90 | a custom predicate is applied to the value and the whole field map; a rejection carries the custom message or "Invalid value" |
| Validation.CustomReadsOtherFields | client/src/lib/utils/validation.js:87 | a custom predicate can compare the value with another field |
| Validation.OtpBlank | client/src/lib/utils/validation.js:62-65 | under the reset-password page's one-time-code rule (required, minLength 6, maxLength 6) a blank code is "This field is required" |
| Validation.OtpMessages | client/src/lib/utils/validation.js:73-78 | the code rule's length messages read "Must be at least 6 characters" and "Must be no more than 6 characters" |
| Validation.OtpTooShort | client/src/lib/utils/validation.js:72-75 | a non-blank code under 6 characters gets the minimum-length message |
| Validation.OtpTooLong | client/src/lib/utils/validation.js:77-80 | a code over 6 characters gets the maximum-length message |
| Validation.OtpExact | client/src/lib/utils/validation.js:62-90 | a non-blank code of exactly 6 characters passes |
| Formatters.FormatFullName | client/src/lib/utils/formatters.js:60-64 | the result is never empty and has no whitespace at either end |
| Formatters.TrimJoined | client/src/lib/utils/formatters.js:63 | joining two trimmed parts with a space and trimming leaves no stray space when a part is empty |
| Formatters.FormatFullNameCases | client/src/lib/utils/formatters.js:60-64 | "Unknown User" when both parts are blank; the one non-blank part trimmed when only one is; both trimmed parts joined by one space otherwise |
| Formatters.Initial | client/src/lib/utils/formatters.js:67-68 | at most one character |
| Formatters.GetInitials | client/src/lib/utils/formatters.js:66-70 | one or two characters |
| Formatters.GetInitialsCases | client/src/lib/utils/formatters.js:66-70 | "?" when neither name has a first character; otherwise the upper-cased first character of each name that has one, first name first, and no lower-case letter is left |
| Formatters.InitialsKeepLeadingSpace | client/src/lib/utils/formatters.js:67 | names are not trimmed, so " ann", "lee" gives " L" |
| Formatters.Min | client/src/lib/utils/formatters.js:77 | the result is one of the two numbers and not above either |
| Formatters.MaskEmail | client/src/lib/utils/formatters.js:73-81 | an absent address stays absent |
| Formatters.MaskEmailUnchanged | client/src/lib/utils/formatters.js:74 | an absent or empty address, or one without '@', is returned unchanged |
| Formatters.DomainName | client/src/lib/utils/formatters.js:76 | the domain piece holds no '@' |
| Formatters.MaskEmailShape | client/src/lib/utils/formatters.js:76-80 | otherwise the result is the first min(3, floor(n/2)) characters of the text before the first '@', then "***@", then the text between the first and second '@' |
| Formatters.MaskEmailRevealsLittle | client/src/lib/utils/formatters.js:77 | at most 3 characters and at most half of the user name are shown, so a user name of length 0 or 1 is hidden completely |
| Formatters.Truncate | client/src/lib/utils/formatters.js:89-92 | absent text stays absent |
| Formatters.TruncateDefault | client/src/lib/utils/formatters.js:89-91 | with the default bound 100, text of at most 100 characters is kept and longer text becomes its first 100 characters trimmed plus "...", at most 103 characters |
| Formatters.TruncateUnchanged | client/src/lib/utils/formatters.js:90 | absent, empty or short enough text is returned unchanged |
| Formatters.TruncateShape | client/src/lib/utils/formatters.js:91 | longer text becomes its first `maxLength` characters (none for a negative bound) trimmed at both ends plus "..."; the result ends in "...", is at most `maxLength` + 3 long, and is "..." when the bound is 0 or less |

## Left out

- `isValidDate`, `isFutureDate`, `formatDate`, `formatRelativeTime` and `formatNumber` are not part of this model. They depend on JavaScript `Date` parsing, the wall clock and `Intl` locale formatting.
- Strings are sequences of Unicode scalar values, not UTF-16 code units. `length`, `charAt(0)`, `substring` and the per-character regex classes agree with the source only for text in the Basic Multilingual Plane.
- `toUpperCase` is modelled on ASCII letters only. Other letters keep their case, so locale and Unicode mappings such as "ß" to "SS" are not modelled.
- `validateForm` field values are strings, `null` or `undefined`:
  - numbers, booleans and objects are not modelled;
  - so neither is `isRequired`'s `true` for a non-string value;
  - nor is the `value.length` of a non-string.
- `minLength` and `maxLength` are integers. Fractional bounds, `NaN` and the exponent form a template literal gives to very large numbers are not modelled.
- The custom predicate is a total Dafny function. A predicate that throws or has side effects is not modelled.
- Rule keys are iterated in an unspecified order while `Object.keys` has a fixed one. The order cannot change the result, because each field writes only its own key.
- Inherited or prototype keys of `rules` and `fields` are not modelled.
- `checkPasswordStrength`'s empty result has no `checks` key. The model writes that as `checks == None`.
- Formatters.MaskEmail: its own contract covers only absent input. The full behaviour is stated by `Formatters.MaskEmailUnchanged`, `Formatters.MaskEmailShape` and `Formatters.MaskEmailRevealsLittle`.
- Formatters.Truncate: its own contract covers only absent input. The full behaviour is stated by `Formatters.TruncateUnchanged` and `Formatters.TruncateShape`.
- Formatters.FormatFullName: the fallback branch is taken exactly when both parts are blank (`Formatters.FormatFullNameCases`). The string "Unknown User" is not returned only then: a name whose parts trim to "Unknown" and "User" gives the same string, so that string alone does not show that the fallback was taken.
- Formatters.GetInitials: the fallback branch is taken exactly when both names are absent or empty (`Formatters.GetInitialsCases`). The string "?" is not returned only then: a name whose first character is "?" also produces it.

Two behaviours of the code may be unexpected. One might expect an optional empty field to skip every check, and the e-mail pattern to allow exactly one dot after the '@'. The model follows the code:

- An optional field left empty is not exempt from every later check. The match and custom checks have no emptiness guard and still run (`Validation.EmptyOptionalFieldMismatch`).
- The e-mail pattern does not require exactly one dot after the '@'. The domain may hold several dots and may start with one, as long as some dot has a character on each side (`Validation.EmailSeveralDots`, `Validation.EmailEdgeDots`).
