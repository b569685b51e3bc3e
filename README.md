# Sign-up form validation, in Dafny

This project models the validation core of the account-creation screen of
`loginApp`. It has two parts:

- The two field validators of `src/utils/formValidation.ts`: the email chain and
  the seven-rule password chain, each with its error messages.
- The `LoginSchema` of `src/pages/Login.tsx`: the username, date-of-birth,
  confirm-password and policy rules, the cross-field rule "confirmPassword equals
  password", the default values, the calendar's disabled-day predicate and the
  submit gate `disabled={!formState.isValid}`.

Everything is pure, so the model is made of datatypes, functions and lemmas:

- `JsText` holds the JavaScript string facts the rules depend on:
  - the whitespace set that `\s` and `trim` share (sections 12.2 and 12.3 of
    ECMA-262);
  - `\d`, `[A-Z]` and the special-symbol class;
  - `.length` counted in UTF-16 code units.
- `RuleChain` models a field's schema as an ordered chain of refinements:
  - `Issues` collects every failing rule's message in order, because the schema
    library runs all refinements of a chain;
  - `FirstFailure` is the short-circuit reading;
  - `FirstFailureIsFirstIssue` proves they pick the same message.
- `EmailPattern` handles the unanchored test `/\S+@\S+\.\S+/`:
  - as a search for an `@` and a later `.` (`EmailSearch`);
  - as a one-pass automaton (`MatchesEmailPattern`), whose contract states that
    the two agree.
- `FormValidation` models `emailValidation` and `passwordValidation`. The
  contracts of `EmailError` and `PasswordError` state which message each input
  gets.
- `LoginSchema` models the whole record:
  - a record is checked into a list of issues, grouped by field in the schema's
    order, with the cross-field issue after `confirmPassword`'s own rule. Only
    the order within a field matters, because the form shows each field's first
    issue;
  - the submit button is enabled exactly when the list is empty.
  - The current time, which the source reads with `new Date()`, is a parameter
    `now`, in milliseconds since the epoch.

Two consequences of the code are worth stating:

- **Submit gate.** The button reads `formState.isValid`, which runs the whole
  schema on the whole record. So a field the user has not touched yet still keeps
  the button disabled. `Submittable` is "the schema reports no issue".
- **Email format.** The pattern has no anchors, so it is a substring search.
  `UnanchoredEmailIsAccepted` shows an email containing a space being accepted.

## Model

| member | source | states |
|---|---|---|
| JsText.IsJsWhitespace | src/utils/formValidation.ts:40-42 | the characters `\s` matches and `trim` removes: WhiteSpace and LineTerminator of ECMA-262. A definition; `Trim` and the password rules are stated in its terms |
| JsText.HasDigit | src/utils/formValidation.ts:33 | `/\d/.test(s)`: some character is an ASCII digit. A definition; `PasswordRulesMean` states that the digit rule tests it |
| JsText.HasUpper | src/utils/formValidation.ts:34-36 | `/[A-Z]/.test(s)`: some character is an ASCII uppercase letter. A definition; `PasswordRulesMean` states that the uppercase rule tests it |
| JsText.HasSpecialSymbol | src/utils/formValidation.ts:37-39 | `/[!@#$%^&*(),.?":{}|<>]/.test(s)`: some character is one of the twenty symbols. A definition; `PasswordRulesMean` states that the symbol rule tests it |
| JsText.HasWhitespace | src/utils/formValidation.ts:40-42 | `/\s/.test(s)`: some character is JavaScript whitespace. A definition; `PasswordRulesMean` states that the no-spaces rule tests its negation |
| JsText.TrimStart | src/utils/formValidation.ts:15 | the result is a suffix of the input; every dropped character is JavaScript whitespace, and the result does not start with whitespace |
| JsText.TrimEnd | src/utils/formValidation.ts:24 | the result is a prefix of the input; every dropped character is JavaScript whitespace, and the result does not end with whitespace |
| JsText.Trim | src/utils/formValidation.ts:15 | `s.trim()` is `s` with only whitespace removed before and after the result; the result neither starts nor ends with whitespace, and it is empty exactly when every character of `s` is whitespace, so `trim() !== ''` is `!IsBlank` |
| JsText.JsLength | src/utils/formValidation.ts:27-32 | `.length` lies between the number of characters and twice that; it is 0 only for the empty string, and equals the character count when every character is in the Basic Multilingual Plane |
| RuleChain.Issues | src/utils/formValidation.ts:22-42 | a chain reports no issue exactly when every rule holds; it reports no more issues than it has rules, and each reported message belongs to a failing rule |
| RuleChain.FailingCount | src/utils/formValidation.ts:22-42 | the number of failing rules is at most the number of rules; it is 0 exactly when every rule holds, and equals the number of rules exactly when every rule fails |
| RuleChain.IssuesReportEveryFailure | src/utils/formValidation.ts:22-42 | one issue per failing rule: the number of issues is the number of failing rules, and every failing rule's message is reported |
| RuleChain.FirstFailure | src/utils/formValidation.ts:22-42 | the short-circuit outcome is None exactly when every rule holds; otherwise it is the message of a rule that fails while all rules before it pass |
| RuleChain.FirstFailureAt | src/utils/formValidation.ts:22-42 | when rule i is the first to fail, its message is the outcome, whatever the later rules say |
| RuleChain.FirstFailureIsFirstIssue | src/utils/formValidation.ts:22-42 | running every refinement and showing the first collected issue gives the same message as stopping at the first failing rule |
| RuleChain.IssuesOfOne | src/pages/Login.tsx:32-34 | a one-rule chain reports that rule's message exactly when the rule fails |
| EmailPattern.EmailSearch | src/utils/formValidation.ts:18 | the unanchored search: some `@`, preceded by a non-whitespace character, is followed by one or more non-whitespace characters, a `.` and a non-whitespace character. A definition; `MatchesEmailPattern` is proved to decide it |
| EmailPattern.ScanMeaning | src/utils/formValidation.ts:18 | after any input, each state of the automaton is live exactly when the input read so far satisfies that state's meaning; the accepting flag means a match was found |
| EmailPattern.MatchesEmailPattern | src/utils/formValidation.ts:18 | `/\S+@\S+\.\S+/.test(s)` in one pass: it accepts exactly the strings `EmailSearch` accepts |
| FormValidation.EmailRules | src/utils/formValidation.ts:13-20 | the two refinements of `emailValidation` in source order: not blank, then the format test. Their effect is stated by `EmailError` |
| FormValidation.EmailError | src/utils/formValidation.ts:13-20 | a blank email gets "Email is required."; a non-blank email with no match gets "Invalid email format."; every other email is accepted |
| FormValidation.NotAnEmailIsRejected | src/utils/formValidation.ts:18-20 | "not-an-email" gets "Invalid email format." |
| FormValidation.BlankEmailIsRequired | src/utils/formValidation.ts:15-17 | a whitespace-only email gets "Email is required.", not the format message |
| FormValidation.UnanchoredEmailIsAccepted | src/utils/formValidation.ts:18 | "x a@b.c" contains whitespace and is still accepted, because the pattern is not anchored |
| FormValidation.PlainEmailIsAccepted | src/utils/formValidation.ts:13-20 | "a@b.com" is accepted |
| FormValidation.PasswordRules | src/utils/formValidation.ts:22-42 | the seven refinements of `passwordValidation` in source order. `PasswordRulesMean` states what each tests |
| FormValidation.PasswordRulesMean | src/utils/formValidation.ts:22-42 | the chain has seven rules, and each tests its own condition (non-blank, length at least 8, at most 50, a digit, an uppercase letter, a special symbol, no whitespace) |
| FormValidation.PasswordRequiredRule | src/utils/formValidation.ts:24-26 | the chain gives a blank password "Password is required." |
| FormValidation.PasswordMinLengthRule | src/utils/formValidation.ts:27-29 | the chain gives a non-blank password shorter than 8 code units the minimum-length message, whatever else is wrong with it |
| FormValidation.PasswordMaxLengthRule | src/utils/formValidation.ts:30-32 | the chain gives a non-blank password longer than 50 code units the maximum-length message, whatever else is wrong with it |
| FormValidation.PasswordDigitRule | src/utils/formValidation.ts:33 | the chain gives a password passing the required and length rules but without an ASCII digit the digit message |
| FormValidation.PasswordUppercaseRule | src/utils/formValidation.ts:34-36 | the chain gives a password passing the earlier rules but without an ASCII uppercase letter the uppercase message |
| FormValidation.PasswordSpecialSymbolRule | src/utils/formValidation.ts:37-39 | the chain gives a password passing the earlier rules but without one of the twenty special symbols the special-symbol message |
| FormValidation.PasswordNoSpacesRule | src/utils/formValidation.ts:40-42 | the chain gives a password passing the earlier rules but containing whitespace "Password cannot contain spaces." |
| FormValidation.PasswordAllRulesPass | src/utils/formValidation.ts:22-42 | the chain accepts a password of 8 to 50 code units with a digit, an uppercase letter, a special symbol and no whitespace |
| FormValidation.PasswordVerdict | src/utils/formValidation.ts:22-42 | the rule-by-rule reference decision: the first failing rule in the order required, minimum length, maximum length, digit, uppercase, special symbol, no spaces; None when all pass. A definition; `PasswordChainGivesVerdict` proves the chain agrees with it |
| FormValidation.PasswordChainGivesVerdict | src/utils/formValidation.ts:22-42 | running all seven refinements gives the rule-by-rule verdict for every password |
| FormValidation.PasswordError | src/utils/formValidation.ts:22-42 | the message the form shows for any password is the rule-by-rule verdict |
| FormValidation.PasswordAcceptedIff | src/utils/formValidation.ts:22-42 | a password is accepted exactly when its length is within 8..50 and it has a digit, an uppercase letter and a special symbol and no whitespace; the "required" rule is then implied |
| FormValidation.FiftyCharacterPasswordIsAccepted | src/utils/formValidation.ts:30-32 | a 50-code-unit password can be accepted, so the upper bound is inclusive |
| FormValidation.NoUppercaseExample | src/utils/formValidation.ts:34-36 | "alllowercase1!" gets the uppercase message |
| FormValidation.NoDigitExample | src/utils/formValidation.ts:33 | "Alllowercase!" gets the digit message |
| FormValidation.NoSpecialSymbolExample | src/utils/formValidation.ts:37-39 | "Alllowercase1" gets the special-symbol message |
| FormValidation.InnerSpaceExample | src/utils/formValidation.ts:40-42 | "Alll owercase1!" gets "Password cannot contain spaces." |
| LoginSchema.UsernameRules | src/pages/Login.tsx:32-34 | `z.string().min(3)`: at least 3 code units. Its effect is stated by `UsernameMessage` |
| LoginSchema.DobRules | src/pages/Login.tsx:35-43 | the birth date must not be after now. Its effect is stated by `DobMessage` |
| LoginSchema.ConfirmPasswordRules | src/pages/Login.tsx:46-48 | `z.string().min(1)`: not empty, with no trimming. Its effect is stated by `ConfirmPasswordMessage` |
| LoginSchema.PolicyRules | src/pages/Login.tsx:49-51 | the policy must be `true`. Its effect is stated by `PolicyMessage` |
| LoginSchema.RecordRules | src/pages/Login.tsx:53-56 | the record-level rule: the confirmation equals the password. Its effect is stated by `ConfirmPasswordMessage` and `MismatchNeverShownOnPassword` |
| LoginSchema.SchemaIssues | src/pages/Login.tsx:30-56 | every issue of a record: each field's chain, then the record-level rule filed under confirmPassword. `MessageIsFirstFieldIssue` states what the form shows from it |
| LoginSchema.FirstMessageFor | src/pages/Login.tsx:30-56 | the message shown for a field is None exactly when no issue carries that field's path; otherwise it is the earliest issue with that path |
| LoginSchema.ShownMessages | src/pages/Login.tsx:30-56 | every field of the form has an entry in the shown-message map |
| LoginSchema.Validate | src/pages/Login.tsx:30-56 | checking a record yields a shown message (or None) for every field |
| LoginSchema.FirstMessageForAppend | src/pages/Login.tsx:30-56 | in issues collected one part after another, a field's first issue comes from the earliest part that has one |
| LoginSchema.FirstMessageForTag | src/pages/Login.tsx:30-56 | issues filed under one field show their first message there and nothing under any other field |
| LoginSchema.MessageIsFirstFieldIssue | src/pages/Login.tsx:30-56 | the message shown under each field is the first issue of that field's own chain; for confirmPassword the cross-field issue comes after the field's own rule |
| LoginSchema.UsernameMessage | src/pages/Login.tsx:32-34 | a username is accepted exactly when it has at least 3 code units; otherwise it gets the username message |
| LoginSchema.DobMessage | src/pages/Login.tsx:35-43 | a date of birth is accepted exactly when it is not after now; the current instant itself is accepted |
| LoginSchema.EmailMessage | src/pages/Login.tsx:44 | the email field shows the email validator's verdict |
| LoginSchema.PasswordMessage | src/pages/Login.tsx:45 | the password field shows the password validator's verdict |
| LoginSchema.MismatchNeverShownOnPassword | src/pages/Login.tsx:53-56 | "Password did not match" is never shown under the password field |
| LoginSchema.ConfirmPasswordMessage | src/pages/Login.tsx:46-56 | an empty confirmation gets "Password is required."; a non-empty confirmation that differs from the password gets "Password did not match"; an equal one is accepted |
| LoginSchema.SpaceConfirmationIsNotMissing | src/pages/Login.tsx:46-48 | a single-space confirmation is not reported as missing, because the rule does not trim; it is accepted when the password is that same space and gets the mismatch message otherwise |
| LoginSchema.PolicyMessage | src/pages/Login.tsx:49-51 | the policy is accepted exactly when the box is ticked |
| LoginSchema.Submittable | src/pages/Login.tsx:262 | `formState.isValid`: the schema reports no issue. `SubmittableIff` and `SubmittableIffNoMessages` state its meaning |
| LoginSchema.NoIssuesIffNothingShown | src/pages/Login.tsx:262 | a list of issues is empty exactly when no field shows a message |
| LoginSchema.SubmittableIffNoMessages | src/pages/Login.tsx:262 | the submit button is enabled exactly when no field shows a message |
| LoginSchema.SubmittableIff | src/pages/Login.tsx:30-56 | the button is enabled exactly when the username has at least 3 code units, the birth date is not after now, the email search succeeds, the password meets all its rules, the confirmation equals the password and the policy is ticked |
| LoginSchema.DefaultValues | src/pages/Login.tsx:65-72 | the starting record: empty texts, an unticked policy, and the birth date set to the instant the form is created. `DefaultValuesNotSubmittable` states what the form shows for it |
| LoginSchema.DefaultValuesNotSubmittable | src/pages/Login.tsx:65-72 | the starting values show the username, "Email is required.", "Password is required." (for both password fields) and policy messages; the birth date, set when the form is created, passes; the button starts disabled |
| LoginSchema.CalendarDisabled | src/pages/Login.tsx:152-154 | days after now or before 1900-01-01 (midnight UTC, written `Jan1st1900` as a count of days before the epoch) are greyed out. `SelectableDatePassesDob` relates it to the date-of-birth rule |
| LoginSchema.SelectableDatePassesDob | src/pages/Login.tsx:152-154 | every day the calendar leaves selectable passes the date-of-birth rule |
| LoginSchema.ShortUsernameScenario | src/pages/Login.tsx:30-56 | a record that differs from a valid one only by the two-letter username "ab" shows the username message, no other message, and cannot be submitted |
| LoginSchema.ValidRecordScenario | src/pages/Login.tsx:30-56 | the same record with username "abc" can be submitted |
| LoginSchema.AbcPasswordIsAccepted | src/pages/Login.tsx:45 | "Abcdef1!" passes the password chain |

## Left out

- The password show/hide toggle, the Ionic/JSX layout, the links and the date
  formatting of the calendar button are rendering only. They do not affect which
  messages are shown or whether the form can be submitted.
- When each field is re-validated (`mode: 'onTouched'`: first on blur, then on
  every change) is form-library timing. The model gives the messages and the gate
  for a record at the moment it is checked.
- The clock is the parameter `now`. The model assumes that the calendar and the
  date-of-birth rule read the same instant.
- `console.log` of the submitted data is output only, so it is not modelled.
- The schema library's issue objects (codes, paths as arrays) are reduced to a
  field and a message. The form shows only the message.
- A missing or invalid `Date` in `dob` is not modelled: `dob` is always a number of
  milliseconds. In the source, such a value makes `z.date()` abort that field and
  skip the record-level refinement.
- A checkbox value other than true or false, such as "indeterminate", is not
  modelled: `policy` is a `bool`.
- Strings are sequences of Unicode scalar values, so lone UTF-16 surrogates are not
  represented. `JsLength` counts every character above U+FFFF as two code units.
- No general regular-expression engine is modelled. Each pattern in the source has
  its own predicate, and the email pattern also has its own automaton.
- Checking the same record twice always gives the same result, because every
  operation is a function. So there is no separate idempotence lemma.
- SelectableDatePassesDob: only one direction is proved. Dates before 1900-01-01
  also pass the date-of-birth rule; the calendar just does not offer them.
