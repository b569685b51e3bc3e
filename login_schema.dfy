/** The sign-up form of src/pages/Login.tsx: its schema (one rule chain per
    field plus the password/confirm-password cross-field rule), the values
    the form starts with, the submit gate, and the calendar's selectable
    range. The clock is the parameter `now`, in milliseconds since the
    epoch, as is the date of birth. */
module LoginSchema {
  import opened JsText
  import opened RuleChain
  import opened EmailPattern
  import opened FormValidation

  datatype Field = Username | Dob | Email | Password | ConfirmPassword | Policy

  /** The values of the six fields. */
  datatype Record = Record(
    username: string,
    dob: int,
    email: string,
    password: string,
    confirmPassword: string,
    policy: bool)

  /** One problem found while checking a record, filed under a field. */
  datatype Issue = Issue(path: Field, message: string)

  const UsernameTooShort := "UserName should contain at least 3 characters"
  const InvalidDateOfBirth := "Invalid Date of Birth"
  const ConfirmPasswordRequired := "Password is required."
  const PasswordMismatch := "Password did not match"
  const PolicyRequired := "Policy is required."

  function UsernameRules(): seq<Rule<string>> {
    [Rule(s => JsLength(s) >= 3, UsernameTooShort)]
  }

  /** The date of birth may be the current instant but not later. */
  function DobRules(now: int): seq<Rule<int>> {
    [Rule(date => date <= now, InvalidDateOfBirth)]
  }

  function ConfirmPasswordRules(): seq<Rule<string>> {
    [Rule(s => JsLength(s) >= 1, ConfirmPasswordRequired)]
  }

  function PolicyRules(): seq<Rule<bool>> {
    [Rule(accepted => accepted == true, PolicyRequired)]
  }

  /** The refinement on the whole record; its issue is filed under
      confirmPassword. */
  function RecordRules(): seq<Rule<Record>> {
    [Rule((r: Record) => r.confirmPassword == r.password, PasswordMismatch)]
  }

  /** Files each message under field f. */
  function Tag(f: Field, msgs: seq<string>): seq<Issue> {
    seq(|msgs|, i requires 0 <= i < |msgs| => Issue(f, msgs[i]))
  }

  /** Every issue found in r, grouped by field in the schema's order, then
      the record-level rule, which runs because a failed refinement does
      not abort the fields. Only the order within a field matters: the form
      shows each field's first issue, and the record-level issue comes after
      confirmPassword's own. */
  function SchemaIssues(r: Record, now: int): seq<Issue> {
    Tag(Username, Issues(UsernameRules(), r.username))
    + Tag(Dob, Issues(DobRules(now), r.dob))
    + Tag(Email, Issues(EmailRules(), r.email))
    + Tag(Password, Issues(PasswordRules(), r.password))
    + Tag(ConfirmPassword, Issues(ConfirmPasswordRules(), r.confirmPassword))
    + Tag(Policy, Issues(PolicyRules(), r.policy))
    + Tag(ConfirmPassword, Issues(RecordRules(), r))
  }

  /** The first issue filed under f: the message shown next to that field. */
  function FirstMessageFor(issues: seq<Issue>, f: Field): (m: Option<string>)
    ensures m == None <==> forall i | 0 <= i < |issues| :: issues[i].path != f
    ensures m != None ==>
      exists i | 0 <= i < |issues| ::
        issues[i] == Issue(f, m.value) && forall j | 0 <= j < i :: issues[j].path != f
    decreases |issues|
  {
    if issues == [] then None
    else if issues[0].path == f then Some(issues[0].message)
    else
      var m := FirstMessageFor(issues[1..], f);
      assert m != None ==>
        exists i | 0 <= i < |issues| ::
          issues[i] == Issue(f, m.value) && forall j | 0 <= j < i :: issues[j].path != f
      by {
        if m != None {
          var k :| 0 <= k < |issues[1..]| && issues[1..][k] == Issue(f, m.value)
            && forall j | 0 <= j < k :: issues[1..][j].path != f;
          assert issues[k + 1] == Issue(f, m.value);
          assert forall j | 0 <= j < k + 1 :: issues[j].path != f by {
            forall j | 0 <= j < k + 1 ensures issues[j].path != f {
              if j > 0 { assert issues[j] == issues[1..][j - 1]; }
            }
          }
        }
      }
      m
  }

  const AllFields: set<Field> := {Username, Dob, Email, Password, ConfirmPassword, Policy}

  /** The message shown under each field, or None, from a list of issues:
      one entry per field. */
  function ShownMessages(issues: seq<Issue>): (shown: map<Field, Option<string>>)
    ensures forall f: Field :: f in shown
  {
    assert forall f: Field :: f in AllFields by {
      forall f: Field ensures f in AllFields {
        assert f.Username? || f.Dob? || f.Email? || f.Password? || f.ConfirmPassword? || f.Policy?;
      }
    }
    map f | f in AllFields :: FirstMessageFor(issues, f)
  }

  /** The message shown under each field once r has been checked. */
  function Validate(r: Record, now: int): (shown: map<Field, Option<string>>)
    ensures forall f: Field :: f in shown
  {
    ShownMessages(SchemaIssues(r, now))
  }

  /** `formState.isValid`: checking the record found no issue at all. The
      submit button is disabled exactly when this is false. */
  predicate Submittable(r: Record, now: int) {
    SchemaIssues(r, now) == []
  }

  /** The values the form starts with; the date of birth is the instant the
      form was created. */
  function DefaultValues(createdAt: int): Record {
    Record(username := "", dob := createdAt, email := "", password := "",
           confirmPassword := "", policy := false)
  }

  const OneDay := 86400000

  /** `new Date('1900-01-01')`: midnight UTC, in milliseconds since the
      epoch; 1900 to 1970 is 70 years, 17 of them leap years. */
  const Jan1st1900: int := -(70 * 365 + 17) * OneDay

  /** The calendar greys out days after now and before 1900-01-01. */
  predicate CalendarDisabled(date: int, now: int) {
    date > now || date < Jan1st1900
  }

  // ----- from the flat list of issues to the per-field view -----

  lemma {:induction false} FirstMessageForAppend(a: seq<Issue>, b: seq<Issue>, f: Field)
    ensures FirstMessageFor(a + b, f) ==
      if FirstMessageFor(a, f) != None then FirstMessageFor(a, f) else FirstMessageFor(b, f)
    decreases |a|
  {
    if a == [] {
      assert a + b == b;
    } else {
      assert (a + b)[0] == a[0];
      assert (a + b)[1..] == a[1..] + b;
      if a[0].path != f {
        FirstMessageForAppend(a[1..], b, f);
      }
    }
  }

  lemma FirstMessageForTag(g: Field, msgs: seq<string>, f: Field)
    ensures FirstMessageFor(Tag(g, msgs), f) == if g == f then Head(msgs) else None
  {
    var t := Tag(g, msgs);
    if g == f && msgs != [] {
      assert t[0] == Issue(f, msgs[0]);
    }
  }

  /** The issues each field collects: its own chain, and for confirmPassword
      also the record-level rule after it. */
  function FieldIssues(r: Record, now: int, f: Field): seq<string> {
    match f
    case Username => Issues(UsernameRules(), r.username)
    case Dob => Issues(DobRules(now), r.dob)
    case Email => Issues(EmailRules(), r.email)
    case Password => Issues(PasswordRules(), r.password)
    case ConfirmPassword =>
      Issues(ConfirmPasswordRules(), r.confirmPassword) + Issues(RecordRules(), r)
    case Policy => Issues(PolicyRules(), r.policy)
  }

  /** The message shown for a field is the first issue that field collects. */
  lemma MessageIsFirstFieldIssue(r: Record, now: int, f: Field)
    ensures Validate(r, now)[f] == Head(FieldIssues(r, now, f))
  {
    var u := Tag(Username, Issues(UsernameRules(), r.username));
    var d := Tag(Dob, Issues(DobRules(now), r.dob));
    var e := Tag(Email, Issues(EmailRules(), r.email));
    var p := Tag(Password, Issues(PasswordRules(), r.password));
    var c := Tag(ConfirmPassword, Issues(ConfirmPasswordRules(), r.confirmPassword));
    var o := Tag(Policy, Issues(PolicyRules(), r.policy));
    var x := Tag(ConfirmPassword, Issues(RecordRules(), r));
    FirstMessageForAppend(u + d + e + p + c + o, x, f);
    FirstMessageForAppend(u + d + e + p + c, o, f);
    FirstMessageForAppend(u + d + e + p, c, f);
    FirstMessageForAppend(u + d + e, p, f);
    FirstMessageForAppend(u + d, e, f);
    FirstMessageForAppend(u, d, f);
    FirstMessageForTag(Username, Issues(UsernameRules(), r.username), f);
    FirstMessageForTag(Dob, Issues(DobRules(now), r.dob), f);
    FirstMessageForTag(Email, Issues(EmailRules(), r.email), f);
    FirstMessageForTag(Password, Issues(PasswordRules(), r.password), f);
    FirstMessageForTag(ConfirmPassword, Issues(ConfirmPasswordRules(), r.confirmPassword), f);
    FirstMessageForTag(Policy, Issues(PolicyRules(), r.policy), f);
    FirstMessageForTag(ConfirmPassword, Issues(RecordRules(), r), f);
  }

  // ----- the rules of each field, as the form shows them -----

  lemma UsernameIssues(r: Record, now: int)
    ensures FieldIssues(r, now, Username) ==
      if JsLength(r.username) >= 3 then [] else [UsernameTooShort]
  {
    IssuesOfOne(UsernameRules()[0], r.username);
  }

  lemma DobIssues(r: Record, now: int)
    ensures FieldIssues(r, now, Dob) == if r.dob <= now then [] else [InvalidDateOfBirth]
  {
    IssuesOfOne(DobRules(now)[0], r.dob);
  }

  lemma ConfirmPasswordIssues(r: Record, now: int)
    ensures Head(FieldIssues(r, now, ConfirmPassword)) ==
      if r.confirmPassword == "" then Some(ConfirmPasswordRequired)
      else if r.confirmPassword != r.password then Some(PasswordMismatch)
      else None
  {
    IssuesOfOne(ConfirmPasswordRules()[0], r.confirmPassword);
    IssuesOfOne(RecordRules()[0], r);
  }

  lemma PolicyIssues(r: Record, now: int)
    ensures FieldIssues(r, now, Policy) == if r.policy then [] else [PolicyRequired]
  {
    IssuesOfOne(PolicyRules()[0], r.policy);
  }

  /** A username is accepted exactly when it has at least 3 code units. */
  lemma UsernameMessage(r: Record, now: int)
    ensures Validate(r, now)[Username] ==
      if JsLength(r.username) >= 3 then None else Some(UsernameTooShort)
  {
    MessageIsFirstFieldIssue(r, now, Username);
    UsernameIssues(r, now);
  }

  /** A date of birth is accepted exactly when it is not after now; the
      current instant itself is accepted. */
  lemma DobMessage(r: Record, now: int)
    ensures Validate(r, now)[Dob] == if r.dob <= now then None else Some(InvalidDateOfBirth)
  {
    MessageIsFirstFieldIssue(r, now, Dob);
    DobIssues(r, now);
  }

  lemma EmailIssues(r: Record, now: int)
    ensures Head(FieldIssues(r, now, Email)) == FirstFailure(EmailRules(), r.email)
  {
    FirstFailureIsFirstIssue(EmailRules(), r.email);
  }

  lemma PasswordIssues(r: Record, now: int)
    ensures Head(FieldIssues(r, now, Password)) == FirstFailure(PasswordRules(), r.password)
  {
    var rules, v := PasswordRules(), r.password;
    assert FieldIssues(r, now, Password) == Issues(rules, v);
    FirstFailureIsFirstIssue(rules, v);
  }

  /** The email field shows the email validator's verdict. */
  lemma EmailMessage(r: Record, now: int)
    ensures Validate(r, now)[Email] == EmailError(r.email)
  {
    MessageIsFirstFieldIssue(r, now, Email);
    EmailIssues(r, now);
  }

  /** The password field shows the password validator's verdict. */
  lemma PasswordMessage(r: Record, now: int)
    ensures Validate(r, now)[Password] == PasswordError(r.password)
  {
    MessageIsFirstFieldIssue(r, now, Password);
    PasswordIssues(r, now);
  }

  /** The mismatch is filed under confirmPassword only: the password field
      never shows it. */
  lemma MismatchNeverShownOnPassword(r: Record, now: int)
    ensures Validate(r, now)[Password] != Some(PasswordMismatch)
  {
    PasswordMessage(r, now);
  }

  /** An empty confirmation is reported as missing (no trimming: " " is
      not empty); a non-empty one that differs from the password gets the
      mismatch message. */
  lemma ConfirmPasswordMessage(r: Record, now: int)
    ensures Validate(r, now)[ConfirmPassword] ==
      if r.confirmPassword == "" then Some(ConfirmPasswordRequired)
      else if r.confirmPassword != r.password then Some(PasswordMismatch)
      else None
  {
    MessageIsFirstFieldIssue(r, now, ConfirmPassword);
    ConfirmPasswordIssues(r, now);
  }

  /** The confirmation is not trimmed: a single space is not "missing",
      and it is accepted when the password is that same space. */
  lemma SpaceConfirmationIsNotMissing(r: Record, now: int)
    requires r.confirmPassword == " "
    ensures Validate(r, now)[ConfirmPassword] ==
      if r.password == " " then None else Some(PasswordMismatch)
  {
    ConfirmPasswordMessage(r, now);
  }

  /** The policy box must be ticked. */
  lemma PolicyMessage(r: Record, now: int)
    ensures Validate(r, now)[Policy] == if r.policy then None else Some(PolicyRequired)
  {
    MessageIsFirstFieldIssue(r, now, Policy);
    PolicyIssues(r, now);
  }

  // ----- the submit gate -----

  /** A list of issues is empty exactly when no field shows a message. */
  lemma NoIssuesIffNothingShown(issues: seq<Issue>)
    ensures issues == [] <==> forall f: Field :: ShownMessages(issues)[f] == None
  {
    if issues != [] {
      assert ShownMessages(issues)[issues[0].path] != None;
    }
  }

  /** The button is enabled exactly when no field shows a message. */
  lemma SubmittableIffNoMessages(r: Record, now: int)
    ensures Submittable(r, now) <==> forall f: Field :: Validate(r, now)[f] == None
  {
    var issues := SchemaIssues(r, now);
    var shown := Validate(r, now);
    assert shown == ShownMessages(issues);
    NoIssuesIffNothingShown(issues);
  }

  /** The button is enabled exactly when every rule of the schema holds. */
  lemma SubmittableIff(r: Record, now: int)
    ensures Submittable(r, now) <==>
      && JsLength(r.username) >= 3
      && r.dob <= now
      && EmailSearch(r.email)
      && 8 <= JsLength(r.password) <= 50
      && HasDigit(r.password) && HasUpper(r.password) && HasSpecialSymbol(r.password)
      && !HasWhitespace(r.password)
      && r.confirmPassword == r.password
      && r.policy
  {
    SubmittableIffNoMessages(r, now);
    UsernameMessage(r, now);
    DobMessage(r, now);
    EmailMessage(r, now);
    if EmailSearch(r.email) {
      var a, b :| EmailMatchAt(r.email, a, b);
      assert !IsJsWhitespace(r.email[a - 1]);
    }
    PasswordMessage(r, now);
    PasswordAcceptedIff(r.password);
    ConfirmPasswordMessage(r, now);
    PolicyMessage(r, now);
  }

  /** The form starts with the button disabled: the empty username,
      email, password and confirmation and the unticked policy all fail,
      while the date of birth, set when the form is created, passes. */
  lemma DefaultValuesNotSubmittable(createdAt: int, now: int)
    requires createdAt <= now
    ensures Validate(DefaultValues(createdAt), now)[Username] == Some(UsernameTooShort)
    ensures Validate(DefaultValues(createdAt), now)[Dob] == None
    ensures Validate(DefaultValues(createdAt), now)[Email] == Some(EmailRequired)
    ensures Validate(DefaultValues(createdAt), now)[Password] == Some(PasswordRequired)
    ensures Validate(DefaultValues(createdAt), now)[ConfirmPassword] == Some(ConfirmPasswordRequired)
    ensures Validate(DefaultValues(createdAt), now)[Policy] == Some(PolicyRequired)
    ensures !Submittable(DefaultValues(createdAt), now)
  {
    var r := DefaultValues(createdAt);
    UsernameMessage(r, now);
    DobMessage(r, now);
    EmailMessage(r, now);
    PasswordMessage(r, now);
    PasswordRequiredRule(r.password);
    ConfirmPasswordMessage(r, now);
    PolicyMessage(r, now);
    SubmittableIffNoMessages(r, now);
  }

  /** Every day the calendar lets the user pick passes the date-of-birth
      rule, the two reading the same clock. */
  lemma SelectableDatePassesDob(r: Record, now: int)
    requires !CalendarDisabled(r.dob, now)
    ensures Validate(r, now)[Dob] == None
  {
    DobMessage(r, now);
  }

  // ----- two whole records -----

  /** A two-letter username is the only problem of this record. */
  lemma ShortUsernameScenario(r: Record, now: int)
    requires r == Record("ab", now - OneDay, "a@b.com", "Abcdef1!", "Abcdef1!", true)
    ensures Validate(r, now)[Username] == Some(UsernameTooShort)
    ensures Validate(r, now)[Dob] == None && Validate(r, now)[Email] == None
    ensures Validate(r, now)[Password] == None && Validate(r, now)[ConfirmPassword] == None
    ensures Validate(r, now)[Policy] == None
    ensures !Submittable(r, now)
  {
    UsernameMessage(r, now);
    DobMessage(r, now);
    EmailMessage(r, now);
    PlainEmailIsAccepted();
    PasswordMessage(r, now);
    AbcPasswordIsAccepted(r.password);
    ConfirmPasswordMessage(r, now);
    PolicyMessage(r, now);
    SubmittableIffNoMessages(r, now);
  }

  /** With a three-letter username the same record can be submitted. */
  lemma ValidRecordScenario(r: Record, now: int)
    requires r == Record("abc", now - OneDay, "a@b.com", "Abcdef1!", "Abcdef1!", true)
    ensures Submittable(r, now)
  {
    UsernameMessage(r, now);
    DobMessage(r, now);
    EmailMessage(r, now);
    PlainEmailIsAccepted();
    PasswordMessage(r, now);
    AbcPasswordIsAccepted(r.password);
    ConfirmPasswordMessage(r, now);
    PolicyMessage(r, now);
    SubmittableIffNoMessages(r, now);
  }

  lemma AbcPasswordIsAccepted(s: string)
    requires s == "Abcdef1!"
    ensures PasswordError(s) == None
  {
    assert JsLength(s) == 8;
    assert IsAsciiUpper(s[0]) && IsAsciiDigit(s[6]) && IsSpecialSymbol(s[7]);
    assert !HasWhitespace(s);
    assert PasswordVerdict(s) == None;
  }
}
