/** The two field validators of src/utils/formValidation.ts: the email chain
    (a blank check, then the unanchored format test) and the password chain
    (seven rules in a fixed order, each with its own message). */
module FormValidation {
  import opened JsText
  import opened RuleChain
  import opened EmailPattern

  const EmailRequired := "Email is required."
  const EmailInvalid := "Invalid email format."

  // passwordErrorMessage
  const PasswordRequired := "Password is required."
  const PasswordMinLength := "Password should contain at least 8 characters."
  const PasswordMaxLength := "Password should contain at most 50 characters."
  const PasswordDigit := "Password should contain at least one digit."
  const PasswordUppercase := "Password should contain at least one uppercase character."
  const PasswordSpecialSymbol := "Password should contain at least one special symbol."
  const PasswordNoSpaces := "Password cannot contain spaces."

  /** emailValidation: the two refinements, in order. The blank test
      `email.trim() !== ''` is `!IsBlank`, by the contract of `Trim`. */
  function EmailRules(): seq<Rule<string>> {
    [ Rule(s => !IsBlank(s), EmailRequired),
      Rule(MatchesEmailPattern, EmailInvalid) ]
  }

  /** passwordValidation: the seven refinements, in order (the first is
      `value.trim() !== ''`, that is `!IsBlank`). */
  function PasswordRules(): seq<Rule<string>> {
    [ Rule(s => !IsBlank(s), PasswordRequired),
      Rule(s => JsLength(s) >= 8, PasswordMinLength),
      Rule(s => JsLength(s) <= 50, PasswordMaxLength),
      Rule(HasDigit, PasswordDigit),
      Rule(HasUpper, PasswordUppercase),
      Rule(HasSpecialSymbol, PasswordSpecialSymbol),
      Rule(s => !HasWhitespace(s), PasswordNoSpaces) ]
  }

  // ----- email -----

  /** The message the form shows for an email, or None when it is accepted:
      a blank email is reported as missing; any other email is accepted
      exactly when the unanchored search finds a match. */
  function EmailError(s: string): (r: Option<string>)
    ensures r ==
      if IsBlank(s) then Some(EmailRequired)
      else if !EmailSearch(s) then Some(EmailInvalid)
      else None
  {
    var rules := EmailRules();
    if IsBlank(s) then
      FirstFailureAt(rules, s, 0);
      FirstFailure(rules, s)
    else if !MatchesEmailPattern(s) then
      FirstFailureAt(rules, s, 1);
      FirstFailure(rules, s)
    else
      FirstFailure(rules, s)
  }

  /** "not-an-email" has no `@`, so it is rejected as malformed. */
  lemma NotAnEmailIsRejected()
    ensures EmailError("not-an-email") == Some(EmailInvalid)
  {
    var s := "not-an-email";
    assert '@' !in s;
    assert s[0] == 'n';
  }

  /** Whitespace only is reported as missing, not as malformed. */
  lemma BlankEmailIsRequired()
    ensures EmailError("  ") == Some(EmailRequired)
  {
    assert IsJsWhitespace("  "[0]) && IsJsWhitespace("  "[1]);
  }

  /** The pattern is not anchored: text before a well-formed part, even text
      with a space in it, does not stop the email being accepted. */
  lemma UnanchoredEmailIsAccepted()
    ensures HasWhitespace("x a@b.c") && EmailError("x a@b.c") == None
  {
    var s := "x a@b.c";
    assert IsJsWhitespace(s[1]);
    assert EmailMatchAt(s, 3, 5);
  }

  lemma PlainEmailIsAccepted()
    ensures EmailError("a@b.com") == None
  {
    var s := "a@b.com";
    assert EmailMatchAt(s, 1, 3);
    assert !IsJsWhitespace(s[0]);
  }

  // ----- password -----

  /** What each rule of the password chain tests. */
  lemma PasswordRulesMean(s: string)
    ensures |PasswordRules()| == 7
    ensures PasswordRules()[0].holds(s) == !IsBlank(s)
    ensures PasswordRules()[1].holds(s) == (JsLength(s) >= 8)
    ensures PasswordRules()[2].holds(s) == (JsLength(s) <= 50)
    ensures PasswordRules()[3].holds(s) == HasDigit(s)
    ensures PasswordRules()[4].holds(s) == HasUpper(s)
    ensures PasswordRules()[5].holds(s) == HasSpecialSymbol(s)
    ensures PasswordRules()[6].holds(s) == !HasWhitespace(s)
  {
  }

  /** A blank password (empty or all whitespace) is reported as missing. */
  lemma PasswordRequiredRule(s: string)
    requires IsBlank(s)
    ensures FirstFailure(PasswordRules(), s) == Some(PasswordRequired)
  {
    PasswordRulesMean(s);
    FirstFailureAt(PasswordRules(), s, 0);
  }

  /** A non-blank password shorter than 8 code units gets the minimum-length
      message, whatever else is wrong with it. */
  lemma PasswordMinLengthRule(s: string)
    requires !IsBlank(s) && JsLength(s) < 8
    ensures FirstFailure(PasswordRules(), s) == Some(PasswordMinLength)
  {
    PasswordRulesMean(s);
    FirstFailureAt(PasswordRules(), s, 1);
  }

  /** A non-blank password longer than 50 code units gets the
      maximum-length message, whatever else is wrong with it. */
  lemma PasswordMaxLengthRule(s: string)
    requires !IsBlank(s) && JsLength(s) > 50
    ensures FirstFailure(PasswordRules(), s) == Some(PasswordMaxLength)
  {
    var rules := PasswordRules();
    PasswordRulesMean(s);
    assert rules[0].holds(s) && rules[1].holds(s) && !rules[2].holds(s);
    assert FailsFirstAt(rules, s, 2);
    FirstFailureAt(rules, s, 2);
  }

  lemma PasswordDigitRule(s: string)
    requires !IsBlank(s) && 8 <= JsLength(s) <= 50
    requires !HasDigit(s)
    ensures FirstFailure(PasswordRules(), s) == Some(PasswordDigit)
  {
    var rules := PasswordRules();
    PasswordRulesMean(s);
    assert FailsFirstAt(rules, s, 3) by {
      // the empty branches split j by value, so the solver checks one rule at a time
      forall j | 0 <= j < 3 ensures rules[j].holds(s) {
        if j == 0 {} else if j == 1 {} else {}
      }
    }
    FirstFailureAt(rules, s, 3);
  }

  lemma PasswordUppercaseRule(s: string)
    requires !IsBlank(s) && 8 <= JsLength(s) <= 50
    requires HasDigit(s) && !HasUpper(s)
    ensures FirstFailure(PasswordRules(), s) == Some(PasswordUppercase)
  {
    var rules := PasswordRules();
    PasswordRulesMean(s);
    assert FailsFirstAt(rules, s, 4) by {
      // the empty branches split j by value, so the solver checks one rule at a time
      forall j | 0 <= j < 4 ensures rules[j].holds(s) {
        if j == 0 {} else if j == 1 {} else if j == 2 {} else {}
      }
    }
    FirstFailureAt(rules, s, 4);
  }

  lemma PasswordSpecialSymbolRule(s: string)
    requires !IsBlank(s) && 8 <= JsLength(s) <= 50
    requires HasDigit(s) && HasUpper(s) && !HasSpecialSymbol(s)
    ensures FirstFailure(PasswordRules(), s) == Some(PasswordSpecialSymbol)
  {
    var rules := PasswordRules();
    PasswordRulesMean(s);
    assert FailsFirstAt(rules, s, 5) by {
      // the empty branches split j by value, so the solver checks one rule at a time
      forall j | 0 <= j < 5 ensures rules[j].holds(s) {
        if j == 0 {} else if j == 1 {} else if j == 2 {} else if j == 3 {} else {}
      }
    }
    FirstFailureAt(rules, s, 5);
  }

  /** Whitespace inside an otherwise valid password is the last thing
      reported. */
  lemma PasswordNoSpacesRule(s: string)
    requires !IsBlank(s) && 8 <= JsLength(s) <= 50
    requires HasDigit(s) && HasUpper(s) && HasSpecialSymbol(s) && HasWhitespace(s)
    ensures FirstFailure(PasswordRules(), s) == Some(PasswordNoSpaces)
  {
    var rules := PasswordRules();
    PasswordRulesMean(s);
    assert FailsFirstAt(rules, s, 6) by {
      // the empty branches split j by value, so the solver checks one rule at a time
      forall j | 0 <= j < 6 ensures rules[j].holds(s) {
        if j == 0 {} else if j == 1 {} else if j == 2 {} else if j == 3 {} else if j == 4 {} else {}
      }
    }
    FirstFailureAt(rules, s, 6);
  }

  /** A password meeting the six content rules passes the whole chain; it
      cannot be blank, as it has at least 8 non-whitespace characters. */
  lemma PasswordAllRulesPass(s: string)
    requires 8 <= JsLength(s) <= 50
    requires HasDigit(s) && HasUpper(s) && HasSpecialSymbol(s) && !HasWhitespace(s)
    ensures FirstFailure(PasswordRules(), s) == None
  {
    PasswordRulesMean(s);
    assert !IsJsWhitespace(s[0]);
    var rules := PasswordRules();
    forall i | 0 <= i < |rules| ensures rules[i].holds(s) {
      if i == 0 {} else if i == 1 {} else if i == 2 {} else if i == 3 {}
      else if i == 4 {} else if i == 5 {} else {}
    }
  }

  /** The message for a password, decided rule by rule: the rules are
      tried in the order required, at least 8, at most 50, digit,
      uppercase, special symbol, no spaces, and the first that fails
      decides the message. */
  ghost function PasswordVerdict(s: string): Option<string> {
    if IsBlank(s) then Some(PasswordRequired)
    else if JsLength(s) < 8 then Some(PasswordMinLength)
    else if JsLength(s) > 50 then Some(PasswordMaxLength)
    else if !HasDigit(s) then Some(PasswordDigit)
    else if !HasUpper(s) then Some(PasswordUppercase)
    else if !HasSpecialSymbol(s) then Some(PasswordSpecialSymbol)
    else if HasWhitespace(s) then Some(PasswordNoSpaces)
    else None
  }

  /** Running the whole chain gives the rule-by-rule verdict. */
  lemma PasswordChainGivesVerdict(s: string)
    ensures FirstFailure(PasswordRules(), s) == PasswordVerdict(s)
  {
    if IsBlank(s) {
      PasswordRequiredRule(s);
    } else if JsLength(s) < 8 {
      PasswordMinLengthRule(s);
    } else if JsLength(s) > 50 {
      PasswordMaxLengthRule(s);
    } else if !HasDigit(s) {
      PasswordDigitRule(s);
    } else if !HasUpper(s) {
      PasswordUppercaseRule(s);
    } else if !HasSpecialSymbol(s) {
      PasswordSpecialSymbolRule(s);
    } else if HasWhitespace(s) {
      PasswordNoSpacesRule(s);
    } else {
      PasswordAllRulesPass(s);
    }
  }

  /** The message the form shows for a password, or None when it is
      accepted. */
  function PasswordError(s: string): (r: Option<string>)
    ensures r == PasswordVerdict(s)
  {
    PasswordChainGivesVerdict(s);
    FirstFailure(PasswordRules(), s)
  }

  /** A password is accepted exactly when its length is within 8..50, it
      has a digit, an uppercase letter and a special symbol, and it has no
      whitespace; the "required" rule is then implied. */
  lemma PasswordAcceptedIff(s: string)
    ensures PasswordError(s) == None <==>
      && 8 <= JsLength(s) <= 50
      && HasDigit(s) && HasUpper(s) && HasSpecialSymbol(s)
      && !HasWhitespace(s)
  {
    if 8 <= JsLength(s) && !HasWhitespace(s) {
      assert !IsJsWhitespace(s[0]);
    }
  }

  function Repeat(c: char, n: nat): (r: string)
    ensures |r| == n && forall i | 0 <= i < n :: r[i] == c
  {
    if n == 0 then [] else [c] + Repeat(c, n - 1)
  }

  /** A password of exactly 50 code units can be accepted. */
  lemma FiftyCharacterPasswordIsAccepted()
    ensures var s := "Aa1!" + Repeat('a', 46); JsLength(s) == 50 && PasswordError(s) == None
  {
    var s := "Aa1!" + Repeat('a', 46);
    assert IsAsciiUpper(s[0]) && IsAsciiDigit(s[2]) && IsSpecialSymbol(s[3]);
    assert !HasWhitespace(s) by {
      forall i | 0 <= i < |s| ensures !IsJsWhitespace(s[i]) {
        if i >= 4 { assert s[i] == 'a'; }
      }
    }
    assert forall i | 0 <= i < |s| :: s[i] as int <= 0xFFFF by {
      forall i | 0 <= i < |s| ensures s[i] as int <= 0xFFFF {
        if i >= 4 { assert s[i] == 'a'; }
      }
    }
    assert PasswordVerdict(s) == None;
  }

  /** Four passwords that each miss one requirement get that rule's
      message. */
  lemma NoUppercaseExample(s: string)
    requires s == "alllowercase1!"
    ensures PasswordError(s) == Some(PasswordUppercase)
  {
    assert JsLength(s) == 14;
    assert !IsJsWhitespace(s[0]) && IsAsciiDigit(s[12]);
    assert !HasUpper(s);
    assert PasswordVerdict(s) == Some(PasswordUppercase);
  }

  lemma NoDigitExample(s: string)
    requires s == "Alllowercase!"
    ensures PasswordError(s) == Some(PasswordDigit)
  {
    assert JsLength(s) == 13;
    assert !IsJsWhitespace(s[0]);
    assert !HasDigit(s);
    assert PasswordVerdict(s) == Some(PasswordDigit);
  }

  predicate IsAsciiAlphanumeric(c: char) {
    'a' <= c <= 'z' || 'A' <= c <= 'Z' || '0' <= c <= '9'
  }

  lemma AlphanumericHasNoSpecialSymbol(s: string)
    requires forall i | 0 <= i < |s| :: IsAsciiAlphanumeric(s[i])
    ensures !HasSpecialSymbol(s)
  {
  }

  lemma NoSpecialSymbolExample(s: string)
    requires s == "Alllowercase1"
    ensures PasswordError(s) == Some(PasswordSpecialSymbol)
  {
    assert JsLength(s) == 13;
    assert !IsJsWhitespace(s[0]) && IsAsciiDigit(s[12]) && IsAsciiUpper(s[0]);
    assert forall i | 0 <= i < |s| :: IsAsciiAlphanumeric(s[i]);
    AlphanumericHasNoSpecialSymbol(s);
    assert PasswordVerdict(s) == Some(PasswordSpecialSymbol);
  }

  lemma InnerSpaceExample(s: string)
    requires s == "Alll owercase1!"
    ensures PasswordError(s) == Some(PasswordNoSpaces)
  {
    assert JsLength(s) == 15;
    assert !IsJsWhitespace(s[0]) && IsAsciiDigit(s[13]) && IsAsciiUpper(s[0]);
    assert IsSpecialSymbol(s[14]) && IsJsWhitespace(s[4]);
    assert PasswordVerdict(s) == Some(PasswordNoSpaces);
  }
}
