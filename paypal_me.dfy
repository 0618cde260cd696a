/**
 * The PayPal.me gateway's choice of account for an order: the account
 * rules and the fallback username arrive as the two settings strings
 * "account_rules" and "fallback_account", and the answer is a username or
 * nothing (PHP's null), which the payment step turns into a failure.
 */
module PaypalMe {
  import opened Wrappers
  import opened PhpStrings
  import opened PhpFloat
  import opened AccountRules

  /** The fallback setting as the selector uses it: absent when empty()
      rejects it ("" or "0"), otherwise returned as it stands, untrimmed. */
  function FallbackAccount(fallbackAccount: string): Option<string> {
    if IsEmpty(fallbackAccount) then None else Some(fallbackAccount)
  }

  /** The lines of the rule setting, after trimming the whole text: one
      more than its line feeds, none holding a line feed, and together,
      glued by line feeds, the trimmed text again. */
  function RuleLines(accountRules: string): (lines: seq<string>)
    ensures |lines| == Occurrences(Trim(accountRules), '\n') + 1
    ensures forall i | 0 <= i < |lines| :: '\n' !in lines[i]
    ensures Join(lines, '\n') == Trim(accountRules)
  {
    JoinSplit(Trim(accountRules), '\n');
    Split(Trim(accountRules), '\n')
  }

  /** The account the selector promises: with no rule text, the fallback;
      otherwise the username of the first rule in line order whose range
      holds the amount, and the fallback when there is none. */
  function SelectAccount(amount: real, accountRules: string, fallbackAccount: string): (selected: Option<string>)
    ensures selected.None? ==> IsEmpty(fallbackAccount)
  {
    if IsEmpty(Trim(accountRules)) then FallbackAccount(fallbackAccount)
    else
      match MatchedAccount(ParseRules(RuleLines(accountRules)), amount)
      case Some(username) => Some(username)
      case None => FallbackAccount(fallbackAccount)
  }

  /** PHP's truthiness of a value that is a string or null. */
  predicate IsTruthy(value: Option<string>) {
    value.Some? && !IsEmpty(value.value)
  }

  /** The selector as the gateway runs it: trim the rule text, settle the
      no-rules cases, read the lines into rules, scan them for the first
      range holding the amount, then fall back. The currency only appears
      in a log message, and the two log calls are left out. */
  method SelectPaypalAccount(amount: real, currency: string, accountRules: string, fallbackAccount: string)
    returns (selected: Option<string>)
    ensures selected == SelectAccount(amount, accountRules, fallbackAccount)
    ensures selected.Some? ==> !IsEmpty(selected.value)
  {
    selected := None;
    var rulesRaw := Trim(accountRules);
    if IsEmpty(rulesRaw) && !IsEmpty(fallbackAccount) {
      return Some(fallbackAccount);
    }
    if IsEmpty(rulesRaw) && IsEmpty(fallbackAccount) {
      return None;
    }

    var rules := Split(rulesRaw, '\n');
    var parsedRules := ReadRuleLines(rules);
    selected := ScanRules(parsedRules, amount);

    if !IsTruthy(selected) && !IsEmpty(fallbackAccount) {
      selected := Some(fallbackAccount);
    }
  }

  /** The selector's first loop: each line trimmed and skipped when empty(),
      split on ':', and appended as a rule when it has three parts and a
      username empty() does not reject. */
  method ReadRuleLines(rules: seq<string>) returns (parsedRules: seq<Rule>)
    ensures parsedRules == ParseRules(rules)
    ensures forall k | 0 <= k < |parsedRules| :: WellFormed(parsedRules[k])
  {
    parsedRules := [];
    for i := 0 to |rules|
      invariant parsedRules == Present(ReadLines(rules)[..i])
    {
      PresentSnoc(ReadLines(rules), i);
      var ruleLine := Trim(rules[i]);
      if IsEmpty(ruleLine) {
        continue;
      }
      var parts := Split(ruleLine, ':');
      if |parts| == 3 {
        var username := Trim(parts[0]);
        var min := FloatVal(Trim(parts[1]));
        var max := FloatVal(Trim(parts[2]));
        if !IsEmpty(username) {
          parsedRules := parsedRules + [Rule(username, min, if max == 0.0 then Unbounded else UpTo(max))];
        }
      }
    }
    assert ReadLines(rules)[..|rules|] == ReadLines(rules);
    forall k | 0 <= k < |parsedRules| ensures WellFormed(parsedRules[k]) {
      ParseRulesFromLines(rules, k);
    }
  }

  /** The selector's second loop: the username of the first rule, in
      order, whose range holds the amount; the scan stops there. */
  method ScanRules(parsedRules: seq<Rule>, amount: real) returns (selected: Option<string>)
    ensures selected == MatchedAccount(parsedRules, amount)
    ensures selected.Some? ==> exists k | 0 <= k < |parsedRules| ::
      Covers(parsedRules[k], amount) && selected.value == parsedRules[k].username &&
      forall j | 0 <= j < k :: !Covers(parsedRules[j], amount)
  {
    selected := None;
    for k := 0 to |parsedRules|
      invariant selected == None
      invariant forall j | 0 <= j < k :: !Covers(parsedRules[j], amount)
    {
      var rule := parsedRules[k];
      if amount >= rule.min && (rule.max.Unbounded? || amount <= rule.max.limit) {
        selected := Some(rule.username);
        FirstMatchIsLeast(parsedRules, amount, k);
        break;
      }
    }
  }

  /** The configuration half of is_available(): the gateway is offered only
      when the platform offers it and the rule text or the fallback is
      something other than "" or "0" after trimming. Offered without rule
      text, it always has a fallback the selector accepts. */
  function IsAvailable(parentAvailable: bool, accountRules: string, fallbackAccount: string): (available: bool)
    ensures available ==> parentAvailable
    ensures available && IsEmpty(Trim(accountRules)) ==> FallbackAccount(fallbackAccount) == Some(fallbackAccount)
  {
    TrimmedNonEmpty(fallbackAccount);
    if !parentAvailable then false
    else if IsEmpty(Trim(accountRules)) && IsEmpty(Trim(fallbackAccount)) then false
    else true
  }

  /** With no rule text the answer is the fallback, or nothing when
      empty() rejects the fallback. */
  lemma SelectWithoutRules(amount: real, accountRules: string, fallbackAccount: string)
    requires IsEmpty(Trim(accountRules))
    ensures !IsEmpty(fallbackAccount) ==> SelectAccount(amount, accountRules, fallbackAccount) == Some(fallbackAccount)
    ensures IsEmpty(fallbackAccount) ==> SelectAccount(amount, accountRules, fallbackAccount) == None
  {
  }

  /** On parsed rules, the truthiness test of the fallback step fails
      exactly when the scan found no rule: a matched username is never one
      that empty() rejects. */
  lemma ScanResultTruthyIffMatched(lines: seq<string>, amount: real)
    ensures IsTruthy(MatchedAccount(ParseRules(lines), amount)) <==>
      MatchedAccount(ParseRules(lines), amount).Some?
  {
    var rules := ParseRules(lines);
    var k := FirstMatch(rules, amount);
    if k < |rules| {
      ParseRulesFromLines(lines, k);
    }
  }

  /** The first parsed rule in line order whose range holds the amount
      decides, whatever later rules overlap it. */
  lemma SelectFirstCovering(amount: real, accountRules: string, fallbackAccount: string, k: nat)
    requires !IsEmpty(Trim(accountRules))
    requires k < |ParseRules(RuleLines(accountRules))|
    requires Covers(ParseRules(RuleLines(accountRules))[k], amount)
    requires forall j | 0 <= j < k :: !Covers(ParseRules(RuleLines(accountRules))[j], amount)
    ensures SelectAccount(amount, accountRules, fallbackAccount) ==
      Some(ParseRules(RuleLines(accountRules))[k].username)
  {
    FirstMatchIsLeast(ParseRules(RuleLines(accountRules)), amount, k);
  }

  /** When no parsed rule holds the amount, the answer is the fallback, or
      nothing when empty() rejects it. */
  lemma SelectNoCovering(amount: real, accountRules: string, fallbackAccount: string)
    requires forall j | 0 <= j < |ParseRules(RuleLines(accountRules))| ::
      !Covers(ParseRules(RuleLines(accountRules))[j], amount)
    ensures SelectAccount(amount, accountRules, fallbackAccount) == FallbackAccount(fallbackAccount)
  {
  }

  /** Whatever the selector answers is the fallback, or the trimmed
      username of a line of the rule text whose rule holds the amount. */
  lemma SelectSound(amount: real, accountRules: string, fallbackAccount: string, username: string)
    requires SelectAccount(amount, accountRules, fallbackAccount) == Some(username)
    ensures !IsEmpty(username)
    ensures (username == fallbackAccount && !IsEmpty(fallbackAccount)) ||
      exists i, r | 0 <= i < |RuleLines(accountRules)| && ParseLine(RuleLines(accountRules)[i]) == Some(r) ::
        Covers(r, amount) && r.username == username
  {
    var rules := ParseRules(RuleLines(accountRules));
    if !IsEmpty(Trim(accountRules)) && MatchedAccount(rules, amount).Some? {
      var k := FirstMatch(rules, amount);
      ParseRulesFromLines(RuleLines(accountRules), k);
    }
  }

  /** A rule line whose maximum reads as 0 (the literal 0, or text that is
      not a number) has no upper bound: it holds every amount from its
      minimum on. */
  lemma ZeroMaxIsUnbounded(line: string, u: string, a: string, b: string, amount: real)
    requires Trim(line) == u + ":" + a + ":" + b
    requires ':' !in u && ':' !in a && ':' !in b
    requires !IsEmpty(Trim(u))
    requires FloatVal(Trim(b)) == 0.0 || !StartsNumeric(Trim(b))
    ensures ParseLine(line).Some? && ParseLine(line).value.max == Unbounded
    ensures Covers(ParseLine(line).value, amount) <==> amount >= FloatVal(Trim(a))
  {
    if !StartsNumeric(Trim(b)) {
      FloatValNonNumeric(Trim(b));
    }
    ParseWellFormedLine(line, u, a, b);
  }

  /** Rule text that survives trimming is never blocked by the
      configuration check: availability is then the platform's. */
  lemma RulesPresentNotBlocked(parentAvailable: bool, accountRules: string, fallbackAccount: string)
    requires !IsEmpty(Trim(accountRules))
    ensures IsAvailable(parentAvailable, accountRules, fallbackAccount) == parentAvailable
  {
  }

  /** When the gateway is offered without rule text, the selector has a
      fallback to return, for every amount. */
  lemma AvailableWithoutRulesSelectsFallback(parentAvailable: bool, accountRules: string, fallbackAccount: string, amount: real)
    requires IsAvailable(parentAvailable, accountRules, fallbackAccount)
    requires IsEmpty(Trim(accountRules))
    ensures SelectAccount(amount, accountRules, fallbackAccount) == Some(fallbackAccount)
  {
    TrimmedNonEmpty(fallbackAccount);
  }

  /** When the configuration check withholds the gateway, the selector has
      no account to offer: it answers nothing, or a fallback that is blank
      once trimmed. */
  lemma WithheldLeavesNoAccount(accountRules: string, fallbackAccount: string, amount: real)
    requires !IsAvailable(true, accountRules, fallbackAccount)
    ensures var selected := SelectAccount(amount, accountRules, fallbackAccount);
      selected.None? || (selected == Some(fallbackAccount) && IsEmpty(Trim(fallbackAccount)))
  {
  }

  /** A fallback made only of trim characters is returned as it stands
      when there is no rule text, although is_available() withholds the
      gateway in that case. */
  lemma BlankFallbackReturned(parentAvailable: bool, amount: real, accountRules: string, fallbackAccount: string)
    requires IsEmpty(Trim(accountRules))
    requires fallbackAccount != [] && forall k | 0 <= k < |fallbackAccount| :: IsTrimChar(fallbackAccount[k])
    ensures SelectAccount(amount, accountRules, fallbackAccount) == Some(fallbackAccount)
    ensures !IsAvailable(parentAvailable, accountRules, fallbackAccount)
  {
    TrimEmptyIffBlank(fallbackAccount);
    assert IsTrimChar(fallbackAccount[0]);
  }
}
