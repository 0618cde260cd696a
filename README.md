# PayPal.me gateway: account selection, modelled in Dafny

The WooCommerce PayPal.me gateway directs each order to one PayPal.me
username. The choice comes from two settings:

- `account_rules` is a text with one rule per line, written
  `username:min_amount:max_amount`. A maximum of `0` means there is no upper
  limit.
- `fallback_account` is one username.

For an order, `select_paypal_account` does the following:

1. It trims the rule text. If nothing is left, or only `0` (which `empty()`
   rejects), it returns the fallback, or null when `empty()` rejects the
   fallback too.
2. It explodes the text into lines. Each line is trimmed, skipped when PHP's
   `empty()` rejects it, and split on `:`.
3. It keeps a line only when the split gives exactly three parts and the
   trimmed username is not rejected by `empty()`.
4. It reads the minimum and the maximum with `floatval()`, taking a maximum
   of 0 as unbounded.
5. It scans the rules in line order and returns the username of the first
   rule whose inclusive range holds the order total.
6. When no rule holds the total, it returns the fallback, or null when the
   fallback is also empty.

`is_available` withholds the gateway when both trimmed settings are empty.

The model is organised as follows:

- `Wrappers` holds `Option`, which stands for a username or PHP's null.
- `PhpStrings` models the PHP built-ins the selector uses: `trim()` with its
  default character list (space, tab, line feed, carriage return, NUL,
  vertical tab), `explode()`/`implode()` on one character, and `empty()` on a
  string, where `"0"` is empty.
- `PhpFloat` models `floatval()` over exact reals: the value of the leading
  decimal number (sign, digits, fraction, exponent), or 0.
- `AccountRules` defines the rule datatype with an explicit `Unbounded`
  maximum, the reading of one line, the reading of the whole text in line
  order, and the first-match scan.
- `PaypalMe` holds:
  - the selector as a method with the source's two loops;
  - the pure function `SelectAccount` that states what it returns, and the
    proof that the method returns exactly that;
  - the configuration check of `is_available`;
  - the lemmas relating the two.
- `SelectionExamples` works through selections on rules like those of the default
  rule text (code.php:105).

All the line numbers below refer to `code.php`.

## Model

| member | source | states |
|---|---|---|
| PaypalMe.SelectPaypalAccount | code.php:121-178 | The selector (both early returns, the parse loop, the scan with `break`, the truthiness-based fallback) returns exactly `SelectAccount` of its inputs, and any username it returns is one `empty()` accepts. |
| PaypalMe.ReadRuleLines | code.php:133-154 | The parse loop appends, in line order, exactly the rules the lines read as (`ParseRules`), and every appended rule has a trimmed, colon-free username that `empty()` accepts. |
| PaypalMe.ScanRules | code.php:162-167 | The scan returns the username of the first rule whose inclusive range holds the amount, and nothing when no rule does; a returned username belongs to a covering rule with no covering rule before it. |
| PaypalMe.SelectWithoutRules | code.php:123-131 | With rule text that trims to `""` or `"0"`, the result is the fallback exactly as configured when `empty()` accepts it, and null otherwise. |
| PaypalMe.SelectFirstCovering | code.php:156-167 | When the k-th parsed rule is the first one covering the amount, the result is its username, whatever later overlapping rules say (rules are not sorted). |
| PaypalMe.SelectNoCovering | code.php:169-177 | When no parsed rule covers the amount, the result is the fallback, or null when `empty()` rejects it. |
| PaypalMe.SelectSound | code.php:147-171 | Every returned username is accepted by `empty()` and is either the configured fallback or the trimmed username read from some line of the rule text whose rule covers the amount. |
| PaypalMe.ZeroMaxIsUnbounded | code.php:143-150 | A line whose maximum reads as 0, including any maximum text that does not start with a number, gives a rule with no upper bound that covers exactly the amounts from its minimum up. |
| PaypalMe.RulesPresentNotBlocked | code.php:310-311 | When the rule text is non-empty after trimming, the configuration check never withholds the gateway, so availability is the platform's. |
| PaypalMe.AvailableWithoutRulesSelectsFallback | code.php:123-127 | If the gateway is offered (lines 310-311) and there is no rule text, the selector returns the fallback for every amount. |
| PaypalMe.WithheldLeavesNoAccount | code.php:123-131 | When the check at lines 310-311 withholds the gateway, the selector answers null, or a fallback that trims to `""` or `"0"`. |
| PaypalMe.IsAvailable | code.php:298-315 | The gateway is offered only when the platform offers it; offered with no rule text, `empty()` accepts the untrimmed fallback, so the selector has an account to return. |
| PaypalMe.SelectAccount | code.php:169-177 | The selection is null only when `empty()` rejects the fallback. |
| PaypalMe.RuleLines | code.php:133 | The lines of the trimmed rule text: one more than its line feeds, none holding a line feed, and glued back with line feeds they give the trimmed text. |
| PaypalMe.FallbackAccount | code.php:169-170 | The fallback as the selector uses it: absent exactly when `empty()` rejects the untrimmed setting, otherwise the setting unchanged. It has no contract of its own; `SelectWithoutRules`, `SelectNoCovering` and `SelectAccount` state what it gives. |
| PaypalMe.IsTruthy | code.php:169 | PHP truthiness of a string-or-null value (`!$selected_account` negates it). It has no contract of its own; `ScanResultTruthyIffMatched` pins down what it means here. |
| PaypalMe.ScanResultTruthyIffMatched | code.php:162-173 | On parsed rules, the scan's result is truthy exactly when some rule matched, because no parsed username is one `empty()` rejects; the truthiness test at line 169 therefore means "no rule matched". |
| PaypalMe.BlankFallbackReturned | code.php:125-126 | A fallback made only of trim characters is returned untrimmed when there is no rule text, while `is_available` (lines 310-311) withholds the gateway for the same settings. |
| AccountRules.ParseWellFormedLine | code.php:137-152 | A line whose trimmed text is `u:a:b` with colon-free fields reads as the rule (trimmed `u`, `floatval` of trimmed `a`, `floatval` of trimmed `b` with 0 unbounded), and is dropped exactly when `empty()` rejects the trimmed `u`. |
| AccountRules.ParseLineNeedsTwoColons | code.php:140-141 | A line whose trimmed text does not hold exactly two colons gives no rule. |
| AccountRules.ColonInUsernameDropsLine | code.php:140-141 | A username holding a colon makes the line split into more than three parts, so the line is dropped. |
| AccountRules.ParseRulesFromLines | code.php:136-153 | Every parsed rule is what some line of the text reads as, and it is well-formed. |
| AccountRules.LineOrderKept | code.php:136-153 | Of two lines that both give a rule, the earlier line's rule stands earlier among the parsed rules. |
| AccountRules.ParseRulesSkipsDropped | code.php:137-141 | Removing a line that gives no rule leaves the parsed rules unchanged. |
| AccountRules.ParseRules | code.php:133-154 | The rules in `$parsed_rules`: at most one per line. `ParseRulesFromLines`, `LineOrderKept` and `ParseRulesSkipsDropped` state where each comes from and in what order. |
| AccountRules.FirstMatchIsLeast | code.php:162-167 | The matched account is the username of the least-index rule covering the amount. |
| AccountRules.FirstMatch | code.php:162-166 | The match index is at most the rule count; no earlier rule covers the amount, and the rule at the index covers it. |
| AccountRules.MatchedAccount | code.php:162-167 | There is no match exactly when no rule covers the amount; a match is the username of a covering rule. |
| AccountRules.ParseLine | code.php:137-152 | Any rule a line reads as has a username that is trimmed, colon-free and accepted by `empty()`. |
| AccountRules.MaxBound | code.php:150 | A maximum read as 0 becomes the unbounded case and nothing else does; the number it stands for is `PHP_FLOAT_MAX` for 0 and the maximum itself otherwise. |
| AccountRules.Covers | code.php:163 | For every amount up to `PHP_FLOAT_MAX`, the range test is the source's `amount >= min && amount <= max`, with `PHP_FLOAT_MAX` stored for the unbounded maximum. |
| AccountRules.UnboundedCoversFromMin | code.php:163 | A rule with no upper bound covers exactly the amounts at or above its minimum. |
| PhpStrings.IsEmpty | code.php:125 | `empty()` on a string: true exactly for `""` and `"0"`. It has no contract of its own; `TrimmedNonEmpty`, `SelectWithoutRules` and `ParseLine` state its uses at lines 125, 128, 138, 146, 169 and 310. |
| PhpStrings.Trim | code.php:123 | `trim()` never lengthens its input, and what it returns neither starts nor ends with a trim character. |
| PhpStrings.TrimIsInfix | code.php:123 | `trim()` keeps one contiguous piece of its input, with only trim characters before and after it. |
| PhpStrings.TrimEmptyIffBlank | code.php:123 | `trim()` gives `""` exactly when every character is a trim character. |
| PhpStrings.TrimIdempotent | code.php:142 | Trimming twice is trimming once. |
| PhpStrings.TrimKeepsCharacters | code.php:142 | `trim()` introduces no character its input lacks, so a trimmed username holds no colon. |
| PhpStrings.TrimmedNonEmpty | code.php:310-311 | A setting that `empty()` accepts after trimming is accepted by `empty()` untrimmed. |
| PhpStrings.Split | code.php:140 | `explode()` gives one more piece than there are delimiters, and no piece holds the delimiter. |
| PhpStrings.JoinSplit | code.php:140 | Gluing `explode()`'s pieces back with the delimiter gives the original text. |
| PhpStrings.SplitJoin | code.php:140 | Exploding pieces glued with the delimiter gives those pieces, provided none holds the delimiter. |
| PhpStrings.SplitThreeFields | code.php:140-141 | `u:a:b` with colon-free fields explodes into exactly `[u, a, b]`. |
| PhpStrings.OccurrencesThreeFields | code.php:140-141 | The colons of `u:a:b` are those of the three fields plus two. |
| PhpFloat.FloatVal | code.php:143-144 | `floatval()`: the value of the leading decimal number, or 0. It has no contract of its own; see `FloatValInteger`, `FloatValDecimal`, `FloatValNonNumeric`, `FloatValNegative` and `FloatValOfNat`. |
| PhpFloat.FloatValNonNumeric | code.php:143-144 | Text that does not start with a number reads as 0. |
| PhpFloat.FloatValInteger | code.php:143-144 | A digit string reads as its integer value. |
| PhpFloat.FloatValDecimal | code.php:143-144 | `ddd.fff` reads as the whole part plus the fraction digits over the matching power of ten. |
| PhpFloat.FloatValNegative | code.php:143-144 | A leading minus negates the value of an unsigned number. |
| PhpFloat.FloatValOfNat | code.php:143-144 | The printed digits of a natural number read back as that number. |
| PhpFloat.ScanDigitsValue | code.php:143-144 | The left-to-right digit scan computes the digit string's value, shifted past the accumulated digits. |

## Left out

- `process_payment` (code.php:183-235) is left out. It covers the order lookup, meta updates, status change, stock reduction and cart emptying, all of which are side effects inside WooCommerce.
- The PayPal.me link (code.php:208-212) is left out, because it is built with `number_format` on floats and `urlencode`.
- `thankyou_page_instructions` and `email_instructions` (code.php:240-292) are left out. They only produce HTML or plain text through WordPress escaping functions.
- `init_form_fields` (code.php:72-116) is a static settings array. Only its default rule text (line 105) appears here, as data for the examples.
- The two logger calls (code.php:129, 174) are no-ops here. The currency parameter of `SelectPaypalAccount` is accepted and ignored, because the source uses it only in the log message.
- `parent::is_available()` (code.php:299) is a call into WooCommerce and becomes the boolean parameter `parentAvailable`.
- The plugin-active check, activation hook, action links and textdomain loading are left out: they are framework plumbing.
- `get_option` reads become the string parameters `accountRules` and `fallbackAccount`.
- The order total becomes a `real` parameter. `get_total()` may return a numeric string, which PHP compares numerically.
- `PhpFloat.FloatVal` reads exactly over reals. It does not model IEEE rounding, overflow to INF, hexadecimal or `inf`/`nan` spellings, or strtod's skipping of leading whitespace. The text is trimmed first, so only a leading form feed could differ. One case changes a branch: in PHP a maximum such as `1e-400` underflows to `0.0`, so line 150 stores `PHP_FLOAT_MAX` and the rule has no upper bound, while the model reads it as `UpTo` of that tiny positive value. `ZeroMaxIsUnbounded` is therefore about the model's exact reading of the maximum.
- `AccountRules.Bound` stands `Unbounded` for the `PHP_FLOAT_MAX` the source uses. The two differ only for totals above `PHP_FLOAT_MAX`, which are not finite floats.
- `PaypalMe.SelectPaypalAccount` keeps the early returns and the fallback step of the source's single function, and moves its two loops into the methods `ReadRuleLines` and `ScanRules`. The loops and branches are unchanged.
- PHP strings are bytes, while Dafny strings are sequences of Unicode characters. Every trim character and delimiter involved is ASCII, so trimming and splitting agree on both readings.
- Calling the selector twice on the same settings and amount gives the same result, because it is a function of its inputs, so no separate idempotence lemma is stated.
