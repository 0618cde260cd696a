/**
 * Worked selections on concrete settings: the tiers of the default rule
 * text of the settings form, a gap between tiers, and overlapping
 * ranges.
 */
module SelectionExamples {
  import opened Wrappers
  import opened AccountRules

  /** Rules like those of the default rule text "your_paypal_user1:0:100",
      "your_paypal_user2:100.01:500", "your_paypal_user3:500.01:0". */
  const DefaultTiers := [
    Rule("your_paypal_user1", 0.0, UpTo(100.0)),
    Rule("your_paypal_user2", 100.01, UpTo(500.0)),
    Rule("your_paypal_user3", 500.01, Unbounded)]

  lemma DefaultTiersSelect()
    ensures MatchedAccount(DefaultTiers, 50.0) == Some("your_paypal_user1")
    ensures MatchedAccount(DefaultTiers, 100.0) == Some("your_paypal_user1")
    ensures MatchedAccount(DefaultTiers, 150.0) == Some("your_paypal_user2")
    ensures MatchedAccount(DefaultTiers, 1000000.0) == Some("your_paypal_user3")
  {
  }

  /** An amount strictly between two tiers is held by no rule, so it goes
      to the fallback. */
  lemma DefaultTiersGap()
    ensures MatchedAccount(DefaultTiers, 100.005) == None
  {
  }

  /** Overlapping ranges: the rule listed first wins. */
  lemma OverlapFirstListedWins()
    ensures MatchedAccount([Rule("X", 0.0, UpTo(200.0)), Rule("Y", 100.0, UpTo(300.0))], 150.0) == Some("X")
  {
  }
}
