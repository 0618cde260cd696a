/**
 * The account rules of the PayPal.me gateway: one rule per line of the
 * "account_rules" setting, written `username:min_amount:max_amount`, where a
 * maximum of 0 means "no upper limit". A rule covers the amounts between
 * its bounds, both included; the first rule in line order that covers an
 * amount selects its username.
 */
module AccountRules {
  import opened Wrappers
  import opened PhpStrings
  import opened PhpFloat

  /** The upper bound of a rule. The source stands PHP_FLOAT_MAX in for a
      maximum read as 0; here that is an explicit unbounded case. */
  datatype Bound = Unbounded | UpTo(limit: real)

  datatype Rule = Rule(username: string, min: real, max: Bound)

  /** PHP_FLOAT_MAX, the largest finite double, (2^53 - 1) * 2^971. */
  const PhpFloatMax: real := 179769313486231570814527423731704356798070567525844996598917476803157260780028538760589558632766878171540458953514382464234321326889464182768467546703537516986049910576551282076245490090389328944075868508455133942304583236903222948165808559332123348274797826204144723168738177180919299881250404026184124858368.0

  /** The number the source stores as a rule's maximum: PHP_FLOAT_MAX for
      no upper bound, the limit otherwise. */
  function SourceMax(b: Bound): real {
    if b.Unbounded? then PhpFloatMax else b.limit
  }

  /** The bound a maximum read as v stands for: no upper bound exactly when
      v is 0, and the number stored is what the source stores. */
  function MaxBound(v: real): (b: Bound)
    ensures b.Unbounded? <==> v == 0.0
    ensures SourceMax(b) == (if v == 0.0 then PhpFloatMax else v)
  {
    if v == 0.0 then Unbounded else UpTo(v)
  }

  /** The rule's inclusive range holds the amount. For every amount up to
      PHP_FLOAT_MAX this is the source's test of the amount against the
      stored minimum and maximum. */
  function Covers(r: Rule, amount: real): (c: bool)
    ensures amount <= PhpFloatMax ==> (c <==> amount >= r.min && amount <= SourceMax(r.max))
  {
    amount >= r.min && (r.max.Unbounded? || amount <= r.max.limit)
  }

  /** What every parsed rule satisfies: its username is trimmed, is not
      one that empty() rejects, and holds no colon. */
  predicate WellFormed(r: Rule) {
    !IsEmpty(r.username) && Trim(r.username) == r.username && ':' !in r.username
  }

  /** One line of the rule text read as a rule: trimmed, skipped when
      empty(), split on ':', kept only with exactly three parts and a
      username that empty() does not reject. */
  function ParseLine(line: string): (r: Option<Rule>)
    ensures r.Some? ==> WellFormed(r.value)
  {
    var text := Trim(line);
    if IsEmpty(text) then None
    else
      var parts := Split(text, ':');
      if |parts| != 3 then None
      else
        var username := Trim(parts[0]);
        if IsEmpty(username) then None
        else
          TrimIdempotent(parts[0]);
          TrimKeepsCharacters(parts[0], ':');
          Some(Rule(username, FloatVal(Trim(parts[1])), MaxBound(FloatVal(Trim(parts[2])))))
  }

  /** The values that are present in a sequence of optional values, in
      their order. */
  function Present<T>(xs: seq<Option<T>>): (ys: seq<T>)
    ensures |ys| <= |xs|
  {
    if xs == [] then []
    else (if xs[0].Some? then [xs[0].value] else []) + Present(xs[1..])
  }

  /** What each line of the rule text reads as, line by line. */
  function ReadLines(lines: seq<string>): seq<Option<Rule>> {
    seq(|lines|, k requires 0 <= k < |lines| => ParseLine(lines[k]))
  }

  /** The rule text's lines read as rules, in line order. */
  function ParseRules(lines: seq<string>): (rules: seq<Rule>)
    ensures |rules| <= |lines|
  {
    Present(ReadLines(lines))
  }

  /** The index of the first rule that covers the amount, or the number of
      rules when none does. */
  function FirstMatch(rules: seq<Rule>, amount: real): (k: nat)
    ensures k <= |rules|
    ensures forall j | 0 <= j < k :: !Covers(rules[j], amount)
    ensures k < |rules| ==> Covers(rules[k], amount)
  {
    if rules == [] || Covers(rules[0], amount) then 0
    else 1 + FirstMatch(rules[1..], amount)
  }

  /** The username of the first rule that covers the amount, if any. */
  function MatchedAccount(rules: seq<Rule>, amount: real): (account: Option<string>)
    ensures account.None? <==> forall j | 0 <= j < |rules| :: !Covers(rules[j], amount)
    ensures account.Some? ==> exists j | 0 <= j < |rules| ::
      Covers(rules[j], amount) && rules[j].username == account.value
  {
    var k := FirstMatch(rules, amount);
    if k < |rules| then Some(rules[k].username) else None
  }

  /** A rule read with an unbounded maximum covers every amount from its
      minimum on, however large. */
  lemma UnboundedCoversFromMin(r: Rule, amount: real)
    requires r.max == Unbounded
    ensures Covers(r, amount) <==> amount >= r.min
  {
  }

  /** The line `u:a:b` (after trimming, u, a and b colon-free) gives the
      rule with the trimmed username, the minimum and maximum read by
      floatval(), and a maximum of 0 taken as unbounded; it is dropped
      exactly when empty() rejects the trimmed username. */
  lemma {:induction false} ParseWellFormedLine(line: string, u: string, a: string, b: string)
    requires Trim(line) == u + ":" + a + ":" + b
    requires ':' !in u && ':' !in a && ':' !in b
    ensures ParseLine(line) ==
      if IsEmpty(Trim(u)) then None
      else Some(Rule(Trim(u), FloatVal(Trim(a)), MaxBound(FloatVal(Trim(b)))))
  {
    SplitThreeFields(u, a, b, ':');
    assert |Trim(line)| >= 2;
  }

  /** A line whose trimmed text does not hold exactly two colons
      contributes no rule. */
  lemma ParseLineNeedsTwoColons(line: string)
    requires Occurrences(Trim(line), ':') != 2
    ensures ParseLine(line) == None
  {
  }

  /** A username with a colon in it splits the line into more than three
      parts, so the line is dropped. */
  lemma {:induction false} ColonInUsernameDropsLine(line: string, u: string, a: string, b: string)
    requires Trim(line) == u + ":" + a + ":" + b
    requires ':' in u
    ensures ParseLine(line) == None
  {
    OccurrencesThreeFields(u, a, b);
    assert |Split(Trim(line), ':')| > 3;
  }

  /** Present values of consecutive pieces follow each other. */
  lemma {:induction false} PresentAppend<T>(front: seq<Option<T>>, back: seq<Option<T>>)
    ensures Present(front + back) == Present(front) + Present(back)
  {
    if front == [] {
      assert front + back == back;
    } else {
      assert (front + back)[0] == front[0];
      assert (front + back)[1..] == front[1..] + back;
      PresentAppend(front[1..], back);
    }
  }

  /** Every present value stands somewhere in the sequence. */
  lemma {:induction false} PresentFrom<T>(xs: seq<Option<T>>, k: nat)
    requires k < |Present(xs)|
    ensures exists i | 0 <= i < |xs| :: xs[i] == Some(Present(xs)[k])
  {
    var here := if xs[0].Some? then [xs[0].value] else [];
    if k < |here| {
      assert xs[0] == Some(Present(xs)[k]);
    } else {
      PresentFrom(xs[1..], k - |here|);
      var i :| 0 <= i < |xs[1..]| && xs[1..][i] == Some(Present(xs[1..])[k - |here|]);
      assert xs[i + 1] == Some(Present(xs)[k]);
    }
  }

  /** A value present at position i of the sequence stands in Present at
      the number of values present before i. */
  lemma PresentAt<T>(xs: seq<Option<T>>, i: nat)
    requires i < |xs| && xs[i].Some?
    ensures |Present(xs[..i])| < |Present(xs)|
    ensures Present(xs)[|Present(xs[..i])|] == xs[i].value
  {
    assert xs == xs[..i] + ([xs[i]] + xs[i + 1..]);
    PresentAppend(xs[..i], [xs[i]] + xs[i + 1..]);
    assert ([xs[i]] + xs[i + 1..])[1..] == xs[i + 1..];
  }

  /** Present values keep the order of their positions. */
  lemma PresentOrder<T>(xs: seq<Option<T>>, i: nat, j: nat)
    requires i < j < |xs| && xs[i].Some? && xs[j].Some?
    ensures |Present(xs[..i])| < |Present(xs[..j])|
  {
    assert xs[..j] == xs[..i] + xs[i..j];
    PresentAppend(xs[..i], xs[i..j]);
    assert xs[i..j] == [xs[i]] + xs[i + 1..j];
    PresentAppend([xs[i]], xs[i + 1..j]);
    assert [xs[i]][1..] == [];
  }

  /** Reading the values one at a time: those of the first i + 1 are
      those of the first i followed by the value at i, if present. */
  lemma PresentSnoc<T>(xs: seq<Option<T>>, i: nat)
    requires i < |xs|
    ensures Present(xs[..i + 1]) == Present(xs[..i]) + (if xs[i].Some? then [xs[i].value] else [])
  {
    assert xs[..i + 1] == xs[..i] + [xs[i]];
    PresentAppend(xs[..i], [xs[i]]);
    assert [xs[i]][1..] == [];
  }

  /** Every parsed rule is what some line of the text reads as; in
      particular it is well-formed. */
  lemma ParseRulesFromLines(lines: seq<string>, k: nat)
    requires k < |ParseRules(lines)|
    ensures exists i | 0 <= i < |lines| :: ParseLine(lines[i]) == Some(ParseRules(lines)[k])
    ensures WellFormed(ParseRules(lines)[k])
  {
    PresentFrom(ReadLines(lines), k);
  }

  /** Of two lines that both give a rule, the earlier one's rule comes
      first among the parsed rules. */
  lemma LineOrderKept(lines: seq<string>, i: nat, j: nat)
    requires i < j < |lines|
    requires ParseLine(lines[i]).Some? && ParseLine(lines[j]).Some?
    ensures exists p, q | 0 <= p < q < |ParseRules(lines)| ::
      ParseRules(lines)[p] == ParseLine(lines[i]).value &&
      ParseRules(lines)[q] == ParseLine(lines[j]).value
  {
    var xs := ReadLines(lines);
    PresentAt(xs, i);
    PresentAt(xs, j);
    PresentOrder(xs, i, j);
    var p, q := |Present(xs[..i])|, |Present(xs[..j])|;
    assert ParseRules(lines)[p] == ParseLine(lines[i]).value;
    assert ParseRules(lines)[q] == ParseLine(lines[j]).value;
  }

  /** An absent value contributes nothing to what is present. */
  lemma PresentSkip<T>(xs: seq<Option<T>>, i: nat)
    requires i < |xs| && xs[i].None?
    ensures Present(xs[..i] + xs[i + 1..]) == Present(xs)
  {
    var front, back := xs[..i], xs[i + 1..];
    var tail := [xs[i]] + back;
    assert xs == front + tail;
    PresentAppend(front, tail);
    assert Present(tail) == Present(back) by {
      assert tail[0] == xs[i] && tail[1..] == back;
    }
    PresentAppend(front, back);
  }

  /** Reading the text without line i is reading it and leaving out what
      line i read as. */
  lemma ReadLinesWithout(lines: seq<string>, i: nat)
    requires i < |lines|
    ensures ReadLines(lines[..i] + lines[i + 1..]) == ReadLines(lines)[..i] + ReadLines(lines)[i + 1..]
  {
    var rest := lines[..i] + lines[i + 1..];
    var xs := ReadLines(lines);
    forall j | 0 <= j < |rest|
      ensures ReadLines(rest)[j] == (xs[..i] + xs[i + 1..])[j]
    {
      if j < i {
        assert rest[j] == lines[j];
      } else {
        assert rest[j] == lines[j + 1];
      }
    }
  }

  /** A line that gives no rule contributes nothing: taking it out of the
      text leaves the parsed rules as they were. */
  lemma ParseRulesSkipsDropped(lines: seq<string>, i: nat)
    requires i < |lines| && ParseLine(lines[i]).None?
    ensures ParseRules(lines[..i] + lines[i + 1..]) == ParseRules(lines)
  {
    ReadLinesWithout(lines, i);
    PresentSkip(ReadLines(lines), i);
  }

  /** With overlapping ranges the earlier rule wins: the match is the
      rule at the least index that covers the amount. */
  lemma FirstMatchIsLeast(rules: seq<Rule>, amount: real, k: nat)
    requires k < |rules| && Covers(rules[k], amount)
    requires forall j | 0 <= j < k :: !Covers(rules[j], amount)
    ensures MatchedAccount(rules, amount) == Some(rules[k].username)
  {
  }
}
