/**
 * The PHP string built-ins the account selector relies on: trim() with its
 * default character list, explode() and implode() with a one-character
 * delimiter, and empty() applied to a string.
 */
module PhpStrings {

  /** The characters trim() strips by default: space, tab, line feed,
      carriage return, NUL and vertical tab. */
  predicate IsTrimChar(c: char) {
    c == ' ' || c == '\t' || c == '\n' || c == '\r' || c == '\0' || c == '\U{B}'
  }

  /** empty() on a string: true exactly for "" and for "0". */
  predicate IsEmpty(s: string) {
    s == "" || s == "0"
  }

  /** ltrim(): drops the leading run of trim characters. */
  function TrimStart(s: string): (r: string)
    ensures |r| <= |s|
  {
    if s != [] && IsTrimChar(s[0]) then TrimStart(s[1..]) else s
  }

  /** What ltrim() keeps is a suffix of s that does not start with a trim
      character, and what it drops is trim characters only. */
  lemma {:induction false} TrimStartSuffix(s: string)
    ensures var r := TrimStart(s);
      r == s[|s| - |r|..] && (r == [] || !IsTrimChar(r[0])) &&
      forall k | 0 <= k < |s| - |r| :: IsTrimChar(s[k])
  {
    if s != [] && IsTrimChar(s[0]) {
      TrimStartSuffix(s[1..]);
      var r := TrimStart(s);
      assert r == TrimStart(s[1..]);
      forall k | 0 <= k < |s| - |r|
        ensures IsTrimChar(s[k])
      {
        if k > 0 {
          assert s[k] == s[1..][k - 1];
        }
      }
    }
  }

  /** rtrim(): drops the trailing run of trim characters. */
  function TrimEnd(s: string): (r: string)
    ensures |r| <= |s|
  {
    if s != [] && IsTrimChar(s[|s| - 1]) then TrimEnd(s[..|s| - 1]) else s
  }

  /** What rtrim() keeps is a prefix of s that does not end with a trim
      character, and what it drops is trim characters only. */
  lemma {:induction false} TrimEndPrefix(s: string)
    ensures var r := TrimEnd(s);
      r == s[..|r|] && (r == [] || !IsTrimChar(r[|r| - 1])) &&
      forall k | |r| <= k < |s| :: IsTrimChar(s[k])
  {
    if s != [] && IsTrimChar(s[|s| - 1]) {
      var init := s[..|s| - 1];
      TrimEndPrefix(init);
      var r := TrimEnd(s);
      assert r == TrimEnd(init);
      assert init[..|r|] == s[..|r|];
      forall k | |r| <= k < |s|
        ensures IsTrimChar(s[k])
      {
        if k < |s| - 1 {
          assert s[k] == init[k];
        }
      }
    }
  }

  /** trim(): what is left of s once its leading and its trailing runs of
      trim characters are gone; it neither starts nor ends with one. */
  function Trim(s: string): (r: string)
    ensures |r| <= |s|
    ensures r == [] || (!IsTrimChar(r[0]) && !IsTrimChar(r[|r| - 1]))
  {
    var left := TrimStart(s);
    TrimStartSuffix(s);
    TrimEndPrefix(left);
    var r := TrimEnd(left);
    assert r != [] ==> r[0] == left[0];
    r
  }

  /** trim() is rtrim() of ltrim(). */
  lemma TrimUnfold(s: string)
    ensures Trim(s) == TrimEnd(TrimStart(s))
  {
  }

  /** trim() keeps one contiguous piece of s, and what lies around that
      piece is trim characters only. */
  lemma TrimIsInfix(s: string)
    ensures |s| - |TrimStart(s)| + |Trim(s)| <= |s|
    ensures Trim(s) == s[|s| - |TrimStart(s)|..|s| - |TrimStart(s)| + |Trim(s)|]
    ensures forall k | 0 <= k < |s| - |TrimStart(s)| :: IsTrimChar(s[k])
    ensures forall k | |s| - |TrimStart(s)| + |Trim(s)| <= k < |s| :: IsTrimChar(s[k])
  {
    TrimUnfold(s);
    var left := TrimStart(s);
    TrimStartSuffix(s);
    TrimEndPrefix(left);
    InfixOfSuffix(s, left, TrimEnd(left));
  }

  /** trim() leaves nothing exactly when every character is a trim
      character. */
  lemma TrimEmptyIffBlank(s: string)
    ensures Trim(s) == [] <==> forall k | 0 <= k < |s| :: IsTrimChar(s[k])
  {
    TrimIsInfix(s);
    var i := |s| - |TrimStart(s)|;
    var r := Trim(s);
    if r != [] {
      assert s[i] == r[0];
    }
  }

  /** A prefix r of a suffix left of s, where the parts of s outside left
      and the part of left after r are trim characters. */
  lemma InfixOfSuffix(s: string, left: string, r: string)
    requires |left| <= |s| && left == s[|s| - |left|..]
    requires |r| <= |left| && r == left[..|r|]
    requires forall k | |r| <= k < |left| :: IsTrimChar(left[k])
    ensures |s| - |left| + |r| <= |s|
    ensures r == s[|s| - |left|..|s| - |left| + |r|]
    ensures forall k | |s| - |left| + |r| <= k < |s| :: IsTrimChar(s[k])
  {
    var i := |s| - |left|;
    assert s[i..][..|r|] == s[i..i + |r|];
    forall k | i + |r| <= k < |s|
      ensures IsTrimChar(s[k])
    {
      assert s[k] == left[k - i];
    }
  }

  /** trim() changes nothing on its own output. */
  lemma TrimIdempotent(s: string)
    ensures Trim(Trim(s)) == Trim(s)
  {
    var t := Trim(s);
    if t != [] {
      TrimFixesUntrimmed(t);
    }
  }

  /** A string that neither starts nor ends with a trim character is
      its own trim(). */
  lemma TrimFixesUntrimmed(t: string)
    requires t != [] && !IsTrimChar(t[0]) && !IsTrimChar(t[|t| - 1])
    ensures Trim(t) == t
  {
    assert TrimStart(t) == t;
    assert TrimEnd(t) == t;
  }

  /** trim() adds no character its input lacks. */
  lemma TrimKeepsCharacters(s: string, c: char)
    requires c !in s
    ensures c !in Trim(s)
  {
    TrimIsInfix(s);
    var r := Trim(s);
    var i := |s| - |TrimStart(s)|;
    forall k | 0 <= k < |r|
      ensures r[k] != c
    {
      assert r[k] == s[i + k];
    }
  }

  /** A string whose trim() is non-empty and not "0" is itself neither ""
      nor "0": whatever empty() rejects after trimming it also rejects
      before. */
  lemma TrimmedNonEmpty(s: string)
    ensures !IsEmpty(Trim(s)) ==> !IsEmpty(s)
  {
    if s == "0" {
      TrimFixesUntrimmed(s);
    }
  }

  /** The number of times c occurs in s. */
  function Occurrences(s: string, c: char): (n: nat)
    ensures n <= |s|
    ensures n == 0 <==> c !in s
  {
    if s == [] then 0 else (if s[0] == c then 1 else 0) + Occurrences(s[1..], c)
  }

  lemma {:induction false} OccurrencesAppend(a: string, b: string, c: char)
    ensures Occurrences(a + b, c) == Occurrences(a, c) + Occurrences(b, c)
  {
    if a == [] {
      assert a + b == b;
    } else {
      assert (a + b)[0] == a[0] && (a + b)[1..] == a[1..] + b;
      OccurrencesAppend(a[1..], b, c);
    }
  }

  /** implode() with a one-character glue. */
  function Join(parts: seq<string>, sep: char): string
    requires |parts| >= 1
  {
    if |parts| == 1 then parts[0] else parts[0] + [sep] + Join(parts[1..], sep)
  }

  /** explode() with a one-character delimiter: the pieces of s between
      the delimiters, one more piece than there are delimiters, none of
      them holding the delimiter; explode of the empty string is one empty
      piece. */
  function Split(s: string, sep: char): (parts: seq<string>)
    ensures |parts| == Occurrences(s, sep) + 1
    ensures forall i | 0 <= i < |parts| :: sep !in parts[i]
  {
    if s == [] then [[]]
    else
      var rest := Split(s[1..], sep);
      if s[0] == sep then [[]] + rest
      else [[s[0]] + rest[0]] + rest[1..]
  }

  /** implode() undoes explode(): gluing the pieces back with the
      delimiter gives the original string. */
  lemma {:induction false} JoinSplit(s: string, sep: char)
    ensures Join(Split(s, sep), sep) == s
  {
    if s != [] {
      var rest := Split(s[1..], sep);
      JoinSplit(s[1..], sep);
      if s[0] == sep {
        assert ([[]] + rest)[1..] == rest;
      } else {
        var parts := [[s[0]] + rest[0]] + rest[1..];
        assert parts[1..] == rest[1..];
        if |rest| > 1 {
          assert Join(rest, sep) == rest[0] + [sep] + Join(rest[1..], sep);
        }
      }
    }
  }

  /** A string without the delimiter explodes into itself alone. */
  lemma {:induction false} SplitWithoutSeparator(u: string, sep: char)
    requires sep !in u
    ensures Split(u, sep) == [u]
  {
    if u != [] {
      SplitWithoutSeparator(u[1..], sep);
      assert [u[0]] + u[1..] == u;
    }
  }

  /** A leading piece without the delimiter comes off as the first part. */
  lemma {:induction false} SplitFirstPiece(u: string, sep: char, t: string)
    requires sep !in u
    ensures Split(u + [sep] + t, sep) == [u] + Split(t, sep)
  {
    var s := u + [sep] + t;
    if u == [] {
      assert s[0] == sep && s[1..] == t;
    } else {
      assert s[0] == u[0] && s[1..] == u[1..] + [sep] + t;
      SplitFirstPiece(u[1..], sep, t);
      assert [u[0]] + u[1..] == u;
    }
  }

  /** explode() undoes implode() when no piece holds the delimiter. */
  lemma {:induction false} SplitJoin(parts: seq<string>, sep: char)
    requires |parts| >= 1
    requires forall i | 0 <= i < |parts| :: sep !in parts[i]
    ensures Split(Join(parts, sep), sep) == parts
  {
    if |parts| == 1 {
      SplitWithoutSeparator(parts[0], sep);
    } else {
      SplitJoin(parts[1..], sep);
      SplitFirstPiece(parts[0], sep, Join(parts[1..], sep));
      assert [parts[0]] + parts[1..] == parts;
    }
  }

  /** explode() of three delimiter-free fields joined by the delimiter
      gives the three fields. */
  lemma SplitThreeFields(u: string, a: string, b: string, sep: char)
    requires sep !in u && sep !in a && sep !in b
    ensures Split(u + [sep] + a + [sep] + b, sep) == [u, a, b]
  {
    var tail := a + [sep] + b;
    SplitWithoutSeparator(b, sep);
    SplitFirstPiece(a, sep, b);
    assert Split(tail, sep) == [a, b];
    SplitFirstPiece(u, sep, tail);
    assert u + [sep] + a + [sep] + b == u + [sep] + tail;
  }

  /** The colons of `u:a:b` are those of its fields and the two between
      them. */
  lemma OccurrencesThreeFields(u: string, a: string, b: string)
    ensures Occurrences(u + ":" + a + ":" + b, ':') ==
      Occurrences(u, ':') + Occurrences(a, ':') + Occurrences(b, ':') + 2
  {
    assert u + ":" + a + ":" + b == u + ([':'] + (a + ([':'] + b)));
    OccurrencesAppend(u, [':'] + (a + ([':'] + b)), ':');
    OccurrencesAppend([':'], a + ([':'] + b), ':');
    OccurrencesAppend(a, [':'] + b, ':');
    OccurrencesAppend([':'], b, ':');
    assert Occurrences([':'], ':') == 1;
  }
}
