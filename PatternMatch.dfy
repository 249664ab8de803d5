/** The heading matcher of the first section query: a section is selected
    when `section.heading ILIKE pattern || ' %'` holds for some pattern.
    The SQL pattern language is modelled as written (`%` any run of
    characters, `_` one character, backslash escapes the next one), over
    strings lowered to ASCII lower case.  `MatchesPattern` states what the
    query means for patterns free of those meta-characters: the lowered heading
    starts with the lowered pattern followed by one space. */
module PatternMatch {

  /** ASCII lower case: an upper-case letter becomes a lower-case one, no
      upper-case letter is left, and every other character is kept. */
  function LowerChar(c: char): (d: char)
    ensures !('A' <= d <= 'Z')
    ensures 'A' <= c <= 'Z' ==> 'a' <= d <= 'z'
    ensures !('A' <= c <= 'Z') ==> d == c
  {
    if 'A' <= c <= 'Z' then (c as int + 32) as char else c
  }

  /** ILIKE's lowering of a whole string: no upper-case letter is left. */
  function Lower(s: string): (r: string)
    ensures |r| == |s|
    ensures forall i :: 0 <= i < |r| ==> !('A' <= r[i] <= 'Z')
  {
    seq(|s|, i requires 0 <= i < |s| => LowerChar(s[i]))
  }

  /** Lowering twice is lowering once. */
  lemma LowerIdempotent(s: string)
    ensures Lower(Lower(s)) == Lower(s)
  {
    var t := Lower(s);
    forall i | 0 <= i < |t| ensures Lower(t)[i] == t[i] {
      assert !('A' <= t[i] <= 'Z');
    }
  }

  lemma LowerAppend(a: string, b: string)
    ensures Lower(a + b) == Lower(a) + Lower(b)
  {
  }

  /** `s LIKE pat` with the default escape character, backslash. */
  function Like(s: string, pat: string): bool
    decreases |pat|, |s|
  {
    if |pat| == 0 then |s| == 0
    else if pat[0] == '%' then Like(s, pat[1..]) || (|s| > 0 && Like(s[1..], pat))
    else if pat[0] == '_' then |s| > 0 && Like(s[1..], pat[1..])
    else if pat[0] == '\\' && |pat| > 1 then |s| > 0 && s[0] == pat[1] && Like(s[1..], pat[2..])
    else |s| > 0 && s[0] == pat[0] && Like(s[1..], pat[1..])
  }

  /** `s ILIKE pat`: LIKE after lowering both sides. */
  function ILike(s: string, pat: string): bool
  {
    Like(Lower(s), Lower(pat))
  }

  /** The SQL condition of the first query for one pattern. */
  function HeadingMatches(heading: string, pattern: string): bool
  {
    ILike(heading, pattern + " %")
  }

  /** The condition for a list of patterns: `EXISTS (… unnest(patterns) …)`. */
  predicate MatchesAny(heading: string, patterns: seq<string>)
  {
    exists p :: p in patterns && HeadingMatches(heading, p)
  }

  /** A pattern that uses none of LIKE's meta-characters. */
  predicate NoMetaCharacters(p: string)
  {
    forall i :: 0 <= i < |p| ==> p[i] != '%' && p[i] != '_' && p[i] != '\\'
  }

  /** The intended meaning: ignoring case, the heading starts with the
      pattern followed by a space. */
  predicate MatchesPattern(heading: string, pattern: string)
  {
    Lower(pattern + " ") <= Lower(heading)
  }

  /** A trailing `%` matches every string. */
  lemma {:induction false} LikeTrailingWildcard(s: string)
    ensures Like(s, "%")
    decreases |s|
  {
    if |s| > 0 {
      LikeTrailingWildcard(s[1..]);
    }
  }

  /** For a meta-free literal `lit`, `s LIKE lit || '%'` holds exactly when `lit`
      is a prefix of `s`. */
  lemma {:induction false} LikeLiteralPrefix(s: string, lit: string)
    requires NoMetaCharacters(lit)
    ensures Like(s, lit + "%") <==> lit <= s
    decreases |lit|
  {
    if |lit| == 0 {
      assert lit + "%" == "%";
      LikeTrailingWildcard(s);
    } else {
      assert (lit + "%")[0] == lit[0];
      assert (lit + "%")[1..] == lit[1..] + "%";
      assert NoMetaCharacters(lit[1..]);
      if |s| > 0 {
        LikeLiteralPrefix(s[1..], lit[1..]);
        assert lit <= s <==> s[0] == lit[0] && lit[1..] <= s[1..];
      }
    }
  }

  lemma LowerKeepsNoMetaCharacters(p: string)
    requires NoMetaCharacters(p)
    ensures NoMetaCharacters(Lower(p))
  {
  }

  /** The query's ILIKE condition means exactly the token-boundary match. */
  lemma HeadingMatchesMeaning(heading: string, pattern: string)
    requires NoMetaCharacters(pattern)
    ensures HeadingMatches(heading, pattern) <==> MatchesPattern(heading, pattern)
  {
    LowerAppend(pattern, " %");
    LowerAppend(pattern, " ");
    LowerAppend(pattern + " ", "%");
    assert pattern + " %" == (pattern + " ") + "%";
    var lit := Lower(pattern + " ");
    LowerKeepsNoMetaCharacters(pattern);
    assert lit == Lower(pattern) + " ";
    assert NoMetaCharacters(lit);
    assert Lower(pattern + " %") == lit + "%";
    LikeLiteralPrefix(Lower(heading), lit);
  }

  /** The space is a token boundary: a match continues with a space right
      after the pattern, so the pattern is the whole first token. */
  lemma MatchIsTokenBoundary(heading: string, pattern: string)
    requires NoMetaCharacters(pattern)
    requires HeadingMatches(heading, pattern)
    ensures |heading| > |pattern| && heading[|pattern|] == ' '
    ensures Lower(heading[..|pattern|]) == Lower(pattern)
  {
    HeadingMatchesMeaning(heading, pattern);
    LowerAppend(pattern, " ");
    assert Lower(heading)[|pattern|] == ' ';
    assert LowerChar(heading[|pattern|]) == ' ';
    var n := |pattern|;
    assert heading == heading[..n] + heading[n..];
    LowerAppend(heading[..n], heading[n..]);
    assert Lower(heading)[..n] == Lower(heading[..n]);
    assert (Lower(pattern) + " ")[..n] == Lower(pattern);
  }

  /** Pattern "5.2" selects "5.2 Random Access", not "5.20 Something", and
      matching ignores case. */
  lemma TokenBoundaryExamples()
    ensures HeadingMatches("5.2 Random Access", "5.2")
    ensures !HeadingMatches("5.20 Something", "5.2")
    ensures HeadingMatches("abc Title", "ABC")
  {
    ExampleSameNumber();
    ExampleLongerNumber();
    ExampleOtherCase();
  }

  lemma ExampleSameNumber()
    ensures HeadingMatches("5.2 Random Access", "5.2")
  {
    HeadingMatchesMeaning("5.2 Random Access", "5.2");
    assert Lower("5.2 ") == "5.2 ";
    assert Lower("5.2 Random Access")[..4] == "5.2 ";
  }

  lemma ExampleLongerNumber()
    ensures !HeadingMatches("5.20 Something", "5.2")
  {
    HeadingMatchesMeaning("5.20 Something", "5.2");
    assert Lower("5.20 Something")[3] == '0';
  }

  lemma ExampleOtherCase()
    ensures HeadingMatches("abc Title", "ABC")
  {
    HeadingMatchesMeaning("abc Title", "ABC");
    assert Lower("ABC ") == "abc ";
    assert Lower("abc Title")[..4] == "abc ";
  }
}
