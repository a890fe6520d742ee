/**
 * Consequences of the substitution rules for the query text: plain substring matching,
 * every occurrence replaced, no rescan within one key, dependence on the order of the
 * keys, and the re-quoting that a second `Execute` performs on already substituted text.
 */
module SubstitutionScenarios {
  import opened Int32Parse
  import opened StringReplace
  import opened QuerySubstitution

  /** A placeholder text starts with '@', so it is never an integer and is always quoted. */
  lemma PlaceholderIsQuoted(name: string)
    ensures Rendered(Placeholder(name)) == "'" + Placeholder(name) + "'"
  {
    NonNumericStartIsNotInteger(Placeholder(name));
  }

  /** A quoted placeholder keeps its quotes when the placeholder inside is replaced. */
  lemma QuotedPlaceholderIsReplaced(name: string, rep: string)
    ensures var p := Placeholder(name); Replace("'" + p + "'", p, rep) == "'" + rep + "'"
  {
    var p := Placeholder(name);
    ReplaceCopiesText("'", p + "'", p, rep);
    assert "'" + p + "'" == "'" + (p + "'");
    PrefixOfLongerWordIsReplaced(p, "'", [], rep);
    assert p + "'" + [] == p + "'";
    ReplaceCopiesText("'", [], p, rep);
    assert "'" + [] == "'";
    assert "'" + (rep + "'") == "'" + rep + "'";
  }

  /**
   * Names are not matched as whole words: `@id` is found at the front of `@idx`, so the
   * parameter `id` rewrites it and leaves the `x` behind.
   */
  lemma NameMatchesInsideLongerName(name: string, suffix: string, value: string)
    requires '@' !in suffix
    ensures Substitute(Placeholder(name) + suffix, [Parameter(name, value)]) == Rendered(value) + suffix
  {
    var pat, rep := Placeholder(name), Rendered(value);
    PrefixOfLongerWordIsReplaced(pat, suffix, [], rep);
    assert pat + suffix + [] == pat + suffix;
    ReplaceCopiesText(suffix, [], pat, rep);
    assert suffix + [] == suffix;
    SubstituteSingle(pat + suffix, Parameter(name, value));
  }

  /**
   * Every occurrence of a name is replaced: `@x = @x` with x = 5 becomes `5 = 5`, and with
   * a non-integer value both occurrences are quoted.
   */
  lemma EveryOccurrenceReplaced(name: string, middle: string, value: string)
    requires '@' !in middle
    ensures var p := Placeholder(name); var r := Rendered(value);
      Substitute(p + middle + p, [Parameter(name, value)]) == r + middle + r
  {
    var pat, rep := Placeholder(name), Rendered(value);
    PrefixOfLongerWordIsReplaced(pat, middle, pat, rep);
    ReplaceCopiesText(middle, pat, pat, rep);
    ReplacementIsNotRescanned(pat, rep);
    SubstituteSingle(pat + middle + pat, Parameter(name, value));
  }

  /**
   * No rescan within one key: the placeholder becomes the rendered value even when that
   * value contains the placeholder again.
   */
  lemma ValueIsNotRescanned(name: string, value: string)
    ensures Substitute(Placeholder(name), [Parameter(name, value)]) == Rendered(value)
  {
    ReplacementIsNotRescanned(Placeholder(name), Rendered(value));
    SubstituteSingle(Placeholder(name), Parameter(name, value));
  }

  /**
   * Order matters. With `@a` in the query, a = "@b" and any value for b: registering a
   * before b lets b's pass rewrite the `@b` that a inserted, while registering b first
   * leaves that `@b` in the result, so the two orders give different texts.
   */
  lemma OrderMatters(a: string, b: string, value: string)
    requires !Occurs(Placeholder(a), Placeholder(b))
    ensures var pa, pb := Placeholder(a), Placeholder(b);
      && Substitute(pa, [Parameter(a, pb), Parameter(b, value)]) == "'" + Rendered(value) + "'"
      && Substitute(pa, [Parameter(b, value), Parameter(a, pb)]) == "'" + pb + "'"
    ensures var pa, pb := Placeholder(a), Placeholder(b);
      Substitute(pa, [Parameter(a, pb), Parameter(b, value)])
        != Substitute(pa, [Parameter(b, value), Parameter(a, pb)])
  {
    var pa, pb := Placeholder(a), Placeholder(b);
    var first, second := Parameter(a, pb), Parameter(b, value);
    PlaceholderIsQuoted(b);
    ReplacementIsNotRescanned(pa, "'" + pb + "'");
    assert SubstituteOne(pa, first) == "'" + pb + "'";
    QuotedPlaceholderIsReplaced(b, Rendered(value));
    SubstituteSnoc(pa, [first], second);
    SubstituteSingle(pa, first);
    assert [first] + [second] == [first, second];
    ReplaceAbsentIsIdentity(pa, pb, Rendered(value));
    assert SubstituteOne(pa, second) == pa;
    SubstituteSnoc(pa, [second], first);
    SubstituteSingle(pa, second);
    assert [second] + [first] == [second, first];
    assert Rendered(value) != pb;
    assert ("'" + Rendered(value) + "'")[1..|Rendered(value)| + 1] == Rendered(value);
  }

  /**
   * Running the substitution twice, as a second `Execute` does, quotes again: a value
   * that is its own placeholder comes out as `'@a'` after the first pass and as
   * `''@a''` after the second.
   */
  lemma SecondPassQuotesAgain(name: string)
    ensures var p := Placeholder(name); var ps := [Parameter(name, p)];
      && Substitute(p, ps) == "'" + p + "'"
      && Substitute(Substitute(p, ps), ps) == "''" + p + "''"
  {
    var p := Placeholder(name);
    var ps := [Parameter(name, p)];
    PlaceholderIsQuoted(name);
    ValueIsNotRescanned(name, p);
    var once := "'" + p + "'";
    QuotedPlaceholderIsReplaced(name, once);
    assert "'" + once + "'" == "''" + p + "''";
    SubstituteSingle(once, Parameter(name, p));
  }
}
