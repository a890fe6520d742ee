/**
 * Ordinal `String.Replace(oldValue, newValue)` of the .NET base library, as used by
 * `WorkAroundForSOAPError`: the text is scanned from left to right, every match of the
 * pattern is replaced, matches never overlap, and text that has just been inserted is
 * never scanned again by the same call.
 */
module StringReplace {
  import opened Wrappers

  /** `pat` occurs in `s` at index `i` (ordinal, character by character). */
  predicate MatchAt(s: string, pat: string, i: nat)
  {
    i + |pat| <= |s| && s[i..i + |pat|] == pat
  }

  /** `pat` occurs somewhere in `s`. */
  predicate Occurs(s: string, pat: string)
  {
    exists i: nat | i <= |s| :: MatchAt(s, pat, i)
  }

  /** Number of matches the left-to-right, non-overlapping scan finds. */
  function Count(s: string, pat: string): nat
    requires pat != []
    decreases |s|
  {
    if |s| < |pat| then 0
    else if s[..|pat|] == pat then 1 + Count(s[|pat|..], pat)
    else Count(s[1..], pat)
  }

  /**
   * `s.Replace(pat, rep)`. The empty pattern is refused by .NET (it throws), so it is
   * excluded here; every pattern the substitution builds starts with '@'.
   */
  function Replace(s: string, pat: string, rep: string): string
    requires pat != []
    decreases |s|
  {
    if |s| < |pat| then s
    else if s[..|pat|] == pat then rep + Replace(s[|pat|..], pat, rep)
    else [s[0]] + Replace(s[1..], pat, rep)
  }

  /** One more match adds one more length change d. */
  lemma OneMoreMatch(n: int, d: int)
    ensures (1 + n) * d == n * d + d
  {
  }

  /** Each of the n matches changes the length by |rep| - |pat|. */
  lemma {:induction false} ReplaceLength(s: string, pat: string, rep: string)
    requires pat != []
    ensures |Replace(s, pat, rep)| == |s| + Count(s, pat) * (|rep| - |pat|)
    decreases |s|
  {
    if |s| < |pat| {
    } else if s[..|pat|] == pat {
      ReplaceLength(s[|pat|..], pat, rep);
      OneMoreMatch(Count(s[|pat|..], pat), |rep| - |pat|);
    } else {
      ReplaceLength(s[1..], pat, rep);
    }
  }

  /** Replacing a pattern by itself gives back the text. */
  lemma {:induction false} ReplaceWithItself(s: string, pat: string)
    requires pat != []
    ensures Replace(s, pat, pat) == s
    decreases |s|
  {
    if |s| < |pat| {
    } else if s[..|pat|] == pat {
      ReplaceWithItself(s[|pat|..], pat);
      assert s == pat + s[|pat|..];
    } else {
      ReplaceWithItself(s[1..], pat);
      assert s == [s[0]] + s[1..];
    }
  }

  /** An occurrence in the tail is an occurrence in the whole, one place further on. */
  lemma {:induction false} MatchAtTail(s: string, pat: string, i: nat)
    requires s != []
    ensures MatchAt(s, pat, i + 1) <==> MatchAt(s[1..], pat, i)
  {
    if i + 1 + |pat| <= |s| {
      assert s[1..][i..i + |pat|] == s[i + 1..i + 1 + |pat|];
    }
  }

  /**
   * `s.IndexOf(pat, StringComparison.Ordinal)`: the first index at which `pat` occurs,
   * or None (IndexOfIsFirst states that it is the first).
   */
  function IndexOf(s: string, pat: string): (r: Option<nat>)
    ensures r.Some? ==> MatchAt(s, pat, r.value)
    decreases |s|
  {
    if |s| < |pat| then None
    else if s[..|pat|] == pat then Some(0)
    else
      match IndexOf(s[1..], pat)
      case None => None
      case Some(i) =>
        MatchAtTail(s, pat, i);
        Some(i + 1)
  }

  /** IndexOf finds the leftmost occurrence, and reports None only when there is none. */
  lemma {:induction false} IndexOfIsFirst(s: string, pat: string)
    ensures IndexOf(s, pat).Some? ==> forall j: nat :: j < IndexOf(s, pat).value ==> !MatchAt(s, pat, j)
    ensures IndexOf(s, pat).None? <==> !Occurs(s, pat)
    decreases |s|
  {
    if |s| < |pat| {
    } else if s[..|pat|] == pat {
      assert MatchAt(s, pat, 0);
    } else {
      IndexOfIsFirst(s[1..], pat);
      forall j: nat | j > 0 ensures MatchAt(s, pat, j) <==> MatchAt(s[1..], pat, j - 1) {
        MatchAtTail(s, pat, j - 1);
      }
      assert !MatchAt(s, pat, 0);
      if Occurs(s[1..], pat) {
        var k: nat :| k <= |s[1..]| && MatchAt(s[1..], pat, k);
        assert MatchAt(s, pat, k + 1);
      }
    }
  }

  /**
   * Reference definition of the same operation, written the way the library performs it:
   * find the first occurrence, copy the text before it, emit the replacement, and carry
   * on after the match.
   */
  function ReplaceByIndexOf(s: string, pat: string, rep: string): string
    requires pat != []
    decreases |s|
  {
    match IndexOf(s, pat)
    case None => s
    case Some(i) => s[..i] + rep + ReplaceByIndexOf(s[i + |pat|..], pat, rep)
  }

  /** One unfolding of ReplaceByIndexOf at a known first match. */
  lemma {:induction false} ReplaceByIndexOfAt(s: string, pat: string, rep: string, i: nat, rest: string)
    requires pat != [] && IndexOf(s, pat) == Some(i)
    requires i + |pat| <= |s| && rest == s[i + |pat|..]
    ensures ReplaceByIndexOf(s, pat, rep) == s[..i] + rep + ReplaceByIndexOf(rest, pat, rep)
  {
  }

  /** Without a match at the front, the IndexOf-driven definition keeps the first character. */
  lemma {:induction false} ReplaceByIndexOfSkip(s: string, pat: string, rep: string)
    requires pat != [] && |s| >= |pat| && s[..|pat|] != pat
    ensures ReplaceByIndexOf(s, pat, rep) == [s[0]] + ReplaceByIndexOf(s[1..], pat, rep)
  {
    var tail := s[1..];
    match IndexOf(tail, pat)
    case None =>
      assert IndexOf(s, pat) == None;
      assert s == [s[0]] + tail;
    case Some(i) =>
      SkipToLaterMatch(s, pat, rep, i);
  }

  /** The IndexOf step of ReplaceByIndexOfSkip when the tail does contain a match. */
  lemma {:induction false} SkipToLaterMatch(s: string, pat: string, rep: string, i: nat)
    requires pat != [] && |s| >= |pat| && s[..|pat|] != pat
    requires IndexOf(s[1..], pat) == Some(i)
    ensures ReplaceByIndexOf(s, pat, rep) == [s[0]] + ReplaceByIndexOf(s[1..], pat, rep)
  {
    var tail := s[1..];
    IndexOfPastFront(s, pat, i);
    ShiftedSlices(s, i, |pat|);
    var rest := tail[i + |pat|..];
    ReplaceByIndexOfAt(s, pat, rep, i + 1, rest);
    ReplaceByIndexOfAt(tail, pat, rep, i, rest);
    var after := ReplaceByIndexOf(rest, pat, rep);
    ConsAssoc(s[0], tail[..i], rep, after,
      ReplaceByIndexOf(s, pat, rep), ReplaceByIndexOf(tail, pat, rep), s[..i + 1]);
  }

  /** Without a match at the front, the first match is the tail's first match, one place on. */
  lemma {:induction false} IndexOfPastFront(s: string, pat: string, i: nat)
    requires pat != [] && |s| >= |pat| && s[..|pat|] != pat
    requires IndexOf(s[1..], pat) == Some(i)
    ensures IndexOf(s, pat) == Some(i + 1) && i + 1 + |pat| <= |s|
  {
  }

  /** Slices of a text and of its tail, one place apart. */
  lemma {:induction false} ShiftedSlices(s: string, i: nat, k: nat)
    requires i + 1 + k <= |s|
    ensures s[..i + 1] == [s[0]] + s[1..][..i]
    ensures s[i + 1 + k..] == s[1..][i + k..]
  {
  }

  /** Re-association of a concatenation; kept apart so the step above stays cheap. */
  lemma ConsAssoc(c: char, a: string, r: string, b: string, whole: string, rest: string, front: string)
    requires whole == front + r + b && rest == a + r + b && front == [c] + a
    ensures whole == [c] + rest
  {
    assert [c] + a + r + b == [c] + (a + r + b);
  }

  /** The scanning definition and the IndexOf-driven definition agree on every input. */
  lemma {:induction false} ReplaceIsFirstMatchScan(s: string, pat: string, rep: string)
    requires pat != []
    ensures Replace(s, pat, rep) == ReplaceByIndexOf(s, pat, rep)
    decreases |s|
  {
    if |s| < |pat| {
      assert IndexOf(s, pat) == None;
    } else if s[..|pat|] == pat {
      ReplaceIsFirstMatchScan(s[|pat|..], pat, rep);
      assert IndexOf(s, pat) == Some(0);
      ReplaceByIndexOfAt(s, pat, rep, 0, s[|pat|..]);
      assert s[..0] == [];
    } else {
      ReplaceIsFirstMatchScan(s[1..], pat, rep);
      ReplaceByIndexOfSkip(s, pat, rep);
    }
  }

  /** The scan finds no match exactly when the pattern does not occur at all. */
  lemma {:induction false} CountZeroIffAbsent(s: string, pat: string)
    requires pat != []
    ensures Count(s, pat) == 0 <==> !Occurs(s, pat)
    decreases |s|
  {
    if |s| < |pat| {
      assert forall i: nat :: !MatchAt(s, pat, i);
    } else if s[..|pat|] == pat {
      assert MatchAt(s, pat, 0);
    } else {
      CountZeroIffAbsent(s[1..], pat);
      if Occurs(s, pat) {
        var i: nat :| MatchAt(s, pat, i);
        assert i > 0;
        MatchAtTail(s, pat, i - 1);
      }
      if Occurs(s[1..], pat) {
        var i: nat :| MatchAt(s[1..], pat, i);
        MatchAtTail(s, pat, i);
      }
    }
  }

  /** Where the pattern does not occur, replacing it changes nothing. */
  lemma {:induction false} ReplaceAbsentIsIdentity(s: string, pat: string, rep: string)
    requires pat != []
    ensures !Occurs(s, pat) ==> Replace(s, pat, rep) == s
  {
    IndexOfIsFirst(s, pat);
    ReplaceIsFirstMatchScan(s, pat, rep);
  }

  /**
   * Matching is by plain substring, not by whole name: a pattern that is a proper prefix
   * of a longer word is still replaced, and the rest of that word is kept.
   */
  lemma {:induction false} PrefixOfLongerWordIsReplaced(pat: string, suffix: string, rest: string, rep: string)
    requires pat != []
    ensures Replace(pat + suffix + rest, pat, rep) == rep + Replace(suffix + rest, pat, rep)
  {
    assert (pat + suffix + rest)[..|pat|] == pat;
    assert (pat + suffix + rest)[|pat|..] == suffix + rest;
  }

  /** Text that cannot start a match (it lacks the pattern's first character) is copied as is. */
  lemma {:induction false} ReplaceCopiesText(text: string, rest: string, pat: string, rep: string)
    requires pat != [] && pat[0] !in text
    ensures Replace(text + rest, pat, rep) == text + Replace(rest, pat, rep)
    decreases |text|
  {
    var s := text + rest;
    if text == [] {
      assert s == rest;
    } else if |s| < |pat| {
      assert Replace(rest, pat, rep) == rest;
    } else {
      assert s[0] == text[0];
      assert s[..|pat|] != pat;
      assert s[1..] == text[1..] + rest;
      ReplaceCopiesText(text[1..], rest, pat, rep);
    }
  }

  /**
   * No rescan: a replacement that itself contains the pattern is emitted once and not
   * expanded again by the same call.
   */
  lemma {:induction false} ReplacementIsNotRescanned(pat: string, rep: string)
    requires pat != []
    ensures Replace(pat, pat, rep) == rep
  {
    assert pat[|pat|..] == [];
  }
}
