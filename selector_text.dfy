/**
 * The string tests that src/index.js applies to raw selector text with
 * regular expressions, each written out by hand: the emmet multiplier
 * `[^*]+\*(\d+)`, the default rename callback's `\*\d+$`, and the two
 * tests for the `:before`/`:after` pseudo-elements.
 */
module SelectorText {
  import opened Wrappers
  import opened JsText

  // ---------------------------------------------------------------------
  // parseMultiplier: /[^*]+\*(?<multi>\d+)/, unanchored
  // ---------------------------------------------------------------------

  /**
   * The regular expression matches starting at `p`, with its `*` at `i` and
   * its greedy digit group ending at `j`: `s[p..i]` is a non-empty run of
   * non-`*` characters, `s[i]` is `*`, and `s[i+1..j]` is the longest
   * non-empty run of digits there. For a given start the match is unique.
   */
  ghost predicate MultiplierMatch(s: string, p: int, i: int, j: int)
  {
    0 <= p < i && i + 1 < j <= |s| && s[i] == '*'
    && (forall k :: p <= k < i ==> s[k] != '*')
    && AllDigits(s[i + 1..j]) && (j == |s| || !IsDigit(s[j]))
  }

  /** A `*` that follows a non-`*` character and is followed by a digit. */
  predicate QualifyingStar(s: string, i: int)
  {
    0 < i && i + 1 < |s| && s[i] == '*' && s[i - 1] != '*' && IsDigit(s[i + 1])
  }

  /** The end of the run of digits that starts at `k`. */
  function DigitRunEnd(s: string, k: nat): (j: nat)
    requires k <= |s|
    ensures k <= j <= |s| && AllDigits(s[k..j]) && (j == |s| || !IsDigit(s[j]))
    decreases |s| - k
  {
    if k < |s| && IsDigit(s[k]) then
      var j := DigitRunEnd(s, k + 1);
      assert s[k..j] == [s[k]] + s[k + 1..j];
      j
    else k
  }

  /** The first qualifying `*` at or after `k` (|s| when there is none). */
  function FirstQualifyingStar(s: string, k: nat): (i: nat)
    requires k <= |s|
    ensures k <= i <= |s|
    ensures forall m :: k <= m < i ==> !QualifyingStar(s, m)
    ensures i < |s| ==> QualifyingStar(s, i)
    decreases |s| - k
  {
    if k == |s| || QualifyingStar(s, k) then k else FirstQualifyingStar(s, k + 1)
  }

  /**
   * `parseMultiplier`: the number after the first qualifying `*`, read over
   * its whole digit run; 1 when the selector has no qualifying `*`.
   */
  function ParseMultiplier(s: string): (n: nat)
    ensures (forall i :: 0 <= i < |s| ==> !QualifyingStar(s, i)) ==> n == 1
  {
    var i := FirstQualifyingStar(s, 0);
    if i == |s| then 1 else DecimalValue(s[i + 1..DigitRunEnd(s, i + 1)])
  }

  /** Where the non-`*` run that ends just before `k` starts. */
  function NonStarRunStart(s: string, k: nat): (q: nat)
    requires k <= |s|
    ensures q <= k && (forall m :: q <= m < k ==> s[m] != '*') && (q == 0 || s[q - 1] == '*')
  {
    if k == 0 || s[k - 1] == '*' then k else NonStarRunStart(s, k - 1)
  }

  lemma AllDigitsBetween(s: string, a: int, b: int)
    requires 0 <= a <= b <= |s|
    ensures AllDigits(s[a..b]) <==> forall m :: a <= m < b ==> IsDigit(s[m])
  {
    if AllDigits(s[a..b]) {
      forall m | a <= m < b ensures IsDigit(s[m]) {
        assert s[a..b][m - a] == s[m];
      }
    }
  }

  lemma DigitRunEndUnique(s: string, k: nat, j: int)
    requires k <= j <= |s| && AllDigits(s[k..j]) && (j == |s| || !IsDigit(s[j]))
    ensures j == DigitRunEnd(s, k)
  {
    var e := DigitRunEnd(s, k);
    AllDigitsBetween(s, k, j);
    AllDigitsBetween(s, k, e);
  }

  /**
   * `parseMultiplier` is the regular expression's leftmost match: with no
   * match it is 1, and otherwise it is the decimal value of the digit group
   * of the match that starts earliest. The match is unanchored, so a
   * multiplier in the middle of a selector counts.
   */
  lemma MultiplierIsLeftmostMatch(s: string)
    ensures (forall p, i, j :: !MultiplierMatch(s, p, i, j)) ==> ParseMultiplier(s) == 1
    ensures forall p, i, j :: LeftmostMatch(s, p, i, j) ==> ParseMultiplier(s) == DecimalValue(s[i + 1..j])
  {
    NoMatchMeansOne(s);
    forall p, i, j | LeftmostMatch(s, p, i, j)
      ensures ParseMultiplier(s) == DecimalValue(s[i + 1..j])
    {
      LeftmostIsFirst(s, p, i, j);
    }
  }

  /** A match of the pattern that starts no later than any other match. */
  ghost predicate LeftmostMatch(s: string, p: int, i: int, j: int)
  {
    MultiplierMatch(s, p, i, j) && forall p', i', j' :: MultiplierMatch(s, p', i', j') ==> p <= p'
  }

  /** Without any match there is no qualifying star, so the multiplier is 1. */
  lemma NoMatchMeansOne(s: string)
    ensures (forall p, i, j :: !MultiplierMatch(s, p, i, j)) ==> ParseMultiplier(s) == 1
  {
    var f := FirstQualifyingStar(s, 0);
    if f < |s| {
      MatchAtStar(s, f);
    }
  }

  /** Every qualifying star is the `*` of a match: the non-star run before it and the digit run after it. */
  lemma MatchAtStar(s: string, f: nat)
    requires QualifyingStar(s, f)
    ensures MultiplierMatch(s, NonStarRunStart(s, f), f, DigitRunEnd(s, f + 1))
  {
  }

  /** The leftmost match has its `*` at the first qualifying star and its digit group over the whole digit run. */
  lemma LeftmostIsFirst(s: string, p: int, i: int, j: int)
    requires LeftmostMatch(s, p, i, j)
    ensures i == FirstQualifyingStar(s, 0) && j == DigitRunEnd(s, i + 1)
  {
    assert QualifyingStar(s, i) by {
      assert s[i + 1..j][0] == s[i + 1];
    }
    var f := FirstQualifyingStar(s, 0);
    assert f <= i;
    MatchAtStar(s, f);
    assert p <= f && s[f] == '*';
    assert i == f by {
      assert forall k :: p <= k < i ==> s[k] != '*';
    }
    DigitRunEndUnique(s, i + 1, j);
  }

  // ---------------------------------------------------------------------
  // The default rename callback: raw.replace(/\*\d+$/, '')
  // ---------------------------------------------------------------------

  /** `s` ends in `*` followed by one or more digits, with the `*` at `i`. */
  predicate MultiplierSuffixAt(s: string, i: int)
  {
    0 <= i && i + 1 < |s| && s[i] == '*' && AllDigits(s[i + 1..])
  }

  /** Where the run of digits at the end of `s` starts. */
  function TrailingDigitsStart(s: string): (k: nat)
    ensures k <= |s| && AllDigits(s[k..]) && (k == 0 || !IsDigit(s[k - 1]))
  {
    if s != [] && IsDigit(s[|s| - 1]) then
      var k := TrailingDigitsStart(s[..|s| - 1]);
      assert s[k..] == s[..|s| - 1][k..] + [s[|s| - 1]];
      k
    else |s|
  }

  lemma SuffixStartsBeforeTrailingDigits(s: string, i: int)
    requires MultiplierSuffixAt(s, i)
    ensures TrailingDigitsStart(s) == i + 1
  {
    var k := TrailingDigitsStart(s);
    AllDigitsBetween(s, k, |s|);
    AllDigitsBetween(s, i + 1, |s|);
  }

  /**
   * The default rename callback: a trailing `*` plus digits is cut off, and
   * a selector that does not end that way comes back unchanged.
   */
  function StripMultiplier(s: string): (r: string)
    ensures forall i :: MultiplierSuffixAt(s, i) ==> r == s[..i]
    ensures (forall i :: !MultiplierSuffixAt(s, i)) ==> r == s
  {
    var k := TrailingDigitsStart(s);
    assert forall i :: MultiplierSuffixAt(s, i) ==> k == i + 1 by {
      forall i | MultiplierSuffixAt(s, i) ensures k == i + 1 {
        SuffixStartsBeforeTrailingDigits(s, i);
      }
    }
    if 0 < k < |s| && s[k - 1] == '*' then
      assert MultiplierSuffixAt(s, k - 1);
      s[..k - 1]
    else
      s
  }

  /**
   * Stripping is not idempotent: of two trailing multipliers one call cuts
   * only the last, so `a*1*2` becomes `a*1` and then `a`.
   */
  lemma StripNotIdempotent(p: string, d1: string, d2: string)
    requires d1 != [] && AllDigits(d1) && d2 != [] && AllDigits(d2)
    ensures StripMultiplier(p + "*" + d1 + "*" + d2) == p + "*" + d1
    ensures StripMultiplier(StripMultiplier(p + "*" + d1 + "*" + d2)) == p
  {
    var once := p + "*" + d1;
    var s := once + "*" + d2;
    assert s[|once| + 1..] == d2;
    assert MultiplierSuffixAt(s, |once|);
    assert s[..|once|] == once;
    assert once[|p| + 1..] == d1;
    assert MultiplierSuffixAt(once, |p|);
    assert once[..|p|] == p;
  }

  /** A second strip changes nothing exactly when the first left no trailing multiplier behind. */
  lemma StripStableIff(s: string)
    ensures StripMultiplier(StripMultiplier(s)) == StripMultiplier(s)
      <==> forall i :: !MultiplierSuffixAt(StripMultiplier(s), i)
  {
    var t := StripMultiplier(s);
    if exists i :: MultiplierSuffixAt(t, i) {
      var i :| MultiplierSuffixAt(t, i);
      assert |StripMultiplier(t)| == i < |t|;
    }
  }

  /**
   * The multiplier is found anywhere in the selector, while the rename step
   * only strips one at the very end: `li*2 a` yields two elements but keeps
   * its selector.
   */
  lemma UnanchoredMultiplier(p: string, d: string, rest: string)
    requires p != [] && '*' !in p
    requires d != [] && AllDigits(d)
    requires rest == [] || !IsDigit(rest[0])
    ensures ParseMultiplier(p + "*" + d + rest) == DecimalValue(d)
    ensures rest != [] && !IsDigit(rest[|rest| - 1]) ==> StripMultiplier(p + "*" + d + rest) == p + "*" + d + rest
  {
    var s := p + "*" + d + rest;
    var i := |p|;
    assert s[i] == '*' && s[i + 1] == d[0];
    assert QualifyingStar(s, i);
    forall m | 0 <= m < i ensures !QualifyingStar(s, m) {
      assert s[m] == p[m];
    }
    assert FirstQualifyingStar(s, 0) == i;
    var j := i + 1 + |d|;
    assert s[i + 1..j] == d;
    DigitRunEndUnique(s, i + 1, j);
    if rest != [] && !IsDigit(rest[|rest| - 1]) {
      assert s[|s| - 1] == rest[|rest| - 1];
      StripNeedsTrailingDigit(s);
    }
  }

  /** A selector whose last character is not a digit has no multiplier suffix to strip. */
  lemma StripNeedsTrailingDigit(s: string)
    requires s != [] && !IsDigit(s[|s| - 1])
    ensures StripMultiplier(s) == s
  {
    forall k ensures !MultiplierSuffixAt(s, k) {
      if 0 <= k && k + 1 < |s| {
        assert s[k + 1..][|s| - k - 2] == s[|s| - 1];
      }
    }
  }

  /**
   * A multiplier with nothing before its `*` is not a multiplier, yet the
   * rename step strips it, selector and all: `*5` yields one element and
   * an empty selector.
   */
  lemma LeadingStarMultiplier(d: string)
    requires d != [] && AllDigits(d)
    ensures ParseMultiplier("*" + d) == 1
    ensures StripMultiplier("*" + d) == ""
  {
    var s := "*" + d;
    forall i | 0 <= i < |s| ensures !QualifyingStar(s, i) {
      if 0 < i {
        assert s[i] == d[i - 1];
      }
    }
    assert s[1..] == d;
    assert MultiplierSuffixAt(s, 0);
  }

  // ---------------------------------------------------------------------
  // The :before / :after tests
  // ---------------------------------------------------------------------

  /** The walker's test `/:before|:after/`. */
  predicate WalkerPseudo(s: string)
  {
    Contains(s, ":before") || Contains(s, ":after")
  }

  predicate AfterOrBeforeAt(s: string, k: int)
  {
    OccursAt(s, k, "after") || OccursAt(s, k, "before")
  }

  /**
   * `/(.*::?)(after|before)/` matches starting at `p` with the colon of the
   * first group at `c`: `.*` spans `s[p..c]` (no line terminators), then
   * `:` or `::`, then `after` or `before`.
   */
  predicate CleanupPseudoAt(s: string, p: int, c: int)
  {
    0 <= p <= c < |s|
    && (forall m :: p <= m < c ==> !IsLineTerminator(s[m]))
    && s[c] == ':'
    && (AfterOrBeforeAt(s, c + 1) || (c + 1 < |s| && s[c + 1] == ':' && AfterOrBeforeAt(s, c + 2)))
  }

  /** The cleanup filter's test `/(.*::?)(after|before)/`. */
  predicate CleanupPseudo(s: string)
  {
    exists p, c | 0 <= p <= c < |s| :: CleanupPseudoAt(s, p, c)
  }

  lemma ColonWord(s: string, c: int, word: string)
    requires 0 <= c < |s| && s[c] == ':'
    ensures OccursAt(s, c + 1, word) <==> OccursAt(s, c, [':'] + word)
  {
    if c + 1 + |word| <= |s| {
      assert s[c..c + 1 + |word|] == [':'] + s[c + 1..c + 1 + |word|];
    }
  }

  lemma WalkerToCleanup(s: string, i: int, word: string)
    requires word == "before" || word == "after"
    requires OccursAt(s, i, [':'] + word)
    ensures CleanupPseudo(s)
  {
    assert s[i..i + 1 + |word|][0] == s[i];
    ColonWord(s, i, word);
    assert CleanupPseudoAt(s, i, i);
  }

  /** A colon followed by `word` is an occurrence of the colon-prefixed word. */
  lemma ColonWordContains(s: string, c: int, word: string)
    requires 0 <= c < |s| && s[c] == ':' && OccursAt(s, c + 1, word)
    ensures Contains(s, [':'] + word)
  {
    ColonWord(s, c, word);
    assert 0 <= c <= |s| - |[':'] + word|;
  }

  lemma CleanupToWalker(s: string, p: int, c: int)
    requires CleanupPseudoAt(s, p, c)
    ensures WalkerPseudo(s)
  {
    assert [':'] + "before" == ":before" && [':'] + "after" == ":after";
    if OccursAt(s, c + 1, "before") {
      ColonWordContains(s, c, "before");
    } else if OccursAt(s, c + 1, "after") {
      ColonWordContains(s, c, "after");
    } else if OccursAt(s, c + 2, "before") {
      ColonWordContains(s, c + 1, "before");
    } else {
      ColonWordContains(s, c + 1, "after");
    }
  }

  /**
   * The walker and the cleanup filter classify every selector alike: both
   * hold exactly when `:before` or `:after` occurs in it.
   */
  lemma PseudoTestsAgree(s: string)
    ensures CleanupPseudo(s) <==> WalkerPseudo(s)
  {
    if Contains(s, ":before") {
      var i :| 0 <= i <= |s| - 7 && OccursAt(s, i, ":before");
      WalkerToCleanup(s, i, "before");
    } else if Contains(s, ":after") {
      var i :| 0 <= i <= |s| - 6 && OccursAt(s, i, ":after");
      WalkerToCleanup(s, i, "after");
    }
    if CleanupPseudo(s) {
      var p, c :| 0 <= p <= c < |s| && CleanupPseudoAt(s, p, c);
      CleanupToWalker(s, p, c);
    }
  }

  /** A pattern free of `*` and digits occurs in `s` exactly when it occurs before a tail made only of those. */
  lemma ContainsBeforeTail(s: string, i: int, pat: string)
    requires 0 <= i <= |s| && pat != []
    requires forall m :: i <= m < |s| ==> s[m] == '*' || IsDigit(s[m])
    requires forall k :: 0 <= k < |pat| ==> pat[k] != '*' && !IsDigit(pat[k])
    ensures Contains(s[..i], pat) <==> Contains(s, pat)
  {
    if Contains(s[..i], pat) {
      var j :| 0 <= j <= i - |pat| && OccursAt(s[..i], j, pat);
      assert s[j..j + |pat|] == s[..i][j..j + |pat|];
      assert OccursAt(s, j, pat);
    }
    if Contains(s, pat) {
      var j :| 0 <= j <= |s| - |pat| && OccursAt(s, j, pat);
      var last := |pat| - 1;
      assert s[j + last] == s[j..j + |pat|][last] == pat[last];
      assert j + last < i;
      assert s[..i][j..j + |pat|] == s[j..j + |pat|];
      assert OccursAt(s[..i], j, pat);
    }
  }

  /**
   * The default rename callback never changes whether a selector is a
   * `:before`/`:after` one: what it cuts off is made of `*` and digits.
   */
  lemma StripKeepsPseudo(s: string)
    ensures WalkerPseudo(StripMultiplier(s)) <==> WalkerPseudo(s)
    ensures CleanupPseudo(StripMultiplier(s)) <==> CleanupPseudo(s)
  {
    if i :| MultiplierSuffixAt(s, i) {
      assert forall m :: i + 1 <= m < |s| ==> s[m] == s[i + 1..][m - i - 1];
      ContainsBeforeTail(s, i, ":before");
      ContainsBeforeTail(s, i, ":after");
    }
    PseudoTestsAgree(s);
    PseudoTestsAgree(StripMultiplier(s));
  }

  /** The walker's question about a content declaration's parent, which may have no selector. */
  predicate IsPseudoParent(selector: Option<string>)
  {
    WalkerPseudo(TestedString(selector))
  }

  /** The default remove filter `(sel) => !/(.*::?)(after|before)/.test(sel)`. */
  predicate NotPseudo(selector: Option<string>)
  {
    !CleanupPseudo(TestedString(selector))
  }
}
