/**
 * `fuzzy_match` and `compute_condition_score`: a phrase matches a text when
 * the difflib ratio of the phrase against some whitespace token of the text
 * is strictly above the threshold (0.8 by default).
 */
module Fuzzy {
  import opened Text
  import opened Difflib

  const DEFAULT_THRESHOLD: real := 0.8

  /** The loop of `fuzzy_match`: is some token's ratio with the phrase above the threshold? */
  function AnyTokenAbove(phrase: string, tokens: seq<string>, threshold: real): bool
  {
    if tokens == [] then false
    else Ratio(phrase, tokens[0]) > threshold || AnyTokenAbove(phrase, tokens[1..], threshold)
  }

  lemma {:induction false} AnyTokenAboveSpec(phrase: string, tokens: seq<string>, threshold: real)
    ensures AnyTokenAbove(phrase, tokens, threshold) <==>
            exists t :: t in tokens && Ratio(phrase, t) > threshold
  {
    if tokens != [] {
      AnyTokenAboveSpec(phrase, tokens[1..], threshold);
      assert tokens == [tokens[0]] + tokens[1..];
    }
  }

  /** `fuzzy_match(phrase, text, threshold)`. */
  function FuzzyMatch(phrase: string, text: string, threshold: real): bool
  {
    AnyTokenAbove(phrase, Split(text), threshold)
  }

  /** A phrase matches a text exactly when its ratio with some whitespace token of the text is above the threshold. */
  lemma FuzzyMatchSpec(phrase: string, text: string, threshold: real)
    ensures FuzzyMatch(phrase, text, threshold) <==>
            exists t :: t in Split(text) && Ratio(phrase, t) > threshold
  {
    AnyTokenAboveSpec(phrase, Split(text), threshold);
  }

  /** A text that is empty or only whitespace matches nothing: it has no tokens. */
  lemma NoTokensNoMatch(phrase: string, text: string, threshold: real)
    requires AllSpace(text)
    ensures !FuzzyMatch(phrase, text, threshold)
  {
    SplitOfSpace(text);
    FuzzyMatchSpec(phrase, text, threshold);
  }

  /** A phrase that is itself a token of the text matches it at any threshold below 1. */
  lemma ExactTokenMatches(phrase: string, text: string, threshold: real)
    requires phrase in Split(text)
    requires threshold < 1.0
    ensures FuzzyMatch(phrase, text, threshold)
  {
    RatioSelf(phrase);
    FuzzyMatchSpec(phrase, text, threshold);
  }

  /** A phrase that stands in the text as a whole word matches it (at the default threshold too). */
  lemma WholeWordMatches(text: string, i: nat, j: nat, threshold: real)
    requires IsWordAt(text, i, j)
    requires threshold < 1.0
    ensures FuzzyMatch(text[i..j], text, threshold)
  {
    WordIsToken(text, i, j);
    ExactTokenMatches(text[i..j], text, threshold);
  }

  /** Raising the threshold can only turn a match into a non-match. */
  lemma ThresholdMonotone(phrase: string, text: string, low: real, high: real)
    requires low <= high
    requires FuzzyMatch(phrase, text, high)
    ensures FuzzyMatch(phrase, text, low)
  {
    FuzzyMatchSpec(phrase, text, high);
    FuzzyMatchSpec(phrase, text, low);
    var t :| t in Split(text) && Ratio(phrase, t) > high;
    assert Ratio(phrase, t) > low;
  }

  /** No ratio exceeds 1, so a threshold of 1 or more matches nothing. */
  lemma NoMatchAtOne(phrase: string, text: string, threshold: real)
    requires threshold >= 1.0
    ensures !FuzzyMatch(phrase, text, threshold)
  {
    FuzzyMatchSpec(phrase, text, threshold);
  }

  /** The test `fuzzy_match(cond, text)` makes, at the default threshold. */
  predicate Matches(cond: string, text: string) {
    FuzzyMatch(cond, text, DEFAULT_THRESHOLD)
  }

  /** The positions at which a sequence of flags is true. */
  ghost function TrueIndices(flags: seq<bool>): set<nat> {
    set k: nat | k < |flags| && flags[k]
  }

  /** For each condition, whether it matches the text. */
  function MatchFlags(conds: seq<string>, text: string): (flags: seq<bool>)
    ensures |flags| == |conds|
    ensures forall k :: 0 <= k < |conds| ==> flags[k] == Matches(conds[k], text)
  {
    seq(|conds|, k requires 0 <= k < |conds| => Matches(conds[k], text))
  }

  /** The positions of the conditions that match the text. */
  ghost function MatchingIndices(conds: seq<string>, text: string): set<nat> {
    TrueIndices(MatchFlags(conds, text))
  }

  /** `sum(1 for f in flags if f)`. */
  function CountTrue(flags: seq<bool>): (n: nat)
    ensures n <= |flags|
    decreases |flags|
  {
    if flags == [] then 0
    else CountTrue(flags[..|flags| - 1]) + (if flags[|flags| - 1] then 1 else 0)
  }

  /** The count is the number of true positions. */
  lemma {:induction false} CountTrueCard(flags: seq<bool>)
    ensures CountTrue(flags) == |TrueIndices(flags)|
    decreases |flags|
  {
    if flags != [] {
      var k := |flags| - 1;
      CountTrueCard(flags[..k]);
      TrueIndicesSnoc(flags);
    } else {
      assert TrueIndices(flags) == {};
    }
  }

  /** The count is zero exactly when no flag is set. */
  lemma {:induction false} CountTrueZero(flags: seq<bool>)
    ensures CountTrue(flags) == 0 <==> forall k :: 0 <= k < |flags| ==> !flags[k]
    decreases |flags|
  {
    if flags != [] {
      var k := |flags| - 1;
      CountTrueZero(flags[..k]);
      assert forall m :: 0 <= m < k ==> flags[..k][m] == flags[m];
    }
  }

  /** `compute_condition_score`: how many conditions fuzzy-match the inclusion text. */
  function ConditionScore(conds: seq<string>, text: string): (n: nat)
    ensures n <= |conds|
  {
    CountTrue(MatchFlags(conds, text))
  }

  /** The score is zero exactly when no condition matches. */
  lemma ScoreZeroIffNoMatch(conds: seq<string>, text: string)
    ensures ConditionScore(conds, text) == 0 <==> forall k :: 0 <= k < |conds| ==> !Matches(conds[k], text)
  {
    CountTrueZero(MatchFlags(conds, text));
  }

  /** The score is the number of conditions that match. */
  lemma ConditionScoreCounts(conds: seq<string>, text: string)
    ensures ConditionScore(conds, text) == |MatchingIndices(conds, text)|
    ensures MatchingIndices(conds, text) == set k: nat | k < |conds| && Matches(conds[k], text)
  {
    CountTrueCard(MatchFlags(conds, text));
  }

  lemma TrueIndicesSnoc(flags: seq<bool>)
    requires flags != []
    ensures var k := |flags| - 1;
            && k !in TrueIndices(flags[..k])
            && TrueIndices(flags) == TrueIndices(flags[..k]) + (if flags[k] then {k} else {})
  {
    var k := |flags| - 1;
    assert forall m :: 0 <= m < k ==> flags[..k][m] == flags[m];
  }

  /** `any(fuzzy_match(cond, text) for cond in conds)`, at the default threshold. */
  function AnyConditionMatches(conds: seq<string>, text: string): bool
  {
    if conds == [] then false
    else Matches(conds[0], text) || AnyConditionMatches(conds[1..], text)
  }

  lemma {:induction false} AnyConditionMatchesSpec(conds: seq<string>, text: string)
    ensures AnyConditionMatches(conds, text) <==> exists k :: 0 <= k < |conds| && Matches(conds[k], text)
  {
    if conds != [] {
      AnyConditionMatchesSpec(conds[1..], text);
      if AnyConditionMatches(conds[1..], text) {
        var k :| 0 <= k < |conds[1..]| && Matches(conds[1..][k], text);
        assert conds[k + 1] == conds[1..][k];
      }
      if exists k :: 0 <= k < |conds| && Matches(conds[k], text) {
        var k :| 0 <= k < |conds| && Matches(conds[k], text);
        if k > 0 {
          assert conds[1..][k - 1] == conds[k];
        }
      }
    }
  }

  /** A score of zero means no condition matches; a condition that matches makes the score positive. */
  lemma ScorePositiveIffSomeMatch(conds: seq<string>, text: string)
    ensures ConditionScore(conds, text) > 0 <==> AnyConditionMatches(conds, text)
  {
    ScoreZeroIffNoMatch(conds, text);
    AnyConditionMatchesSpec(conds, text);
  }
}
