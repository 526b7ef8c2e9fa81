/**
 * `match_trials` after retrieval. The retrieved `(index, score)` candidates
 * are visited in order and deduplicated by `nct_id`. A candidate is dropped
 * when a condition fuzzy-matches its exclusion section, or when no condition
 * matches its inclusion section. The survivors are sorted stably, highest
 * `(condition_score, semantic_score)` first, and cut to `top_k`.
 */
module Matcher {
  import opened Base
  import opened Text
  import opened Records
  import opened Criteria
  import opened Fuzzy
  import opened Ranking

  /**
   * One retrieved neighbour: a position in the trial catalog and the
   * semantic score derived from its distance, in ten-thousandths.
   */
  datatype Candidate = Candidate(index: nat, semanticScore: int)

  /** Every candidate names a trial of the catalog. */
  predicate ValidCandidates(trials: seq<Trial>, cands: seq<Candidate>) {
    forall k :: 0 <= k < |cands| ==> cands[k].index < |trials|
  }

  /** Some condition fuzzy-matches the trial's exclusion section. */
  predicate Excluded(conds: seq<string>, t: Trial) {
    AnyConditionMatches(conds, ExclusionSegment(t.criteriaText))
  }

  function Score(conds: seq<string>, t: Trial): nat {
    ConditionScore(conds, InclusionSegment(t.criteriaText))
  }

  /** A trial that the exclusion test and the zero-score test both let through. */
  predicate Passes(conds: seq<string>, t: Trial) {
    !Excluded(conds, t) && Score(conds, t) > 0
  }

  /** What the loop body decides about one candidate: its identifier, whether it passes, its scored entry. */
  datatype Verdict = Verdict(id: string, passes: bool, entry: ScoredTrial)

  function Evaluate(conds: seq<string>, t: Trial, semanticScore: int): Verdict {
    Verdict(t.nctId, Passes(conds, t), ScoredTrial(t, Score(conds, t), semanticScore))
  }

  function Verdicts(trials: seq<Trial>, conds: seq<string>, cands: seq<Candidate>): (vs: seq<Verdict>)
    requires ValidCandidates(trials, cands)
    ensures |vs| == |cands|
    ensures forall k :: 0 <= k < |cands| ==>
              vs[k] == Evaluate(conds, trials[cands[k].index], cands[k].semanticScore)
  {
    seq(|cands|, k requires 0 <= k < |cands| =>
      Evaluate(conds, trials[cands[k].index], cands[k].semanticScore))
  }

  /** Each verdict's entry is for the trial its identifier names. */
  predicate Consistent(vs: seq<Verdict>) {
    forall k :: 0 <= k < |vs| ==> vs[k].entry.trial.nctId == vs[k].id
  }

  lemma VerdictsConsistent(trials: seq<Trial>, conds: seq<string>, cands: seq<Candidate>)
    requires ValidCandidates(trials, cands)
    ensures Consistent(Verdicts(trials, conds, cands))
  {
  }

  /** Candidate `k` is the first one carrying its identifier. */
  predicate FirstOfId(vs: seq<Verdict>, k: nat)
    requires k < |vs|
  {
    forall m :: 0 <= m < k ==> vs[m].id != vs[k].id
  }

  /** The entries kept from the first `n` verdicts, in retrieval order. */
  function Kept(vs: seq<Verdict>, n: nat): seq<ScoredTrial>
    requires n <= |vs|
    decreases n
  {
    if n == 0 then []
    else
      var before := Kept(vs, n - 1);
      if FirstOfId(vs, n - 1) && vs[n - 1].passes then before + [vs[n - 1].entry] else before
  }

  /** The scored survivors of all candidates, in retrieval order. */
  function Survivors(trials: seq<Trial>, conds: seq<string>, cands: seq<Candidate>): seq<ScoredTrial>
    requires ValidCandidates(trials, cands)
  {
    Kept(Verdicts(trials, conds, cands), |cands|)
  }

  /** `[c.lower() for c in conditions]`. */
  function LowerAll(conditions: seq<string>): (r: seq<string>)
    ensures |r| == |conditions|
    ensures forall k :: 0 <= k < |r| ==> r[k] == Lower(conditions[k])
    ensures forall k :: 0 <= k < |r| ==> |r[k]| == |conditions[k]| && NoUpper(r[k])
  {
    seq(|conditions|, k requires 0 <= k < |conditions| => Lower(conditions[k]))
  }

  /** Every kept entry comes from a verdict that was first with its identifier and passed. */
  lemma {:induction false} KeptOrigin(vs: seq<Verdict>, n: nat)
    requires n <= |vs|
    ensures forall p :: 0 <= p < |Kept(vs, n)| ==>
              exists k :: 0 <= k < n && FirstOfId(vs, k) && vs[k].passes && Kept(vs, n)[p] == vs[k].entry
    decreases n
  {
    if n == 0 {
      assert Kept(vs, n) == [];
    } else {
      KeptOrigin(vs, n - 1);
      forall p | 0 <= p < |Kept(vs, n)|
        ensures exists k :: 0 <= k < n && FirstOfId(vs, k) && vs[k].passes && Kept(vs, n)[p] == vs[k].entry
      {
        if p < |Kept(vs, n - 1)| {
          assert Kept(vs, n)[p] == Kept(vs, n - 1)[p];
        } else {
          assert Kept(vs, n)[p] == vs[n - 1].entry;
        }
      }
    }
  }

  /** The identifiers of the first `i` verdicts: the `seen` set of the loop. */
  ghost function IdsBefore(vs: seq<Verdict>, i: nat): set<string>
    requires i <= |vs|
  {
    set m | 0 <= m < i :: vs[m].id
  }

  lemma IdsBeforeStep(vs: seq<Verdict>, i: nat)
    requires i < |vs|
    ensures IdsBefore(vs, i + 1) == IdsBefore(vs, i) + {vs[i].id}
    ensures vs[i].id in IdsBefore(vs, i) <==> !FirstOfId(vs, i)
  {
    if vs[i].id in IdsBefore(vs, i) {
      var m :| 0 <= m < i && vs[m].id == vs[i].id;
    }
  }

  /** One step of the loop: the next verdict is kept when its identifier is new and it passes. */
  lemma KeptStep(vs: seq<Verdict>, i: nat)
    requires i < |vs|
    ensures Kept(vs, i + 1) ==
            if vs[i].id !in IdsBefore(vs, i) && vs[i].passes then Kept(vs, i) + [vs[i].entry] else Kept(vs, i)
    ensures IdsBefore(vs, i + 1) == IdsBefore(vs, i) + {vs[i].id}
  {
    IdsBeforeStep(vs, i);
  }

  /** Every verdict that is first with its identifier and passed is kept. */
  lemma {:induction false} KeptComplete(vs: seq<Verdict>, n: nat, k: nat)
    requires k < n <= |vs|
    requires FirstOfId(vs, k) && vs[k].passes
    ensures vs[k].entry in Kept(vs, n)
    decreases n
  {
    var before := Kept(vs, n - 1);
    if k < n - 1 {
      KeptComplete(vs, n - 1, k);
      assert Kept(vs, n) == before || Kept(vs, n) == before + [vs[n - 1].entry];
    } else {
      assert Kept(vs, n) == before + [vs[k].entry];
    }
  }

  /** No two kept entries share an identifier. */
  lemma {:induction false} KeptUnique(vs: seq<Verdict>, n: nat)
    requires Consistent(vs) && n <= |vs|
    ensures UniqueIds(Kept(vs, n))
    decreases n
  {
    if n > 0 {
      KeptUnique(vs, n - 1);
      var before := Kept(vs, n - 1);
      if FirstOfId(vs, n - 1) && vs[n - 1].passes {
        KeptOrigin(vs, n - 1);
        var s := before + [vs[n - 1].entry];
        forall p, q | 0 <= p < q < |s| ensures s[p].trial.nctId != s[q].trial.nctId {
          if q == |s| - 1 {
            var k :| 0 <= k < n - 1 && FirstOfId(vs, k) && vs[k].passes && before[p] == vs[k].entry;
            assert vs[k].id != vs[n - 1].id;
            assert s[p] == before[p] && s[q] == vs[n - 1].entry;
          } else {
            assert s[p] == before[p] && s[q] == before[q];
          }
        }
      }
    }
  }

  /**
   * Only the first candidate with an identifier is ever considered: when it
   * fails a test, later duplicates are skipped too and the identifier does
   * not appear among the kept entries.
   */
  lemma FirstFailureIsFinal(vs: seq<Verdict>, k: nat)
    requires Consistent(vs) && k < |vs|
    requires FirstOfId(vs, k) && !vs[k].passes
    ensures forall e :: e in Kept(vs, |vs|) ==> e.trial.nctId != vs[k].id
  {
    var s := Kept(vs, |vs|);
    KeptOrigin(vs, |vs|);
    forall e | e in s ensures e.trial.nctId != vs[k].id {
      var p :| 0 <= p < |s| && s[p] == e;
      var m :| 0 <= m < |vs| && FirstOfId(vs, m) && vs[m].passes && s[p] == vs[m].entry;
      assert m != k;
      if m < k {
        assert vs[m].id != vs[k].id;
      } else {
        assert vs[k].id != vs[m].id;
      }
    }
  }

  /** Verdicts past `n` do not change what the first `n` keep. */
  lemma {:induction false} KeptOfPrefix(vs: seq<Verdict>, m: nat, n: nat)
    requires n <= m <= |vs|
    ensures Kept(vs[..m], n) == Kept(vs, n)
    decreases n
  {
    if n > 0 {
      KeptOfPrefix(vs, m, n - 1);
      assert vs[..m][n - 1] == vs[n - 1];
      assert FirstOfId(vs[..m], n - 1) == FirstOfId(vs, n - 1);
    } else {
      assert Kept(vs[..m], n) == [] == Kept(vs, n);
    }
  }

  /** The entries kept from an earlier prefix of the candidates come first, in the same order. */
  lemma {:induction false} KeptPrefix(vs: seq<Verdict>, m: nat, n: nat)
    requires m <= n <= |vs|
    ensures |Kept(vs, m)| <= |Kept(vs, n)|
    ensures Kept(vs, n)[..|Kept(vs, m)|] == Kept(vs, m)
    decreases n
  {
    if m < n {
      KeptPrefix(vs, m, n - 1);
      var before := Kept(vs, n - 1);
      var l := |Kept(vs, m)|;
      if FirstOfId(vs, n - 1) && vs[n - 1].passes {
        assert (before + [vs[n - 1].entry])[..l] == before[..l];
      }
    }
  }

  /** No two survivors share an identifier. */
  lemma SurvivorsUnique(trials: seq<Trial>, conds: seq<string>, cands: seq<Candidate>)
    requires ValidCandidates(trials, cands)
    ensures UniqueIds(Survivors(trials, conds, cands))
  {
    VerdictsConsistent(trials, conds, cands);
    KeptUnique(Verdicts(trials, conds, cands), |cands|);
  }

  /** Each survivor has a positive score and no condition that matches its exclusion section. */
  lemma SurvivorsPass(trials: seq<Trial>, conds: seq<string>, cands: seq<Candidate>)
    requires ValidCandidates(trials, cands)
    ensures forall e :: e in Survivors(trials, conds, cands) ==>
              && 1 <= e.conditionScore <= |conds|
              && e.conditionScore == Score(conds, e.trial)
              && forall k :: 0 <= k < |conds| ==> !Matches(conds[k], ExclusionSegment(e.trial.criteriaText))
  {
    var vs := Verdicts(trials, conds, cands);
    var s := Survivors(trials, conds, cands);
    KeptOrigin(vs, |vs|);
    forall e | e in s
      ensures 1 <= e.conditionScore <= |conds| && e.conditionScore == Score(conds, e.trial)
      ensures forall k :: 0 <= k < |conds| ==> !Matches(conds[k], ExclusionSegment(e.trial.criteriaText))
    {
      var p :| 0 <= p < |s| && s[p] == e;
      var m :| 0 <= m < |vs| && FirstOfId(vs, m) && vs[m].passes && s[p] == vs[m].entry;
      var t := trials[cands[m].index];
      assert vs[m] == Evaluate(conds, t, cands[m].semanticScore);
      assert Passes(conds, t) && e.trial == t;
      AnyConditionMatchesSpec(conds, ExclusionSegment(t.criteriaText));
    }
  }

  /** The first candidate carrying a trial's identifier, when that trial passes, is among the survivors with its scores. */
  lemma SurvivorComplete(trials: seq<Trial>, conds: seq<string>, cands: seq<Candidate>, k: nat)
    requires ValidCandidates(trials, cands) && k < |cands|
    requires forall m :: 0 <= m < k ==> trials[cands[m].index].nctId != trials[cands[k].index].nctId
    requires Passes(conds, trials[cands[k].index])
    ensures var t := trials[cands[k].index];
            ScoredTrial(t, Score(conds, t), cands[k].semanticScore) in Survivors(trials, conds, cands)
  {
    var vs := Verdicts(trials, conds, cands);
    assert FirstOfId(vs, k);
    KeptComplete(vs, |cands|, k);
  }

  /**
   * A trial whose first candidate fails the exclusion or the score test is
   * not among the survivors, even when a later candidate repeats it.
   */
  lemma FirstFailureExcludes(trials: seq<Trial>, conds: seq<string>, cands: seq<Candidate>, k: nat)
    requires ValidCandidates(trials, cands) && k < |cands|
    requires forall m :: 0 <= m < k ==> trials[cands[m].index].nctId != trials[cands[k].index].nctId
    requires !Passes(conds, trials[cands[k].index])
    ensures forall e :: e in Survivors(trials, conds, cands) ==> e.trial.nctId != trials[cands[k].index].nctId
  {
    var vs := Verdicts(trials, conds, cands);
    VerdictsConsistent(trials, conds, cands);
    assert FirstOfId(vs, k);
    FirstFailureIsFinal(vs, k);
  }

  /** Survivors keep the retrieval order: those of a prefix of the candidates come first. */
  lemma SurvivorsInOrder(trials: seq<Trial>, conds: seq<string>, cands: seq<Candidate>, m: nat)
    requires ValidCandidates(trials, cands) && m <= |cands|
    ensures var prefix := Survivors(trials, conds, cands[..m]);
            var all := Survivors(trials, conds, cands);
            |prefix| <= |all| && all[..|prefix|] == prefix
  {
    var vs := Verdicts(trials, conds, cands);
    var ws := Verdicts(trials, conds, cands[..m]);
    assert ws == vs[..m];
    KeptOfPrefix(vs, m, m);
    KeptPrefix(vs, m, |cands|);
  }

  /**
   * The body of the loop of `match_trials` for one candidate: skip a trial
   * already seen, otherwise mark it seen and keep it, scored, when it passes
   * the exclusion test and the zero-score test.
   */
  method Consider(trial: Trial, conds: seq<string>, semanticScore: int, seen: set<string>, scored: seq<ScoredTrial>)
    returns (seen': set<string>, scored': seq<ScoredTrial>)
    ensures seen' == seen + {trial.nctId}
    ensures scored' == if trial.nctId !in seen && Passes(conds, trial)
                       then scored + [ScoredTrial(trial, Score(conds, trial), semanticScore)]
                       else scored
  {
    seen', scored' := seen, scored;
    if trial.nctId !in seen {
      seen' := seen + {trial.nctId};
      var segments := SplitCriteria(trial.criteriaText);
      if !AnyConditionMatches(conds, segments.exclusion) {
        var condScore := ConditionScore(conds, segments.inclusion);
        if condScore != 0 {
          scored' := scored + [ScoredTrial(trial, condScore, semanticScore)];
        }
      }
    }
  }

  /** The survivors among the first `i` candidates. */
  function SurvivorsUpTo(trials: seq<Trial>, conds: seq<string>, cands: seq<Candidate>, i: nat): seq<ScoredTrial>
    requires ValidCandidates(trials, cands) && i <= |cands|
  {
    Kept(Verdicts(trials, conds, cands), i)
  }

  /** The identifiers of the first `i` candidates. */
  ghost function SeenUpTo(trials: seq<Trial>, conds: seq<string>, cands: seq<Candidate>, i: nat): set<string>
    requires ValidCandidates(trials, cands) && i <= |cands|
  {
    IdsBefore(Verdicts(trials, conds, cands), i)
  }

  /** One candidate more: it survives when its trial is new and passes both tests. */
  lemma ScanStep(trials: seq<Trial>, conds: seq<string>, cands: seq<Candidate>, i: nat)
    requires ValidCandidates(trials, cands) && i < |cands|
    ensures var t := trials[cands[i].index];
            SurvivorsUpTo(trials, conds, cands, i + 1) ==
              if t.nctId !in SeenUpTo(trials, conds, cands, i) && Passes(conds, t)
              then SurvivorsUpTo(trials, conds, cands, i) + [ScoredTrial(t, Score(conds, t), cands[i].semanticScore)]
              else SurvivorsUpTo(trials, conds, cands, i)
    ensures SeenUpTo(trials, conds, cands, i + 1) == SeenUpTo(trials, conds, cands, i) + {trials[cands[i].index].nctId}
  {
    var vs := Verdicts(trials, conds, cands);
    assert vs[i] == Evaluate(conds, trials[cands[i].index], cands[i].semanticScore);
    KeptStep(vs, i);
  }

  /** The loop of `match_trials`: deduplicate, filter and score the candidates in order. */
  method ScanCandidates(trials: seq<Trial>, conds: seq<string>, cands: seq<Candidate>)
    returns (scored: seq<ScoredTrial>)
    requires ValidCandidates(trials, cands)
    ensures scored == Survivors(trials, conds, cands)
  {
    scored := [];
    var seen: set<string> := {};
    var i := 0;
    assert Kept(Verdicts(trials, conds, cands), 0) == [];
    assert IdsBefore(Verdicts(trials, conds, cands), 0) == {};
    while i < |cands|
      invariant 0 <= i <= |cands|
      invariant scored == SurvivorsUpTo(trials, conds, cands, i)
      invariant seen == SeenUpTo(trials, conds, cands, i)
    {
      ScanStep(trials, conds, cands, i);
      seen, scored := Consider(trials[cands[i].index], conds, cands[i].semanticScore, seen, scored);
      i := i + 1;
    }
  }

  /** `match_trials`: the survivors ranked by score, best first, cut to `top_k`. */
  function Ranked(trials: seq<Trial>, conditions: seq<string>, cands: seq<Candidate>, topK: int): (r: seq<ScoredTrial>)
    requires ValidCandidates(trials, cands)
  {
    Take(StableSort(Survivors(trials, LowerAll(conditions), cands)), topK)
  }

  /** `match_trials(user_profile, top_k)` from the retrieval result on. */
  method MatchTrials(trials: seq<Trial>, conditions: seq<string>, cands: seq<Candidate>, topK: int)
    returns (result: seq<ScoredTrial>)
    requires ValidCandidates(trials, cands)
    ensures result == Ranked(trials, conditions, cands, topK)
  {
    var conds := LowerAll(conditions);
    var scored := ScanCandidates(trials, conds, cands);
    result := Take(StableSort(scored), topK);
  }

  /** `top_k` entries, or all of them when there are fewer; a negative `top_k` drops that many from the end. */
  lemma RankedLength(trials: seq<Trial>, conditions: seq<string>, cands: seq<Candidate>, topK: int)
    requires ValidCandidates(trials, cands)
    ensures var n := |Survivors(trials, LowerAll(conditions), cands)|;
            |Ranked(trials, conditions, cands, topK)| == if topK >= 0 then Min(topK, n) else Max(0, n + topK)
  {
  }

  /** The result is ordered by `(condition_score, semantic_score)`, highest first. */
  lemma RankedSorted(trials: seq<Trial>, conditions: seq<string>, cands: seq<Candidate>, topK: int)
    requires ValidCandidates(trials, cands)
    ensures SortedDesc(Ranked(trials, conditions, cands, topK))
  {
    var sorted := StableSort(Survivors(trials, LowerAll(conditions), cands));
    var r := Ranked(trials, conditions, cands, topK);
    forall i, j | 0 <= i < j < |r| ensures !Outranks(r[j], r[i]) {
      assert r[i] == sorted[i] && r[j] == sorted[j];
    }
  }

  /** Every entry of the result is one of the survivors. */
  lemma RankedFromSurvivors(trials: seq<Trial>, conditions: seq<string>, cands: seq<Candidate>, topK: int)
    requires ValidCandidates(trials, cands)
    ensures forall e :: e in Ranked(trials, conditions, cands, topK) ==> e in Survivors(trials, LowerAll(conditions), cands)
  {
    var s := Survivors(trials, LowerAll(conditions), cands);
    var sorted := StableSort(s);
    forall e | e in Ranked(trials, conditions, cands, topK) ensures e in s {
      assert e in sorted;
      assert e in multiset(sorted);
    }
  }

  /** No trial appears twice in the result. */
  lemma RankedUnique(trials: seq<Trial>, conditions: seq<string>, cands: seq<Candidate>, topK: int)
    requires ValidCandidates(trials, cands)
    ensures UniqueIds(Ranked(trials, conditions, cands, topK))
  {
    var s := Survivors(trials, LowerAll(conditions), cands);
    SurvivorsUnique(trials, LowerAll(conditions), cands);
    StableSortUnique(s);
    var sorted := StableSort(s);
    var r := Ranked(trials, conditions, cands, topK);
    forall p, q | 0 <= p < q < |r| ensures r[p].trial.nctId != r[q].trial.nctId {
      assert r[p] == sorted[p] && r[q] == sorted[q];
    }
  }

  /**
   * Every entry of the result matches at least one of the user's conditions
   * in its inclusion section, and none of them in its exclusion section.
   */
  lemma RankedPass(trials: seq<Trial>, conditions: seq<string>, cands: seq<Candidate>, topK: int)
    requires ValidCandidates(trials, cands)
    ensures forall e :: e in Ranked(trials, conditions, cands, topK) ==>
              && 1 <= e.conditionScore <= |conditions|
              && e.conditionScore == Score(LowerAll(conditions), e.trial)
              && forall k :: 0 <= k < |conditions| ==>
                   !Matches(Lower(conditions[k]), ExclusionSegment(e.trial.criteriaText))
  {
    RankedFromSurvivors(trials, conditions, cands, topK);
    SurvivorsPass(trials, LowerAll(conditions), cands);
  }

  /**
   * Ties keep the retrieval order: for every key, the result's entries with
   * that key are the first of the survivors with that key, in the same order.
   */
  lemma RankedStable(trials: seq<Trial>, conditions: seq<string>, cands: seq<Candidate>, topK: int, c: nat, sem: int)
    requires ValidCandidates(trials, cands)
    ensures var all := WithKey(Survivors(trials, LowerAll(conditions), cands), c, sem);
            var kept := WithKey(Ranked(trials, conditions, cands, topK), c, sem);
            |kept| <= |all| && all[..|kept|] == kept
  {
    var s := Survivors(trials, LowerAll(conditions), cands);
    var sorted := StableSort(s);
    var r := Ranked(trials, conditions, cands, topK);
    StableSortStable(s, c, sem);
    assert r == sorted[..|r|];
    PrefixWithKey(sorted, |r|, c, sem);
  }
}
