/**
 * The ranking step of `match_trials`: a stable sort by
 * `(condition_score, semantic_score)` in descending order, followed by the
 * slice `[:top_k]`.
 */
module Ranking {
  import opened Base
  import opened Records

  /** A trial with the two scores the matcher attaches to it. */
  datatype ScoredTrial = ScoredTrial(trial: Trial, conditionScore: nat, semanticScore: int)

  /** `x` has the strictly larger key `(condition_score, semantic_score)`. */
  predicate Outranks(x: ScoredTrial, y: ScoredTrial) {
    x.conditionScore > y.conditionScore
    || (x.conditionScore == y.conditionScore && x.semanticScore > y.semanticScore)
  }

  predicate HasKey(x: ScoredTrial, c: nat, sem: int) {
    x.conditionScore == c && x.semanticScore == sem
  }

  /** No entry outranks an entry before it. */
  predicate SortedDesc(s: seq<ScoredTrial>) {
    forall i, j :: 0 <= i < j < |s| ==> !Outranks(s[j], s[i])
  }

  predicate UniqueIds(s: seq<ScoredTrial>) {
    forall p, q :: 0 <= p < q < |s| ==> s[p].trial.nctId != s[q].trial.nctId
  }

  /** The entries of `s` whose key is `(c, sem)`, in their order in `s`. */
  function WithKey(s: seq<ScoredTrial>, c: nat, sem: int): seq<ScoredTrial>
    decreases |s|
  {
    if s == [] then []
    else (if HasKey(s[0], c, sem) then [s[0]] else []) + WithKey(s[1..], c, sem)
  }

  lemma {:induction false} WithKeyAppend(a: seq<ScoredTrial>, b: seq<ScoredTrial>, c: nat, sem: int)
    ensures WithKey(a + b, c, sem) == WithKey(a, c, sem) + WithKey(b, c, sem)
    decreases |a|
  {
    if a == [] {
      assert a + b == b;
    } else {
      assert (a + b)[0] == a[0];
      assert (a + b)[1..] == a[1..] + b;
      WithKeyAppend(a[1..], b, c, sem);
    }
  }

  /**
   * Insert `x` after everything it does not outrank: when `x` comes later in
   * the input than all of `s`, ties keep their input order.
   */
  function Insert(x: ScoredTrial, s: seq<ScoredTrial>): (r: seq<ScoredTrial>)
    ensures |r| == |s| + 1
    ensures multiset(r) == multiset(s) + multiset{x}
    decreases |s|
  {
    if s == [] then [x]
    else if Outranks(x, s[0]) then [x] + s
    else
      assert s == [s[0]] + s[1..];
      [s[0]] + Insert(x, s[1..])
  }

  lemma {:induction false} InsertSorted(x: ScoredTrial, s: seq<ScoredTrial>)
    requires SortedDesc(s)
    ensures SortedDesc(Insert(x, s))
    decreases |s|
  {
    if s != [] && !Outranks(x, s[0]) {
      var rest := Insert(x, s[1..]);
      InsertSorted(x, s[1..]);
      forall y | y in rest ensures !Outranks(y, s[0]) {
        assert y in multiset(rest);
        if y in s[1..] {
          var q :| 0 <= q < |s[1..]| && s[1..][q] == y;
          assert s[q + 1] == y;
        }
      }
      var r := [s[0]] + rest;
      forall i, j | 0 <= i < j < |r| ensures !Outranks(r[j], r[i]) {
        if i == 0 {
          assert r[j] in rest;
        } else {
          assert r[i] == rest[i - 1] && r[j] == rest[j - 1];
        }
      }
    }
  }

  /** `list.sort(key=..., reverse=True)`: stable, highest key first. */
  function StableSort(s: seq<ScoredTrial>): (r: seq<ScoredTrial>)
    ensures |r| == |s|
    ensures multiset(r) == multiset(s)
    ensures SortedDesc(r)
    decreases |s|
  {
    if s == [] then []
    else
      var init := s[..|s| - 1];
      assert s == init + [s[|s| - 1]];
      InsertSorted(s[|s| - 1], StableSort(init));
      Insert(s[|s| - 1], StableSort(init))
  }

  lemma {:induction false} InsertStable(x: ScoredTrial, s: seq<ScoredTrial>, c: nat, sem: int)
    requires SortedDesc(s)
    ensures WithKey(Insert(x, s), c, sem) == WithKey(s, c, sem) + WithKey([x], c, sem)
    decreases |s|
  {
    WithKeySingle(x, c, sem);
    if s == [] {
      assert Insert(x, s) == [x];
    } else if Outranks(x, s[0]) {
      assert Insert(x, s) == [x] + s;
      WithKeyAppend([x], s, c, sem);
      if HasKey(x, c, sem) {
        NoneWithKey(s, c, sem, x);
      }
    } else {
      var rest := Insert(x, s[1..]);
      assert Insert(x, s) == [s[0]] + rest;
      SortedTail(s);
      InsertStable(x, s[1..], c, sem);
      WithKeyAppend([s[0]], rest, c, sem);
      WithKeyAppend([s[0]], s[1..], c, sem);
      assert [s[0]] + s[1..] == s;
    }
  }

  lemma WithKeySingle(x: ScoredTrial, c: nat, sem: int)
    ensures HasKey(x, c, sem) ==> WithKey([x], c, sem) == [x]
    ensures !HasKey(x, c, sem) ==> WithKey([x], c, sem) == []
  {
    assert [x][1..] == [];
    assert WithKey([x][1..], c, sem) == [];
  }

  lemma SortedTail(s: seq<ScoredTrial>)
    requires SortedDesc(s) && s != []
    ensures SortedDesc(s[1..])
  {
    forall i, j | 0 <= i < j < |s| - 1 ensures !Outranks(s[1..][j], s[1..][i]) {
      assert s[1..][j] == s[j + 1] && s[1..][i] == s[i + 1];
    }
  }

  /** In a sorted sequence headed by an entry that `x` outranks, nothing has the key of `x`. */
  lemma {:induction false} NoneWithKey(s: seq<ScoredTrial>, c: nat, sem: int, x: ScoredTrial)
    requires SortedDesc(s) && s != [] && Outranks(x, s[0]) && HasKey(x, c, sem)
    ensures WithKey(s, c, sem) == []
  {
    var k := 0;
    while k < |s|
      invariant 0 <= k <= |s|
      invariant WithKey(s, c, sem) == WithKey(s[k..], c, sem)
    {
      assert !Outranks(s[k], s[0]);
      assert s[k..][1..] == s[k + 1..];
      k := k + 1;
    }
  }

  /** Entries with equal keys come out of the sort in the order they went in. */
  lemma {:induction false} StableSortStable(s: seq<ScoredTrial>, c: nat, sem: int)
    ensures WithKey(StableSort(s), c, sem) == WithKey(s, c, sem)
    decreases |s|
  {
    if s != [] {
      var init := s[..|s| - 1];
      var x := s[|s| - 1];
      var sorted := StableSort(init);
      StableSortStable(init, c, sem);
      assert WithKey(Insert(x, sorted), c, sem) == WithKey(init, c, sem) + WithKey([x], c, sem) by {
        InsertStable(x, sorted, c, sem);
      }
      assert WithKey(init, c, sem) + WithKey([x], c, sem) == WithKey(s, c, sem) by {
        WithKeyAppend(init, [x], c, sem);
        SnocLast(s);
      }
      assert StableSort(s) == Insert(x, sorted);
    }
  }

  lemma SnocLast(s: seq<ScoredTrial>)
    requires s != []
    ensures s[..|s| - 1] + [s[|s| - 1]] == s
  {
  }

  lemma {:induction false} InsertUnique(x: ScoredTrial, s: seq<ScoredTrial>)
    requires UniqueIds(s)
    requires forall y :: y in s ==> y.trial.nctId != x.trial.nctId
    ensures UniqueIds(Insert(x, s))
    decreases |s|
  {
    if s != [] && !Outranks(x, s[0]) {
      InsertUnique(x, s[1..]);
      var rest := Insert(x, s[1..]);
      forall y | y in rest ensures y.trial.nctId != s[0].trial.nctId {
        assert y in multiset(rest);
        if y in s[1..] {
          var q :| 0 <= q < |s[1..]| && s[1..][q] == y;
          assert s[q + 1] == y;
        }
      }
    }
  }

  /** Sorting keeps identifiers distinct. */
  lemma {:induction false} StableSortUnique(s: seq<ScoredTrial>)
    requires UniqueIds(s)
    ensures UniqueIds(StableSort(s))
    decreases |s|
  {
    if s != [] {
      var init := s[..|s| - 1];
      var x := s[|s| - 1];
      StableSortUnique(init);
      forall y | y in StableSort(init) ensures y.trial.nctId != x.trial.nctId {
        assert y in multiset(StableSort(init));
        var q :| 0 <= q < |init| && init[q] == y;
        assert s[q] == y;
      }
      InsertUnique(x, StableSort(init));
    }
  }

  /** Python's `s[:k]`, a negative `k` counting from the end. */
  function Take(s: seq<ScoredTrial>, k: int): (r: seq<ScoredTrial>)
    ensures |r| == if k >= 0 then Min(k, |s|) else Max(0, |s| + k)
    ensures r == s[..|r|]
  {
    if k >= 0 then (if k <= |s| then s[..k] else s)
    else if |s| + k >= 0 then s[..|s| + k] else []
  }

  /** Keeping a prefix keeps, for every key, a prefix of the entries with that key. */
  lemma PrefixWithKey(s: seq<ScoredTrial>, m: nat, c: nat, sem: int)
    requires m <= |s|
    ensures |WithKey(s[..m], c, sem)| <= |WithKey(s, c, sem)|
    ensures WithKey(s, c, sem)[..|WithKey(s[..m], c, sem)|] == WithKey(s[..m], c, sem)
  {
    WithKeyAppend(s[..m], s[m..], c, sem);
    assert s[..m] + s[m..] == s;
  }
}
