/**
 * `difflib.SequenceMatcher(None, a, b).ratio()`: the Ratcliff/Obershelp
 * similarity. The longest matching block is found (earliest in `a`, then
 * earliest in `b`, among the longest), and the same search is repeated on
 * the pieces to its left and to its right. `M` is the total size of the
 * blocks found, and the ratio is `2*M / (|a| + |b|)`, or 1 when both are empty.
 */
module Difflib {

  /** A matching block: `a[i..i+size] == b[j..j+size]`. */
  datatype Block = Block(i: nat, j: nat, size: nat)

  /** How far `a[i..ahi]` and `b[j..bhi]` agree from their first characters on. */
  function RunLength(a: string, b: string, i: nat, j: nat, ahi: nat, bhi: nat): (k: nat)
    requires i <= ahi <= |a| && j <= bhi <= |b|
    ensures i + k <= ahi && j + k <= bhi
    ensures i + k < ahi && j + k < bhi ==> a[i + k] != b[j + k]
    decreases ahi - i
  {
    if i < ahi && j < bhi && a[i] == b[j] then 1 + RunLength(a, b, i + 1, j + 1, ahi, bhi)
    else 0
  }

  /** The run is a common substring. */
  lemma {:induction false} RunLengthMatches(a: string, b: string, i: nat, j: nat, ahi: nat, bhi: nat)
    requires i <= ahi <= |a| && j <= bhi <= |b|
    ensures var k := RunLength(a, b, i, j, ahi, bhi); a[i..i + k] == b[j..j + k]
    decreases ahi - i
  {
    if i < ahi && j < bhi && a[i] == b[j] {
      var k' := RunLength(a, b, i + 1, j + 1, ahi, bhi);
      RunLengthMatches(a, b, i + 1, j + 1, ahi, bhi);
      ConsSlice(a, i, k');
      ConsSlice(b, j, k');
    }
  }

  lemma ConsSlice(s: string, i: nat, k: nat)
    requires i + 1 + k <= |s|
    ensures s[i..i + 1 + k] == [s[i]] + s[i + 1..i + 1 + k]
  {
  }

  /** Position `(i, j)` comes before `(i', j')` in the order the search visits them. */
  predicate Before(i: nat, j: nat, i': nat, j': nat) {
    i < i' || (i == i' && j < j')
  }

  /** The range bounds of a search box. */
  predicate Box(a: string, b: string, alo: nat, ahi: nat, blo: nat, bhi: nat) {
    alo <= ahi <= |a| && blo <= bhi <= |b|
  }

  /** The best block so far is the earliest longest one among the visited positions. */
  ghost predicate BestSoFar(a: string, b: string, alo: nat, ahi: nat, blo: nat, bhi: nat,
                            i: nat, j: nat, best: Block)
    requires Box(a, b, alo, ahi, blo, bhi)
  {
    && (best.size == 0 ==> best.i == alo && best.j == blo)
    && (best.size > 0 ==>
          alo <= best.i < ahi && blo <= best.j < bhi && Before(best.i, best.j, i, j)
          && best.size == RunLength(a, b, best.i, best.j, ahi, bhi))
    && (forall i', j' :: alo <= i' < ahi && blo <= j' < bhi && Before(i', j', i, j)
          ==> RunLength(a, b, i', j', ahi, bhi) <= best.size)
    && (forall i', j' :: alo <= i' < ahi && blo <= j' < bhi && Before(i', j', best.i, best.j)
          ==> RunLength(a, b, i', j', ahi, bhi) < best.size)
  }

  /** Visit the positions from `(i, j)` on, row by row, keeping the first strictly longer run. */
  function Scan(a: string, b: string, alo: nat, ahi: nat, blo: nat, bhi: nat,
                i: nat, j: nat, best: Block): (r: Block)
    requires Box(a, b, alo, ahi, blo, bhi)
    requires alo <= i <= ahi && blo <= j <= bhi
    requires BestSoFar(a, b, alo, ahi, blo, bhi, i, j, best)
    ensures BestSoFar(a, b, alo, ahi, blo, bhi, ahi, blo, r)
    decreases ahi - i, bhi - j
  {
    if i == ahi then best
    else if j == bhi then
      NextRow(a, b, alo, ahi, blo, bhi, i, best);
      Scan(a, b, alo, ahi, blo, bhi, i + 1, blo, best)
    else
      var k := RunLength(a, b, i, j, ahi, bhi);
      var best' := if k > best.size then Block(i, j, k) else best;
      NextColumn(a, b, alo, ahi, blo, bhi, i, j, best);
      Scan(a, b, alo, ahi, blo, bhi, i, j + 1, best')
  }

  lemma NextRow(a: string, b: string, alo: nat, ahi: nat, blo: nat, bhi: nat, i: nat, best: Block)
    requires Box(a, b, alo, ahi, blo, bhi)
    requires alo <= i < ahi
    requires BestSoFar(a, b, alo, ahi, blo, bhi, i, bhi, best)
    ensures BestSoFar(a, b, alo, ahi, blo, bhi, i + 1, blo, best)
  {
    forall i', j' | alo <= i' < ahi && blo <= j' < bhi && Before(i', j', i + 1, blo)
      ensures RunLength(a, b, i', j', ahi, bhi) <= best.size
    {
      assert Before(i', j', i, bhi);
    }
  }

  lemma NextColumn(a: string, b: string, alo: nat, ahi: nat, blo: nat, bhi: nat,
                   i: nat, j: nat, best: Block)
    requires Box(a, b, alo, ahi, blo, bhi)
    requires alo <= i < ahi && blo <= j < bhi
    requires BestSoFar(a, b, alo, ahi, blo, bhi, i, j, best)
    ensures var k := RunLength(a, b, i, j, ahi, bhi);
            BestSoFar(a, b, alo, ahi, blo, bhi, i, j + 1, if k > best.size then Block(i, j, k) else best)
  {
    var k := RunLength(a, b, i, j, ahi, bhi);
    var best' := if k > best.size then Block(i, j, k) else best;
    forall i', j' | alo <= i' < ahi && blo <= j' < bhi && Before(i', j', i, j + 1)
      ensures RunLength(a, b, i', j', ahi, bhi) <= best'.size
    {
      if Before(i', j', i, j) {
      } else {
        assert i' == i && j' == j;
      }
    }
    if k > best.size {
      forall i', j' | alo <= i' < ahi && blo <= j' < bhi && Before(i', j', i, j)
        ensures RunLength(a, b, i', j', ahi, bhi) < best'.size
      {
      }
    }
  }

  /**
   * `find_longest_match(alo, ahi, blo, bhi)` without junk: the longest block
   * inside the box, the earliest in `a` and then in `b` among the longest,
   * and `(alo, blo, 0)` when the box holds no match.
   */
  function LongestMatch(a: string, b: string, alo: nat, ahi: nat, blo: nat, bhi: nat): (r: Block)
    requires Box(a, b, alo, ahi, blo, bhi)
    ensures alo <= r.i && r.i + r.size <= ahi && blo <= r.j && r.j + r.size <= bhi
    ensures a[r.i..r.i + r.size] == b[r.j..r.j + r.size]
    ensures r.size == 0 ==> r.i == alo && r.j == blo
    ensures forall i', j' :: alo <= i' < ahi && blo <= j' < bhi
              ==> RunLength(a, b, i', j', ahi, bhi) <= r.size
    ensures forall i', j' :: alo <= i' < ahi && blo <= j' < bhi && Before(i', j', r.i, r.j)
              ==> RunLength(a, b, i', j', ahi, bhi) < r.size
  {
    var r := Scan(a, b, alo, ahi, blo, bhi, alo, blo, Block(alo, blo, 0));
    ScanFinal(a, b, alo, ahi, blo, bhi, r);
    r
  }

  /** Once every position is visited, the best block so far is the longest match. */
  lemma ScanFinal(a: string, b: string, alo: nat, ahi: nat, blo: nat, bhi: nat, r: Block)
    requires Box(a, b, alo, ahi, blo, bhi)
    requires BestSoFar(a, b, alo, ahi, blo, bhi, ahi, blo, r)
    ensures alo <= r.i && r.i + r.size <= ahi && blo <= r.j && r.j + r.size <= bhi
    ensures a[r.i..r.i + r.size] == b[r.j..r.j + r.size]
    ensures r.size == 0 ==> r.i == alo && r.j == blo
    ensures forall i', j' :: alo <= i' < ahi && blo <= j' < bhi
              ==> RunLength(a, b, i', j', ahi, bhi) <= r.size
    ensures forall i', j' :: alo <= i' < ahi && blo <= j' < bhi && Before(i', j', r.i, r.j)
              ==> RunLength(a, b, i', j', ahi, bhi) < r.size
  {
    assert forall i', j' :: alo <= i' < ahi && blo <= j' < bhi ==> Before(i', j', ahi, blo);
    if r.size > 0 {
      RunLengthMatches(a, b, r.i, r.j, ahi, bhi);
    }
  }

  /** The number of characters `get_matching_blocks` matches inside the box. */
  function MatchedIn(a: string, b: string, alo: nat, ahi: nat, blo: nat, bhi: nat): (m: nat)
    requires Box(a, b, alo, ahi, blo, bhi)
    ensures m <= ahi - alo && m <= bhi - blo
    decreases (ahi - alo) + (bhi - blo)
  {
    var x := LongestMatch(a, b, alo, ahi, blo, bhi);
    if x.size == 0 then 0
    else
      x.size
      + MatchedIn(a, b, alo, x.i, blo, x.j)
      + MatchedIn(a, b, x.i + x.size, ahi, x.j + x.size, bhi)
  }

  /** `M`: the total size of the matching blocks of `a` and `b`. */
  function MatchCount(a: string, b: string): (m: nat)
    ensures m <= |a| && m <= |b|
  {
    MatchedIn(a, b, 0, |a|, 0, |b|)
  }

  /** `SequenceMatcher(None, a, b).ratio()`, computed exactly. */
  function Ratio(a: string, b: string): (r: real)
    ensures 0.0 <= r <= 1.0
  {
    var total := |a| + |b|;
    if total == 0 then 1.0
    else
      var m := MatchCount(a, b);
      FractionBounds(2 * m, total);
      (2 * m) as real / total as real
  }

  lemma FractionBounds(x: nat, y: nat)
    requires 0 < y && x <= y
    ensures 0.0 <= x as real / y as real <= 1.0
  {
  }

  lemma {:induction false} RunLengthSelf(a: string, i: nat, hi: nat)
    requires i <= hi <= |a|
    ensures RunLength(a, a, i, i, hi, hi) == hi - i
    decreases hi - i
  {
    if i < hi {
      RunLengthSelf(a, i + 1, hi);
    }
  }

  /** A string matches itself in full. */
  lemma MatchCountSelf(a: string)
    ensures MatchCount(a, a) == |a|
  {
    if |a| > 0 {
      RunLengthSelf(a, 0, |a|);
      var x := LongestMatch(a, a, 0, |a|, 0, |a|);
      assert RunLength(a, a, 0, 0, |a|, |a|) <= x.size;
      assert x.i == 0 && x.j == 0 && x.size == |a|;
    }
  }

  /** The ratio of a string with itself is 1. */
  lemma RatioSelf(a: string)
    ensures Ratio(a, a) == 1.0
  {
    MatchCountSelf(a);
  }
}
