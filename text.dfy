/**
 * The few Python `str` operations the matcher and the ingester rely on:
 * `isspace`, ASCII `lower`/`upper`, `strip`, `split()` with no separator,
 * and literal substring search (what `re.search` does for a literal).
 */
module Text {
  import opened Base

  /** The characters Python's `str.isspace` accepts. */
  predicate IsSpace(c: char) {
    var n := c as int;
    (9 <= n <= 13) || (28 <= n <= 32) || n == 0x85 || n == 0xA0 || n == 0x1680
    || (0x2000 <= n <= 0x200A) || n == 0x2028 || n == 0x2029 || n == 0x202F
    || n == 0x205F || n == 0x3000
  }

  predicate AllSpace(s: string) {
    forall k :: 0 <= k < |s| ==> IsSpace(s[k])
  }

  predicate IsUpperAscii(c: char) { 'A' <= c <= 'Z' }

  predicate IsLowerAscii(c: char) { 'a' <= c <= 'z' }

  function LowerChar(c: char): (d: char)
    ensures !IsUpperAscii(d)
    ensures IsSpace(d) <==> IsSpace(c)
  {
    if IsUpperAscii(c) then (c as int + 32) as char else c
  }

  function UpperChar(c: char): (d: char)
    ensures !IsLowerAscii(d)
  {
    if IsLowerAscii(c) then (c as int - 32) as char else c
  }

  /** `str.lower()`, on the ASCII letters only. */
  function Lower(s: string): (r: string)
    ensures |r| == |s|
    ensures forall k :: 0 <= k < |s| ==> r[k] == LowerChar(s[k])
  {
    seq(|s|, k requires 0 <= k < |s| => LowerChar(s[k]))
  }

  /** `str.upper()`, on the ASCII letters only. */
  function Upper(s: string): (r: string)
    ensures |r| == |s|
    ensures forall k :: 0 <= k < |s| ==> r[k] == UpperChar(s[k])
  {
    seq(|s|, k requires 0 <= k < |s| => UpperChar(s[k]))
  }

  predicate NoUpper(s: string) {
    forall k :: 0 <= k < |s| ==> !IsUpperAscii(s[k])
  }

  predicate NoLower(s: string) {
    forall k :: 0 <= k < |s| ==> !IsLowerAscii(s[k])
  }

  /** Lowercasing leaves no capital, is idempotent, and keeps a text that has no capital. */
  lemma LowerSpec(s: string)
    ensures NoUpper(Lower(s))
    ensures Lower(Lower(s)) == Lower(s)
    ensures NoUpper(s) ==> Lower(s) == s
  {
  }

  /** Uppercasing leaves no small letter and changes a text only up to case. */
  lemma UpperSpec(s: string)
    ensures NoLower(Upper(s))
    ensures Lower(Upper(s)) == Lower(s)
    ensures Upper(Upper(s)) == Upper(s)
    ensures NoLower(s) ==> Upper(s) == s
  {
  }

  /** The first index at or after `i` that is not whitespace (or `|s|`). */
  function SkipSpace(s: string, i: nat): (k: nat)
    requires i <= |s|
    ensures i <= k <= |s|
    ensures forall m :: i <= m < k ==> IsSpace(s[m])
    ensures k < |s| ==> !IsSpace(s[k])
    decreases |s| - i
  {
    if i == |s| || !IsSpace(s[i]) then i else SkipSpace(s, i + 1)
  }

  /** The end of `s[lo..j]` once its trailing whitespace is dropped. */
  function TrimEnd(s: string, lo: nat, j: nat): (k: nat)
    requires lo <= j <= |s|
    ensures lo <= k <= j
    ensures forall m :: k <= m < j ==> IsSpace(s[m])
    ensures k > lo ==> !IsSpace(s[k - 1])
    decreases j - lo
  {
    if j == lo || !IsSpace(s[j - 1]) then j else TrimEnd(s, lo, j - 1)
  }

  /** `str.strip()`: drop leading and trailing whitespace. */
  function Strip(s: string): (r: string)
    ensures r != [] ==> !IsSpace(r[0]) && !IsSpace(r[|r| - 1])
    ensures exists i :: 0 <= i <= |s| - |r| && r == s[i..i + |r|]
                        && AllSpace(s[..i]) && AllSpace(s[i + |r|..])
  {
    var i := SkipSpace(s, 0);
    var j := TrimEnd(s, i, |s|);
    assert AllSpace(s[..i]) && AllSpace(s[j..]);
    s[i..j]
  }

  /** The end of the word that starts at `i`: the first whitespace at or after `i`, or `|s|`. */
  function WordEnd(s: string, i: nat): (k: nat)
    requires i <= |s|
    ensures i <= k <= |s|
    ensures forall m :: i <= m < k ==> !IsSpace(s[m])
    ensures k < |s| ==> IsSpace(s[k])
    decreases |s| - i
  {
    if i == |s| || IsSpace(s[i]) then i else WordEnd(s, i + 1)
  }

  /** A word running from `i` to whitespace or the end at `j` ends exactly there. */
  lemma WordEndAt(s: string, i: nat, j: nat)
    requires i <= j <= |s|
    requires forall m :: i <= m < j ==> !IsSpace(s[m])
    requires j == |s| || IsSpace(s[j])
    ensures WordEnd(s, i) == j
    decreases j - i
  {
    if i < j {
      WordEndAt(s, i + 1, j);
    }
  }

  predicate IsToken(t: string) {
    t != [] && forall k :: 0 <= k < |t| ==> !IsSpace(t[k])
  }

  /** `s[i..j]` is a whole word of `s`: non-empty, no whitespace, whitespace or an end on both sides. */
  predicate IsWordAt(s: string, i: nat, j: nat) {
    i < j <= |s|
    && (i == 0 || IsSpace(s[i - 1]))
    && (j == |s| || IsSpace(s[j]))
    && forall m :: i <= m < j ==> !IsSpace(s[m])
  }

  /** The tokens of `s[i..]`, as `split()` yields them. */
  function SplitFrom(s: string, i: nat): (r: seq<string>)
    requires i <= |s|
    ensures forall k :: 0 <= k < |r| ==> IsToken(r[k])
    decreases |s| - i
  {
    if i == |s| then []
    else if IsSpace(s[i]) then SplitFrom(s, i + 1)
    else
      var e := WordEnd(s, i);
      [s[i..e]] + SplitFrom(s, e)
  }

  /** `str.split()` with no separator. */
  function Split(s: string): seq<string> {
    SplitFrom(s, 0)
  }

  lemma {:induction false} SplitFromOfSpace(s: string, i: nat)
    requires i <= |s|
    requires forall m :: i <= m < |s| ==> IsSpace(s[m])
    ensures SplitFrom(s, i) == []
    decreases |s| - i
  {
    if i < |s| {
      SplitFromOfSpace(s, i + 1);
    }
  }

  /** A text made only of whitespace (the empty text included) has no tokens. */
  lemma SplitOfSpace(s: string)
    requires AllSpace(s)
    ensures Split(s) == []
  {
    SplitFromOfSpace(s, 0);
  }

  lemma {:induction false} WordIsTokenFrom(s: string, i: nat, j: nat, from: nat)
    requires IsWordAt(s, i, j)
    requires from <= i
    ensures s[i..j] in SplitFrom(s, from)
    decreases |s| - from
  {
    if from == i {
      WordEndAt(s, i, j);
      assert SplitFrom(s, from)[0] == s[i..j];
    } else if IsSpace(s[from]) {
      WordIsTokenFrom(s, i, j, from + 1);
    } else {
      var e := WordEnd(s, from);
      assert !IsSpace(s[from]);
      assert IsSpace(s[i - 1]);
      WordIsTokenFrom(s, i, j, e);
    }
  }

  /** Every whole word of the text is one of its tokens. */
  lemma WordIsToken(s: string, i: nat, j: nat)
    requires IsWordAt(s, i, j)
    ensures s[i..j] in Split(s)
  {
    WordIsTokenFrom(s, i, j, 0);
  }

  lemma {:induction false} TokenIsWordFrom(s: string, from: nat, t: string)
    requires from <= |s|
    requires from == 0 || from == |s| || IsSpace(s[from - 1]) || IsSpace(s[from])
    requires t in SplitFrom(s, from)
    ensures exists i: nat, j: nat :: from <= i && IsWordAt(s, i, j) && t == s[i..j]
    decreases |s| - from
  {
    if IsSpace(s[from]) {
      TokenIsWordFrom(s, from + 1, t);
    } else {
      var e := WordEnd(s, from);
      if t == s[from..e] {
        assert IsWordAt(s, from, e);
      } else {
        TokenIsWordFrom(s, e, t);
      }
    }
  }

  /** Every token is a whole word of the text. */
  lemma TokenIsWord(s: string, t: string)
    requires t in Split(s)
    ensures exists i: nat, j: nat :: IsWordAt(s, i, j) && t == s[i..j]
  {
    TokenIsWordFrom(s, 0, t);
  }

  /** Whitespace from `i` up to `n` yields no token. */
  lemma {:induction false} SkipLead(s: string, i: nat, n: nat)
    requires i <= n <= |s|
    requires forall m :: i <= m < n ==> IsSpace(s[m])
    ensures SplitFrom(s, i) == SplitFrom(s, n)
    decreases n - i
  {
    if i < n {
      SkipLead(s, i + 1, n);
    }
  }

  /**
   * After leading whitespace, the first token of a word followed by nothing
   * or by whitespace is that word.
   */
  lemma {:induction false} FirstToken(lead: string, w: string, rest: string)
    requires AllSpace(lead) && IsToken(w)
    requires rest == [] || IsSpace(rest[0])
    ensures Split(lead + w + rest) != [] && Split(lead + w + rest)[0] == w
  {
    var s := lead + w + rest;
    var i, j := |lead|, |lead| + |w|;
    assert forall m :: 0 <= m < i ==> s[m] == lead[m];
    assert forall m :: i <= m < j ==> s[m] == w[m - i];
    assert j < |s| ==> s[j] == rest[0];
    SkipLead(s, 0, i);
    WordEndAt(s, i, j);
    assert s[i..j] == w;
  }

  predicate OccursAt(s: string, pat: string, k: nat) {
    k + |pat| <= |s| && s[k..k + |pat|] == pat
  }

  predicate Contains(s: string, pat: string) {
    exists k: nat :: k <= |s| && OccursAt(s, pat, k)
  }

  /** `p` is the first position at or after `from` where `pat` occurs. */
  predicate IsFirstOccurrence(s: string, pat: string, from: nat, p: nat) {
    from <= p && OccursAt(s, pat, p)
    && forall m: nat :: from <= m < p ==> !OccursAt(s, pat, m)
  }

  /** Leftmost-first search for a literal, as `re.search` performs it. */
  function FindFrom(s: string, pat: string, from: nat): (r: Option<nat>)
    ensures r.Some? ==> IsFirstOccurrence(s, pat, from, r.value)
    ensures r.None? ==> forall m: nat :: from <= m ==> !OccursAt(s, pat, m)
    decreases |s| - from
  {
    if from + |pat| > |s| then None
    else if s[from..from + |pat|] == pat then Some(from)
    else FindFrom(s, pat, from + 1)
  }

  /** A substring of a string without upper-case letters has none either. */
  lemma SliceNoUpper(s: string, i: nat, j: nat)
    requires NoUpper(s) && i <= j <= |s|
    ensures NoUpper(s[i..j])
  {
  }

  /** An occurrence inside a slice is an occurrence in the whole string. */
  lemma OccursInSlice(s: string, lo: nat, hi: nat, pat: string, k: nat)
    requires lo <= hi <= |s|
    requires OccursAt(s[lo..hi], pat, k)
    ensures OccursAt(s, pat, lo + k) && lo + k + |pat| <= hi
  {
    forall m | 0 <= m < |pat|
      ensures s[lo + k..lo + k + |pat|][m] == pat[m]
    {
      assert s[lo..hi][k..k + |pat|][m] == pat[m];
    }
  }

  lemma SliceOfSlice(s: string, i: nat, j: nat, a: nat, b: nat)
    requires i <= j <= |s| && a <= b <= j - i
    ensures s[i..j][a..b] == s[i + a..i + b]
  {
    forall m | 0 <= m < b - a ensures s[i..j][a..b][m] == s[i + a..i + b][m] {
      assert s[i..j][a..b][m] == s[i + a + m];
    }
  }

  /** Stripping keeps an occurrence of a pattern that starts and ends with non-whitespace. */
  lemma StripKeeps(s: string, pat: string, k: nat)
    requires OccursAt(s, pat, k)
    requires pat != [] && !IsSpace(pat[0]) && !IsSpace(pat[|pat| - 1])
    ensures Contains(Strip(s), pat)
  {
    var i := SkipSpace(s, 0);
    var j := TrimEnd(s, i, |s|);
    var last := k + |pat| - 1;
    assert !IsSpace(s[k]) && !IsSpace(s[last]) by {
      assert s[k..k + |pat|][0] == s[k] && s[k..k + |pat|][|pat| - 1] == s[last];
    }
    assert i <= k by {
      assert forall m :: 0 <= m < i ==> IsSpace(s[m]);
    }
    assert last < j by {
      assert forall m :: i <= m < |s| && j <= m ==> IsSpace(s[m]);
    }
    var r := Strip(s);
    assert r == s[i..j];
    SliceOfSlice(s, i, j, k - i, k - i + |pat|);
    assert r[k - i..k - i + |pat|] == s[k..k + |pat|];
    assert OccursAt(r, pat, k - i);
  }
}
