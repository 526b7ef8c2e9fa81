/**
 * `split_criteria`: the eligibility text is lowercased. Two independent
 * searches then cut out the inclusion section and the exclusion section.
 *   inclusion: `inclusion criteria:?([\s\S]*?)(exclusion criteria|$)`
 *   exclusion: `exclusion criteria:?([\s\S]*)`
 * Each captured group is stripped, and a header that is not found gives "".
 */
module Criteria {
  import opened Base
  import opened Text

  const INCLUSION_HEADER: string := "inclusion criteria"
  const EXCLUSION_HEADER: string := "exclusion criteria"

  datatype Segments = Segments(inclusion: string, exclusion: string)

  /** Where a section's body starts: after its header and, when present, one ':' (the greedy `:?`). */
  function BodyStart(t: string, p: nat, header: string): (q: nat)
    requires OccursAt(t, header, p)
    ensures p + |header| <= q <= |t| && q <= p + |header| + 1
    ensures q == p + |header| + 1 <==> (p + |header| < |t| && t[p + |header|] == ':')
  {
    var e := p + |header|;
    if e < |t| && t[e] == ':' then e + 1 else e
  }

  /**
   * A position where the lazy inclusion group may end: an `exclusion criteria`,
   * the end of the text, or (as `$` allows) just before a final newline.
   */
  predicate IsStop(t: string, q: nat) {
    OccursAt(t, EXCLUSION_HEADER, q) || q == |t| || (q + 1 == |t| && t[q] == '\n')
  }

  ghost predicate IsFirstStop(t: string, from: nat, q: nat) {
    from <= q <= |t| && IsStop(t, q) && forall m: nat :: from <= m < q ==> !IsStop(t, m)
  }

  /** The shortest extension of the lazy group `[\s\S]*?` that lets the alternation match. */
  function FindStop(t: string, from: nat): (q: nat)
    requires from <= |t|
    ensures IsFirstStop(t, from, q)
    decreases |t| - from
  {
    if IsStop(t, from) then from else FindStop(t, from + 1)
  }

  lemma FirstOccurrenceUnique(t: string, pat: string, from: nat, p: nat, p': nat)
    requires IsFirstOccurrence(t, pat, from, p) && IsFirstOccurrence(t, pat, from, p')
    ensures p == p'
  {
  }

  lemma FirstStopUnique(t: string, from: nat, q: nat, q': nat)
    requires IsFirstStop(t, from, q) && IsFirstStop(t, from, q')
    ensures q == q'
  {
  }

  /** The body of a section cut at its first stop never holds an `exclusion criteria`. */
  lemma StopFreeBody(t: string, from: nat, q: nat)
    requires IsFirstStop(t, from, q)
    ensures !Contains(Strip(t[from..q]), EXCLUSION_HEADER)
  {
    var seg := t[from..q];
    var i := SkipSpace(seg, 0);
    var j := TrimEnd(seg, i, |seg|);
    assert Strip(seg) == seg[i..j];
    forall k: nat | k <= j - i
      ensures !OccursAt(seg[i..j], EXCLUSION_HEADER, k)
    {
      if OccursAt(seg[i..j], EXCLUSION_HEADER, k) {
        OccursInSlice(seg, i, j, EXCLUSION_HEADER, k);
        OccursInSlice(t, from, q, EXCLUSION_HEADER, i + k);
        assert IsStop(t, from + i + k);
      }
    }
  }

  /** The inclusion section of the (lowercased) criteria text. */
  function InclusionSegment(text: string): (r: string)
    ensures |r| <= |text|
  {
    var t := Lower(text);
    match FindFrom(t, INCLUSION_HEADER, 0)
    case None => ""
    case Some(p) =>
      var q0 := BodyStart(t, p, INCLUSION_HEADER);
      var q := FindStop(t, q0);
      Strip(t[q0..q])
  }

  /**
   * The inclusion section is empty without an `inclusion criteria`; otherwise
   * it is the stripped text from after the first header (and its optional
   * ':') up to the first stop.
   */
  lemma InclusionSegmentSpec(text: string)
    ensures var t := Lower(text); var r := InclusionSegment(text);
      && (!Contains(t, INCLUSION_HEADER) ==> r == "")
      && (forall p: nat, q: nat ::
            IsFirstOccurrence(t, INCLUSION_HEADER, 0, p)
            && IsFirstStop(t, BodyStart(t, p, INCLUSION_HEADER), q)
            ==> r == Strip(t[BodyStart(t, p, INCLUSION_HEADER)..q]))
  {
    var t := Lower(text);
    match FindFrom(t, INCLUSION_HEADER, 0)
    case None =>
    case Some(p) =>
      var q0 := BodyStart(t, p, INCLUSION_HEADER);
      var q := FindStop(t, q0);
      InclusionUnique(t, p, q0, q, InclusionSegment(text));
  }

  /** The inclusion section is lowercase, stripped, and holds no `exclusion criteria`. */
  lemma InclusionSegmentShape(text: string)
    ensures var r := InclusionSegment(text);
      && NoUpper(r)
      && (r != [] ==> !IsSpace(r[0]) && !IsSpace(r[|r| - 1]))
      && !Contains(r, EXCLUSION_HEADER)
  {
    var t := Lower(text);
    match FindFrom(t, INCLUSION_HEADER, 0)
    case None =>
    case Some(p) =>
      var q0 := BodyStart(t, p, INCLUSION_HEADER);
      var q := FindStop(t, q0);
      StopFreeBody(t, q0, q);
      SliceNoUpper(t, q0, q);
      StripNoUpper(t[q0..q]);
  }

  lemma InclusionUnique(t: string, p: nat, q0: nat, q: nat, r: string)
    requires IsFirstOccurrence(t, INCLUSION_HEADER, 0, p)
    requires q0 == BodyStart(t, p, INCLUSION_HEADER) && IsFirstStop(t, q0, q)
    requires r == Strip(t[q0..q])
    ensures forall p': nat, q': nat ::
              IsFirstOccurrence(t, INCLUSION_HEADER, 0, p')
              && IsFirstStop(t, BodyStart(t, p', INCLUSION_HEADER), q')
              ==> r == Strip(t[BodyStart(t, p', INCLUSION_HEADER)..q'])
  {
    forall p': nat, q': nat |
      IsFirstOccurrence(t, INCLUSION_HEADER, 0, p')
      && IsFirstStop(t, BodyStart(t, p', INCLUSION_HEADER), q')
      ensures r == Strip(t[BodyStart(t, p', INCLUSION_HEADER)..q'])
    {
      FirstOccurrenceUnique(t, INCLUSION_HEADER, 0, p, p');
      FirstStopUnique(t, q0, q, q');
    }
  }

  lemma StripNoUpper(s: string)
    requires NoUpper(s)
    ensures NoUpper(Strip(s))
  {
  }

  /** The exclusion section of the (lowercased) criteria text. */
  function ExclusionSegment(text: string): (r: string)
    ensures |r| <= |text|
  {
    var t := Lower(text);
    match FindFrom(t, EXCLUSION_HEADER, 0)
    case None => ""
    case Some(p) => Strip(t[BodyStart(t, p, EXCLUSION_HEADER)..])
  }

  /**
   * The exclusion section is empty without an `exclusion criteria`; otherwise
   * it is the stripped rest of the text after the first header (and its
   * optional ':').
   */
  lemma ExclusionSegmentSpec(text: string)
    ensures var t := Lower(text); var r := ExclusionSegment(text);
      && (!Contains(t, EXCLUSION_HEADER) ==> r == "")
      && (forall p: nat :: IsFirstOccurrence(t, EXCLUSION_HEADER, 0, p)
            ==> r == Strip(t[BodyStart(t, p, EXCLUSION_HEADER)..]))
  {
  }

  /** The exclusion section is lowercase and stripped. */
  lemma ExclusionSegmentShape(text: string)
    ensures var r := ExclusionSegment(text);
      && NoUpper(r)
      && (r != [] ==> !IsSpace(r[0]) && !IsSpace(r[|r| - 1]))
  {
    var t := Lower(text);
    match FindFrom(t, EXCLUSION_HEADER, 0)
    case None =>
    case Some(p) =>
      var q0 := BodyStart(t, p, EXCLUSION_HEADER);
      SliceNoUpper(t, q0, |t|);
      StripNoUpper(t[q0..]);
  }

  /** `split_criteria`: the two sections, each found by its own search over the whole text. */
  function SplitCriteria(text: string): (r: Segments)
    ensures r.inclusion == InclusionSegment(text) && r.exclusion == ExclusionSegment(text)
  {
    Segments(InclusionSegment(text), ExclusionSegment(text))
  }

  /** The two headers cannot overlap: "exclusion criteria" has no "in" in it. */
  lemma HeadersDisjoint(t: string, e: nat, p: nat)
    requires OccursAt(t, EXCLUSION_HEADER, e) && OccursAt(t, INCLUSION_HEADER, p) && e < p
    ensures e + |EXCLUSION_HEADER| <= p
  {
    assert t[p] == 'i' && t[p + 1] == 'n' by {
      assert t[p..p + 18][0] == t[p] && t[p..p + 18][1] == t[p + 1];
    }
    assert forall m :: e <= m < e + 18 ==> t[m] == EXCLUSION_HEADER[m - e] by {
      forall m | e <= m < e + 18 ensures t[m] == EXCLUSION_HEADER[m - e] {
        assert t[e..e + 18][m - e] == t[m];
      }
    }
    assert forall d :: 0 <= d < 18 && EXCLUSION_HEADER[d] == 'i' ==> d == 6 || d == 12 || d == 16;
  }

  /**
   * The searches are independent: when the exclusion header comes first, the
   * exclusion section runs on over the inclusion header that follows it.
   */
  lemma ExclusionHeaderFirst(text: string, e: nat, p: nat)
    requires IsFirstOccurrence(Lower(text), EXCLUSION_HEADER, 0, e)
    requires OccursAt(Lower(text), INCLUSION_HEADER, p) && e < p
    ensures Contains(ExclusionSegment(text), INCLUSION_HEADER)
  {
    var t := Lower(text);
    HeadersDisjoint(t, e, p);
    var q0 := BodyStart(t, e, EXCLUSION_HEADER);
    assert q0 <= p by {
      if p == e + |EXCLUSION_HEADER| {
        assert t[p] == INCLUSION_HEADER[0];
      }
    }
    var body := t[q0..];
    assert body[p - q0..p - q0 + 18] == t[p..p + 18];
    assert OccursAt(body, INCLUSION_HEADER, p - q0);
    StripKeeps(body, INCLUSION_HEADER, p - q0);
    ExclusionSegmentSpec(text);
    assert ExclusionSegment(text) == Strip(body);
  }
}
