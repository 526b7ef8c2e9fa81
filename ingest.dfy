/**
 * `fetch_trials` and `run`: the paginated collection of trial records for one
 * search term, and its concatenation over the fixed condition list.
 *
 * The registry is not called: the responses it would give are an input, one
 * per page in the order the pages are requested, and the method reports the
 * requests it sent. A study passes when its type is "INTERVENTIONAL" and its
 * upper-cased status is not excluded. It is kept when its identifier is
 * non-empty and unseen. Pages are read until a non-200 status, a total of
 * `MAX_TRIALS` or more after a page, or a page without a next-page token.
 */
module Ingest {
  import opened Base
  import opened Text
  import opened Records

  const MAX_TRIALS: nat := 500
  const PAGE_SIZE: nat := 100
  const EXCLUDED_STATUSES: set<string> :=
    {"COMPLETED", "WITHDRAWN", "TERMINATED", "SUSPENDED", "NO LONGER AVAILABLE"}
  const URL_PREFIX: string := "https://clinicaltrials.gov/ct2/show/"

  /** The search terms `run` goes through, in order. */
  const CONDITIONS: seq<string> := [
    "cancer", "diabetes", "asthma", "depression", "hypertension",
    "arthritis", "stroke", "epilepsy", "obesity", "HIV", "COVID-19",
    "chronic pain", "heart disease", "Parkinson's", "Alzheimer's",
    "anxiety", "bipolar disorder", "schizophrenia", "glaucoma",
    "hepatitis", "psoriasis", "multiple sclerosis", "endometriosis",
    "infertility", "osteoporosis", "lymphoma", "melanoma", "IBS",
    "GERD", "insomnia"]

  /** The `phaseList` field of a study's design: absent, a list, or a single value. */
  datatype PhaseField = NoPhaseList | PhaseList(phases: seq<string>) | PhaseValue(phase: string)

  /**
   * The fields of one study that ingestion reads, flattened out of their
   * modules; a missing field (or a missing module) is None.
   */
  datatype Study = Study(
    studyType: Option<string>,
    overallStatus: Option<string>,
    nctId: Option<string>,
    briefTitle: Option<string>,
    conditions: Option<seq<string>>,
    minimumAge: Option<string>,
    maximumAge: Option<string>,
    gender: Option<string>,
    eligibilityCriteria: Option<string>,
    phaseList: PhaseField,
    leadSponsor: Option<string>,
    enrollmentCount: Option<int>)

  /** One answer of the registry: the status code, the studies (absent = none) and the next-page token. */
  datatype Response = Response(status: int, studies: seq<Study>, nextPageToken: Option<string>)

  /** The query parameters of one page request. */
  datatype Request = Request(term: string, pageSize: nat, pageToken: Option<string>)

  /** Why collection aborts: `phase[0]` on an empty `phaseList` raises. */
  datatype Failure = EmptyPhaseList

  /** The stored status: `overallStatus` (default "") upper-cased. */
  function StatusOf(s: Study): (r: string)
    ensures |r| == |s.overallStatus.GetOr("")|
    ensures NoLower(r) && Lower(r) == Lower(s.overallStatus.GetOr(""))
  {
    Upper(s.overallStatus.GetOr(""))
  }

  /** The type and status filter. */
  predicate Admissible(s: Study) {
    s.studyType == Some("INTERVENTIONAL") && StatusOf(s) !in EXCLUDED_STATUSES
  }

  /** `not nct_id` is false: the identifier is present and non-empty. */
  predicate HasId(s: Study) {
    s.nctId.Some? && s.nctId.value != ""
  }

  /** The stored phase: "N/A" when absent, the first element of a list, a value as it is; None where indexing raises. */
  function PhaseOf(p: PhaseField): (r: Option<string>)
    ensures r.None? <==> p == PhaseList([])
    ensures p.NoPhaseList? ==> r == Some("N/A")
    ensures p.PhaseList? && p.phases != [] ==> r == Some(p.phases[0])
    ensures p.PhaseValue? ==> r == Some(p.phase)
  {
    match p
    case NoPhaseList => Some("N/A")
    case PhaseList(ps) => if ps == [] then None else Some(ps[0])
    case PhaseValue(v) => Some(v)
  }

  /** The record stored for a study that is kept. */
  function MakeTrial(s: Study, phase: string): (t: Trial)
    requires HasId(s)
    ensures t.nctId == s.nctId.value && t.nctId != ""
    ensures t.url == URL_PREFIX + t.nctId
    ensures t.overallStatus == StatusOf(s) && t.phase == phase
  {
    Trial(s.nctId.value, s.briefTitle, s.conditions.GetOr([]), s.minimumAge, s.maximumAge,
          s.gender, s.eligibilityCriteria.GetOr(""), StatusOf(s), phase, s.leadSponsor,
          s.enrollmentCount, URL_PREFIX + s.nctId.value)
  }

  /** The identifiers of a sequence of records: the `seen` set of the loop. */
  function Ids(ts: seq<Trial>): set<string> {
    set t | t in ts :: t.nctId
  }

  lemma IdsSnoc(ts: seq<Trial>, t: Trial)
    ensures Ids(ts + [t]) == Ids(ts) + {t.nctId}
  {
    assert forall x :: x in ts + [t] <==> x in ts || x == t;
  }

  /** What one study does to the records collected so far. */
  function Absorb(trials: seq<Trial>, s: Study): Result<seq<Trial>, Failure> {
    if !Admissible(s) || !HasId(s) || s.nctId.value in Ids(trials) then Ok(trials)
    else match PhaseOf(s.phaseList)
      case None => Err(EmptyPhaseList)
      case Some(ph) => Ok(trials + [MakeTrial(s, ph)])
  }

  /** The studies of a sequence, one after the other; a failure ends the walk. */
  function AbsorbAll(trials: seq<Trial>, studies: seq<Study>): Result<seq<Trial>, Failure>
    decreases |studies|
  {
    if studies == [] then Ok(trials)
    else match AbsorbAll(trials, studies[..|studies| - 1])
      case Err(e) => Err(e)
      case Ok(ts) => Absorb(ts, studies[|studies| - 1])
  }

  /** A token that `not token` does not reject. */
  predicate HasToken(p: Response) {
    p.nextPageToken.Some? && p.nextPageToken.value != ""
  }

  /** A response after which no further page is requested, whatever the total. */
  predicate Final(p: Response) {
    p.status != 200 || !HasToken(p)
  }

  /** The responses end with a final one, so the page loop cannot run past them. */
  predicate Ends(pages: seq<Response>) {
    pages != [] && Final(pages[|pages| - 1])
  }

  /** The request for page `k`: the term, the page size and, after the first page, the previous token. */
  function RequestFor(term: string, pages: seq<Response>, k: nat): (r: Request)
    requires k <= |pages|
    ensures r.term == term && r.pageSize == PAGE_SIZE
    ensures k == 0 <==> r.pageToken.None?
  {
    Request(term, PAGE_SIZE, if k == 0 then None else Some(pages[k - 1].nextPageToken.GetOr("")))
  }

  /** The outcome of a collection and the number of pages it requested. */
  datatype Outcome = Outcome(result: Result<seq<Trial>, Failure>, used: nat)

  /** The page loop from page `k`, with `trials` collected before it. */
  function FetchFrom(pages: seq<Response>, k: nat, trials: seq<Trial>): (o: Outcome)
    requires Ends(pages) && k < |pages|
    ensures k < o.used <= |pages|
    decreases |pages| - k
  {
    var p := pages[k];
    if p.status != 200 then Outcome(Ok(trials), k + 1)
    else match AbsorbAll(trials, p.studies)
      case Err(e) => Outcome(Err(e), k + 1)
      case Ok(ts) =>
        if |ts| >= MAX_TRIALS || !HasToken(p) then Outcome(Ok(ts), k + 1)
        else FetchFrom(pages, k + 1, ts)
  }

  function Fetch(pages: seq<Response>): (o: Outcome)
    requires Ends(pages)
    ensures 0 < o.used <= |pages|
  {
    FetchFrom(pages, 0, [])
  }

  /** The studies read from the first `n` pages: those of the pages answered with status 200. */
  function Read(pages: seq<Response>, n: nat): seq<Study>
    requires n <= |pages|
  {
    if n == 0 then []
    else Read(pages, n - 1) + (if pages[n - 1].status == 200 then pages[n - 1].studies else [])
  }

  /** `fetch_trials(term)` against the responses `pages`. */
  method FetchTrials(term: string, pages: seq<Response>)
    returns (result: Result<seq<Trial>, Failure>, sent: seq<Request>)
    requires Ends(pages)
    ensures result == Fetch(pages).result
    ensures |sent| == Fetch(pages).used
    ensures forall k :: 0 <= k < |sent| ==> sent[k] == RequestFor(term, pages, k)
  {
    var trials: seq<Trial> := [];
    var seen: set<string> := {};
    var params := Request(term, PAGE_SIZE, None);
    sent := [];
    var k := 0;
    while true
      invariant 0 <= k < |pages|
      invariant |sent| == k && forall m :: 0 <= m < k ==> sent[m] == RequestFor(term, pages, m)
      invariant params == RequestFor(term, pages, k)
      invariant seen == Ids(trials)
      invariant FetchFrom(pages, k, trials) == Fetch(pages)
      decreases |pages| - k
    {
      var r := pages[k];
      sent := sent + [params];
      if r.status != 200 {
        result := Ok(trials);
        return;
      }
      var outcome;
      outcome, seen := ReadPage(r.studies, trials, seen);
      if outcome.Err? {
        result := outcome;
        return;
      }
      trials := outcome.value;
      if |trials| >= MAX_TRIALS {
        result := Ok(trials);
        return;
      }
      var token := r.nextPageToken;
      if token.None? || token.value == "" {
        result := Ok(trials);
        return;
      }
      params := params.(pageToken := token);
      k := k + 1;
    }
  }

  /** The body of the inner loop: one study against the records and the `seen` set so far. */
  method AbsorbStudy(s: Study, trials: seq<Trial>, seen: set<string>)
    returns (r: Result<seq<Trial>, Failure>, seen': set<string>)
    requires seen == Ids(trials)
    ensures r == Absorb(trials, s)
    ensures r.Ok? ==> seen' == Ids(r.value)
  {
    r, seen' := Ok(trials), seen;
    var status := Upper(s.overallStatus.GetOr(""));
    if s.studyType != Some("INTERVENTIONAL") || status in EXCLUDED_STATUSES {
      return;
    }
    if s.nctId.None? || s.nctId.value == "" || s.nctId.value in seen {
      return;
    }
    var id := s.nctId.value;
    seen' := seen + {id};
    var phase: string;
    match s.phaseList {
      case NoPhaseList =>
        phase := "N/A";
      case PhaseValue(v) =>
        phase := v;
      case PhaseList(ps) =>
        if ps == [] {
          r := Err(EmptyPhaseList);
          return;
        }
        phase := ps[0];
    }
    var t := Trial(id, s.briefTitle, s.conditions.GetOr([]), s.minimumAge, s.maximumAge,
                   s.gender, s.eligibilityCriteria.GetOr(""), status, phase, s.leadSponsor,
                   s.enrollmentCount, URL_PREFIX + id);
    assert PhaseOf(s.phaseList) == Some(phase) && t == MakeTrial(s, phase);
    IdsSnoc(trials, t);
    r := Ok(trials + [t]);
  }

  /** The `for s in studies` loop over one page; a failure leaves the loop and the page. */
  method ReadPage(studies: seq<Study>, trials: seq<Trial>, seen: set<string>)
    returns (r: Result<seq<Trial>, Failure>, seen': set<string>)
    requires seen == Ids(trials)
    ensures r == AbsorbAll(trials, studies)
    ensures r.Ok? ==> seen' == Ids(r.value)
  {
    var acc := trials;
    seen' := seen;
    var j := 0;
    while j < |studies|
      invariant 0 <= j <= |studies|
      invariant seen' == Ids(acc)
      invariant AbsorbAll(trials, studies[..j]) == Ok(acc)
    {
      assert studies[..j + 1][..j] == studies[..j];
      var step;
      step, seen' := AbsorbStudy(studies[j], acc, seen');
      if step.Err? {
        AbsorbAllFails(trials, studies, j + 1);
        r := step;
        return;
      }
      acc := step.value;
      j := j + 1;
    }
    assert studies[..j] == studies;
    r := Ok(acc);
  }

  /** A failure stays a failure as more studies are read. */
  lemma {:induction false} AbsorbAllFails(trials: seq<Trial>, studies: seq<Study>, n: nat)
    requires n <= |studies| && AbsorbAll(trials, studies[..n]).Err?
    ensures AbsorbAll(trials, studies) == AbsorbAll(trials, studies[..n])
    decreases |studies| - n
  {
    if n < |studies| {
      assert studies[..n + 1][..n] == studies[..n];
      AbsorbAllFails(trials, studies, n + 1);
    } else {
      assert studies[..n] == studies;
    }
  }

  /** The walk over `studies`, continued from an outcome. */
  function Then(r: Result<seq<Trial>, Failure>, studies: seq<Study>): Result<seq<Trial>, Failure> {
    match r
    case Err(e) => Err(e)
    case Ok(ts) => AbsorbAll(ts, studies)
  }

  /** Walking `a + b` is walking `a`, then `b` from where `a` left off. */
  lemma {:induction false} AbsorbAllAppend(trials: seq<Trial>, a: seq<Study>, b: seq<Study>)
    ensures AbsorbAll(trials, a + b) == Then(AbsorbAll(trials, a), b)
    decreases |b|
  {
    if b == [] {
      assert a + b == a;
    } else {
      var b' := b[..|b| - 1];
      AbsorbAllAppend(trials, a, b');
      assert (a + b)[..|a + b| - 1] == a + b';
      assert (a + b)[|a + b| - 1] == b[|b| - 1];
    }
  }

  /** Records are only ever appended, at most one per study. */
  lemma {:induction false} AbsorbAllGrows(trials: seq<Trial>, studies: seq<Study>)
    ensures AbsorbAll(trials, studies).Ok? ==>
              var ts := AbsorbAll(trials, studies).value;
              |trials| <= |ts| <= |trials| + |studies| && ts[..|trials|] == trials
    decreases |studies|
  {
    if studies != [] {
      AbsorbAllGrows(trials, studies[..|studies| - 1]);
    }
  }

  /** A stored record: a non-empty identifier, the fixed URL, and a status that the filter lets through. */
  predicate Stored(t: Trial) {
    t.nctId != "" && t.url == URL_PREFIX + t.nctId && t.overallStatus !in EXCLUDED_STATUSES
  }

  /** Every record is stored as the filter demands, and no two share an identifier. */
  predicate Clean(ts: seq<Trial>) {
    (forall i :: 0 <= i < |ts| ==> Stored(ts[i]))
    && forall p, q :: 0 <= p < q < |ts| ==> ts[p].nctId != ts[q].nctId
  }

  lemma AbsorbClean(trials: seq<Trial>, s: Study)
    requires Clean(trials)
    ensures Absorb(trials, s).Ok? ==> Clean(Absorb(trials, s).value)
  {
    if Admissible(s) && HasId(s) && s.nctId.value !in Ids(trials) && PhaseOf(s.phaseList).Some? {
      var t := MakeTrial(s, PhaseOf(s.phaseList).value);
      var ts := trials + [t];
      forall p, q | 0 <= p < q < |ts| ensures ts[p].nctId != ts[q].nctId {
        if q == |trials| {
          assert ts[p] in trials;
        }
      }
    }
  }

  /** The filter and the `seen` test keep the collection clean. */
  lemma {:induction false} AbsorbAllClean(trials: seq<Trial>, studies: seq<Study>)
    requires Clean(trials)
    ensures AbsorbAll(trials, studies).Ok? ==> Clean(AbsorbAll(trials, studies).value)
    decreases |studies|
  {
    if studies != [] {
      var init := studies[..|studies| - 1];
      AbsorbAllClean(trials, init);
      if AbsorbAll(trials, init).Ok? {
        AbsorbClean(AbsorbAll(trials, init).value, studies[|studies| - 1]);
      }
    }
  }

  /** `t` is the record stored for study `s`, which passed the filter. */
  predicate Keeps(s: Study, t: Trial) {
    Admissible(s) && HasId(s) && PhaseOf(s.phaseList).Some? && t == MakeTrial(s, PhaseOf(s.phaseList).value)
  }

  /** Every record added comes from a study of the walk that passed the filter. */
  lemma {:induction false} AbsorbAllOrigin(trials: seq<Trial>, studies: seq<Study>)
    ensures AbsorbAll(trials, studies).Ok? ==>
              var ts := AbsorbAll(trials, studies).value;
              |trials| <= |ts| &&
              forall i :: |trials| <= i < |ts| ==> exists j :: 0 <= j < |studies| && Keeps(studies[j], ts[i])
    decreases |studies|
  {
    AbsorbAllGrows(trials, studies);
    if studies != [] && AbsorbAll(trials, studies).Ok? {
      var n := |studies| - 1;
      var init := studies[..n];
      AbsorbAllOrigin(trials, init);
      var ts0 := AbsorbAll(trials, init).value;
      var ts := AbsorbAll(trials, studies).value;
      forall i | |trials| <= i < |ts|
        ensures exists j :: 0 <= j < |studies| && Keeps(studies[j], ts[i])
      {
        if i < |ts0| {
          var j :| 0 <= j < |init| && Keeps(init[j], ts0[i]);
          assert studies[j] == init[j] && ts[i] == ts0[i];
        } else {
          assert Keeps(studies[n], ts[i]);
        }
      }
    }
  }

  /** The first `n` studies give a prefix of what all the studies give: records keep the order of their studies. */
  lemma AbsorbAllPrefix(trials: seq<Trial>, studies: seq<Study>, n: nat)
    requires n <= |studies| && AbsorbAll(trials, studies).Ok?
    ensures AbsorbAll(trials, studies[..n]).Ok?
    ensures var pre := AbsorbAll(trials, studies[..n]).value; var ts := AbsorbAll(trials, studies).value;
            |pre| <= |ts| && ts[..|pre|] == pre
  {
    if AbsorbAll(trials, studies[..n]).Err? {
      AbsorbAllFails(trials, studies, n);
    }
    AbsorbAllAppend(trials, studies[..n], studies[n..]);
    assert studies[..n] + studies[n..] == studies;
    AbsorbAllGrows(AbsorbAll(trials, studies[..n]).value, studies[n..]);
  }

  /** Every study that passes the filter with an identifier has that identifier collected. */
  lemma AbsorbAllCollects(trials: seq<Trial>, studies: seq<Study>, j: nat)
    requires j < |studies| && AbsorbAll(trials, studies).Ok?
    requires Admissible(studies[j]) && HasId(studies[j])
    ensures studies[j].nctId.value in Ids(AbsorbAll(trials, studies).value)
  {
    AbsorbAllPrefix(trials, studies, j + 1);
    AbsorbAllPrefix(trials, studies, j);
    assert studies[..j + 1][..j] == studies[..j];
    var pre := AbsorbAll(trials, studies[..j + 1]).value;
    var ts := AbsorbAll(trials, studies).value;
    var id := studies[j].nctId.value;
    assert id in Ids(pre) by {
      var before := AbsorbAll(trials, studies[..j]).value;
      if id !in Ids(before) {
        assert pre[|pre| - 1].nctId == id;
      }
    }
    var t :| t in pre && t.nctId == id;
    var i :| 0 <= i < |pre| && pre[i] == t;
    assert ts[i] == t;
  }

  /** An identifier that no earlier admissible study carries is not yet collected at study `j`. */
  lemma UnseenBefore(trials: seq<Trial>, studies: seq<Study>, j: nat, id: string)
    requires j <= |studies| && AbsorbAll(trials, studies[..j]).Ok? && id !in Ids(trials)
    requires forall m :: 0 <= m < j && Admissible(studies[m]) ==> studies[m].nctId != Some(id)
    ensures id !in Ids(AbsorbAll(trials, studies[..j]).value)
  {
    var before := AbsorbAll(trials, studies[..j]).value;
    AbsorbAllOrigin(trials, studies[..j]);
    AbsorbAllGrows(trials, studies[..j]);
    forall i | 0 <= i < |before| ensures before[i].nctId != id {
      if i < |trials| {
        assert before[i] == trials[i];
        assert trials[i] in trials;
      } else {
        var m :| 0 <= m < j && Keeps(studies[..j][m], before[i]);
        assert studies[..j][m] == studies[m];
      }
    }
  }

  /**
   * The first study with a given identifier that passes the filter is the
   * one stored, unless the identifier was collected before the walk; studies
   * that fail the filter do not count, as they are never added to `seen`.
   */
  lemma FirstWins(trials: seq<Trial>, studies: seq<Study>, j: nat)
    requires j < |studies| && AbsorbAll(trials, studies).Ok?
    requires Admissible(studies[j]) && HasId(studies[j]) && studies[j].nctId.value !in Ids(trials)
    requires forall m :: 0 <= m < j && Admissible(studies[m]) ==> studies[m].nctId != studies[j].nctId
    ensures PhaseOf(studies[j].phaseList).Some?
    ensures MakeTrial(studies[j], PhaseOf(studies[j].phaseList).value) in AbsorbAll(trials, studies).value
  {
    AbsorbAllPrefix(trials, studies, j + 1);
    AbsorbAllPrefix(trials, studies, j);
    assert studies[..j + 1][..j] == studies[..j];
    var before := AbsorbAll(trials, studies[..j]).value;
    var id := studies[j].nctId.value;
    UnseenBefore(trials, studies, j, id);
    var pre := AbsorbAll(trials, studies[..j + 1]).value;
    assert pre == before + [MakeTrial(studies[j], PhaseOf(studies[j].phaseList).value)];
    var ts := AbsorbAll(trials, studies).value;
    assert ts[|pre| - 1] == pre[|pre| - 1];
  }

  /** A study that fails the filter does not hide a later one with the same identifier. */
  lemma FilteredDoesNotShadow(a: Study, b: Study, phase: string)
    requires !Admissible(a) && Admissible(b) && HasId(b) && a.nctId == b.nctId
    requires PhaseOf(b.phaseList) == Some(phase)
    ensures AbsorbAll([], [a, b]) == Ok([MakeTrial(b, phase)])
  {
    assert [a, b][..1] == [a];
    assert [a][..0] == [];
    var none: seq<Trial> := [];
    assert AbsorbAll(none, [a]) == Ok(none);
    assert b.nctId.value !in Ids(none);
    assert Absorb(none, b) == Ok(none + [MakeTrial(b, phase)]);
    assert AbsorbAll(none, [a, b]) == Absorb(none, b);
    assert none + [MakeTrial(b, phase)] == [MakeTrial(b, phase)];
  }

  /** A walk fails only at a new study that passes the filter and has an empty phase list. */
  lemma {:induction false} AbsorbAllErrCause(trials: seq<Trial>, studies: seq<Study>)
    requires AbsorbAll(trials, studies).Err?
    ensures exists j :: 0 <= j < |studies| && Admissible(studies[j]) && HasId(studies[j])
                        && studies[j].phaseList == PhaseList([])
    decreases |studies|
  {
    var n := |studies| - 1;
    var init := studies[..n];
    if AbsorbAll(trials, init).Err? {
      AbsorbAllErrCause(trials, init);
      var j :| 0 <= j < |init| && Admissible(init[j]) && HasId(init[j]) && init[j].phaseList == PhaseList([]);
      assert studies[j] == init[j];
    } else {
      assert Admissible(studies[n]) && HasId(studies[n]) && studies[n].phaseList == PhaseList([]);
    }
  }

  /** Without a study that passes the filter and has an empty phase list, a walk cannot fail. */
  lemma {:induction false} AbsorbAllOk(trials: seq<Trial>, studies: seq<Study>)
    requires forall j :: 0 <= j < |studies| && Admissible(studies[j]) && HasId(studies[j])
                         ==> studies[j].phaseList != PhaseList([])
    ensures AbsorbAll(trials, studies).Ok?
  {
    if AbsorbAll(trials, studies).Err? {
      AbsorbAllErrCause(trials, studies);
    }
  }

  function PageStudies(p: Response): seq<Study> {
    if p.status == 200 then p.studies else []
  }

  /** The page loop from page `k` walks the studies of the pages it reads as one sequence. */
  lemma {:induction false} FetchFromScan(pages: seq<Response>, k: nat, trials: seq<Trial>)
    requires Ends(pages) && k < |pages|
    requires AbsorbAll([], Read(pages, k)) == Ok(trials)
    ensures FetchFrom(pages, k, trials).result == AbsorbAll([], Read(pages, FetchFrom(pages, k, trials).used))
    decreases |pages| - k
  {
    var p := pages[k];
    assert Read(pages, k + 1) == Read(pages, k) + PageStudies(p);
    AbsorbAllAppend([], Read(pages, k), PageStudies(p));
    if p.status == 200 {
      match AbsorbAll(trials, p.studies)
      case Err(e) =>
      case Ok(ts) =>
        if |ts| < MAX_TRIALS && HasToken(p) {
          FetchFromScan(pages, k + 1, ts);
        }
    } else {
      assert AbsorbAll(trials, []) == Ok(trials);
    }
  }

  /**
   * `fetch_trials` gives what the filter and the dedup give on the studies of
   * all the pages it reads, one after the other: records keep the order of
   * their studies across pages, and the `seen` set spans the whole call.
   */
  lemma FetchIsScan(pages: seq<Response>)
    requires Ends(pages)
    ensures Fetch(pages).result == AbsorbAll([], Read(pages, Fetch(pages).used))
  {
    assert Read(pages, 0) == [];
    FetchFromScan(pages, 0, []);
  }

  /** Page `m` let the loop go on: status 200, a next-page token, and a total still below `MAX_TRIALS`. */
  predicate Continues(pages: seq<Response>, m: nat)
    requires m < |pages|
  {
    pages[m].status == 200 && HasToken(pages[m])
    && AbsorbAll([], Read(pages, m + 1)).Ok? && |AbsorbAll([], Read(pages, m + 1)).value| < MAX_TRIALS
  }

  lemma {:induction false} FetchFromStops(pages: seq<Response>, k: nat, trials: seq<Trial>)
    requires Ends(pages) && k < |pages|
    requires AbsorbAll([], Read(pages, k)) == Ok(trials)
    ensures var o := FetchFrom(pages, k, trials);
            && (forall m :: k <= m < o.used - 1 ==> Continues(pages, m))
            && (o.result.Ok? ==> Final(pages[o.used - 1]) || |o.result.value| >= MAX_TRIALS)
            && (o.result.Err? ==> pages[o.used - 1].status == 200)
    decreases |pages| - k
  {
    var p := pages[k];
    assert Read(pages, k + 1) == Read(pages, k) + PageStudies(p);
    AbsorbAllAppend([], Read(pages, k), PageStudies(p));
    if p.status == 200 {
      match AbsorbAll(trials, p.studies)
      case Err(e) =>
      case Ok(ts) =>
        if |ts| < MAX_TRIALS && HasToken(p) {
          FetchFromStops(pages, k + 1, ts);
          assert Continues(pages, k);
        }
    }
  }

  /**
   * The loop stops on a non-200 status, on a missing token, or once the total
   * reaches `MAX_TRIALS`; every earlier page had status 200, a token, and
   * left the total below `MAX_TRIALS`. A failure happens on a page read.
   */
  lemma FetchStops(pages: seq<Response>)
    requires Ends(pages)
    ensures var o := Fetch(pages);
            && (forall m :: 0 <= m < o.used - 1 ==> Continues(pages, m))
            && (o.result.Ok? ==> Final(pages[o.used - 1]) || |o.result.value| >= MAX_TRIALS)
            && (o.result.Err? ==> pages[o.used - 1].status == 200)
  {
    assert Read(pages, 0) == [];
    FetchFromStops(pages, 0, []);
  }

  /**
   * Pages are read whole, so the total can pass `MAX_TRIALS` only by what the
   * last page adds: the records from the earlier pages number fewer than
   * `MAX_TRIALS` and come first, and the last page adds at most one per study.
   */
  lemma FetchGrowth(pages: seq<Response>)
    requires Ends(pages)
    ensures var o := Fetch(pages);
            o.result.Ok? ==>
              var before := AbsorbAll([], Read(pages, o.used - 1));
              && before.Ok? && |before.value| < MAX_TRIALS && before.value <= o.result.value
              && |o.result.value| < MAX_TRIALS + |PageStudies(pages[o.used - 1])|
  {
    var o := Fetch(pages);
    var m := o.used - 1;
    FetchIsScan(pages);
    FetchStops(pages);
    if o.result.Ok? {
      assert Read(pages, m + 1) == Read(pages, m) + PageStudies(pages[m]);
      AbsorbAllAppend([], Read(pages, m), PageStudies(pages[m]));
      if m == 0 {
        assert Read(pages, 0) == [];
      } else {
        assert Continues(pages, m - 1);
      }
      var before := AbsorbAll([], Read(pages, m));
      assert before.Ok? && |before.value| < MAX_TRIALS;
      AbsorbAllGrows(before.value, PageStudies(pages[m]));
    }
  }

  /** Every stored record comes from a study that passed the filter, and the collection is clean. */
  lemma FetchClean(pages: seq<Response>)
    requires Ends(pages)
    ensures var o := Fetch(pages);
            o.result.Ok? ==>
              && Clean(o.result.value)
              && forall t :: t in o.result.value ==>
                   exists s :: s in Read(pages, o.used) && Keeps(s, t)
  {
    var o := Fetch(pages);
    FetchIsScan(pages);
    var studies := Read(pages, o.used);
    AbsorbAllClean([], studies);
    AbsorbAllOrigin([], studies);
    if o.result.Ok? {
      var ts := o.result.value;
      forall t | t in ts ensures exists s :: s in studies && Keeps(s, t) {
        var i :| 0 <= i < |ts| && ts[i] == t;
        var j :| 0 <= j < |studies| && Keeps(studies[j], ts[i]);
        assert studies[j] in studies;
      }
    }
  }

  /** Every response sequence of `responses` ends with a final one. */
  predicate AllEnd(responses: seq<seq<Response>>) {
    forall c :: 0 <= c < |responses| ==> Ends(responses[c])
  }

  /** `run` over the first `n` terms: their collections one after the other; the first failure ends it. */
  function RunFrom(responses: seq<seq<Response>>, n: nat): Result<seq<Trial>, Failure>
    requires n <= |responses| && AllEnd(responses)
  {
    if n == 0 then Ok([])
    else match RunFrom(responses, n - 1)
      case Err(e) => Err(e)
      case Ok(all) =>
        match Fetch(responses[n - 1]).result
        case Err(e) => Err(e)
        case Ok(ts) => Ok(all + ts)
  }

  /** `run()`: `responses[c]` are the answers to the requests for `CONDITIONS[c]`. */
  method Run(responses: seq<seq<Response>>)
    returns (result: Result<seq<Trial>, Failure>, sent: seq<seq<Request>>)
    requires |responses| == |CONDITIONS| && AllEnd(responses)
    ensures result == RunFrom(responses, |CONDITIONS|)
    ensures |sent| <= |CONDITIONS| && AnsweredFor(CONDITIONS, responses, sent)
    ensures result.Ok? ==> |sent| == |CONDITIONS|
    ensures result.Err? ==> sent != [] && Fetch(responses[|sent| - 1]).result.Err?
  {
    result, sent := RunTerms(CONDITIONS, responses);
  }

  /** The loop of `run()` over a list of terms, `responses[c]` answering the requests for `terms[c]`. */
  method RunTerms(terms: seq<string>, responses: seq<seq<Response>>)
    returns (result: Result<seq<Trial>, Failure>, sent: seq<seq<Request>>)
    requires |responses| == |terms| && AllEnd(responses)
    ensures result == RunFrom(responses, |terms|)
    ensures |sent| <= |terms| && AnsweredFor(terms, responses, sent)
    ensures result.Ok? ==> |sent| == |terms|
    ensures result.Err? ==> sent != [] && Fetch(responses[|sent| - 1]).result.Err?
  {
    var all: seq<Trial> := [];
    sent := [];
    for i := 0 to |terms|
      invariant |sent| == i && AnsweredFor(terms, responses, sent)
      invariant RunFrom(responses, i) == Ok(all)
    {
      var trials, requests := FetchTrials(terms[i], responses[i]);
      AnsweredSnoc(terms, responses, sent, requests);
      sent := sent + [requests];
      if trials.Err? {
        RunFails(responses, i + 1, |terms|);
        result := trials;
        return;
      }
      all := all + trials.value;
    }
    result := Ok(all);
  }

  /**
   * `sent[c]` lists the requests made for the term `terms[c]`: one per page
   * read, each the request `fetch_trials` builds for that term and page.
   */
  predicate AnsweredFor(terms: seq<string>, responses: seq<seq<Response>>, sent: seq<seq<Request>>)
    requires |sent| <= |responses| && |sent| <= |terms| && AllEnd(responses)
  {
    forall c :: 0 <= c < |sent| ==>
      |sent[c]| == Fetch(responses[c]).used
      && forall k :: 0 <= k < |sent[c]| ==> sent[c][k] == RequestFor(terms[c], responses[c], k)
  }

  /** The requests for one more term extend the record of what was sent. */
  lemma AnsweredSnoc(terms: seq<string>, responses: seq<seq<Response>>, sent: seq<seq<Request>>, requests: seq<Request>)
    requires |sent| < |responses| && |sent| < |terms| && AllEnd(responses)
    requires AnsweredFor(terms, responses, sent)
    requires |requests| == Fetch(responses[|sent|]).used
    requires forall k :: 0 <= k < |requests| ==> requests[k] == RequestFor(terms[|sent|], responses[|sent|], k)
    ensures AnsweredFor(terms, responses, sent + [requests])
  {
    var s := sent + [requests];
    assert forall c :: 0 <= c < |sent| ==> s[c] == sent[c];
  }

  lemma {:induction false} RunFails(responses: seq<seq<Response>>, m: nat, n: nat)
    requires m <= n <= |responses| && AllEnd(responses) && RunFrom(responses, m).Err?
    ensures RunFrom(responses, n) == RunFrom(responses, m)
    decreases n
  {
    if n > m {
      RunFails(responses, m, n - 1);
    }
  }

  /** The run succeeds exactly when every term's collection does. */
  lemma {:induction false} RunOkIff(responses: seq<seq<Response>>, n: nat)
    requires n <= |responses| && AllEnd(responses)
    ensures RunFrom(responses, n).Ok? <==> forall c :: 0 <= c < n ==> Fetch(responses[c]).result.Ok?
    decreases n
  {
    if n > 0 {
      RunOkIff(responses, n - 1);
    }
  }

  /** The run's records are exactly the records of the terms' collections, term by term in order. */
  lemma {:induction false} RunMembers(responses: seq<seq<Response>>, n: nat)
    requires n <= |responses| && AllEnd(responses) && RunFrom(responses, n).Ok?
    ensures forall t :: t in RunFrom(responses, n).value <==>
              exists c :: 0 <= c < n && Fetch(responses[c]).result.Ok? && t in Fetch(responses[c]).result.value
    decreases n
  {
    if n > 0 {
      RunMembers(responses, n - 1);
    }
  }

  /** The run over fewer terms is a prefix of the run over more. */
  lemma {:induction false} RunPrefix(responses: seq<seq<Response>>, m: nat, n: nat)
    requires m <= n <= |responses| && AllEnd(responses) && RunFrom(responses, n).Ok?
    ensures RunFrom(responses, m).Ok?
    ensures var pre := RunFrom(responses, m).value; var all := RunFrom(responses, n).value;
            |pre| <= |all| && all[..|pre|] == pre
    decreases n
  {
    if m < n {
      RunPrefix(responses, m, n - 1);
    }
  }

  /** No dedup across terms: a record collected for two terms appears twice. */
  lemma RunRepeats(responses: seq<seq<Response>>, n: nat, c1: nat, c2: nat, t: Trial)
    requires n <= |responses| && AllEnd(responses) && RunFrom(responses, n).Ok?
    requires c1 < c2 < n
    requires Fetch(responses[c1]).result.Ok? && t in Fetch(responses[c1]).result.value
    requires Fetch(responses[c2]).result.Ok? && t in Fetch(responses[c2]).result.value
    ensures multiset(RunFrom(responses, n).value)[t] >= 2
  {
    RunPrefix(responses, c2 + 1, n);
    RunPrefix(responses, c1 + 1, c2);
    RunMembers(responses, c2);
    var upTo := RunFrom(responses, c2).value;
    var pre := RunFrom(responses, c2 + 1).value;
    var all := RunFrom(responses, n).value;
    var ts := Fetch(responses[c2]).result.value;
    assert pre == upTo + ts;
    assert t in upTo;
    assert multiset(pre) == multiset(upTo) + multiset(ts);
    assert multiset(pre)[t] >= 2;
    var tail := all[|pre|..];
    assert all == pre + tail;
    assert multiset(all) == multiset(pre) + multiset(tail);
  }
}
