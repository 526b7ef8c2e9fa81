# Clinical trial matcher: a Dafny model

This project models two parts of a clinical-trial matching service:

- **The matching engine** (`match_trials` after retrieval, in `app/matcher.py`).
  - It walks the retrieved candidates in order and skips any trial whose identifier it has already seen. The identifier is marked seen *before* any filtering.
  - It drops a trial when a user condition fuzzy-matches the trial's exclusion section.
  - It drops a trial when no user condition matches its inclusion section.
  - It attaches two scores: the number of matching conditions, and a semantic score.
  - It sorts stably, highest `(condition_score, semantic_score)` first, and keeps the first `top_k`.
- **Its helpers**, all in `app/matcher.py`:
  - `split_criteria`: two independent regular-expression searches over the lowercased criteria text, each result stripped.
  - `fuzzy_match`: some whitespace token of the text has a `difflib` ratio above 0.8 with the phrase.
  - `compute_condition_score`.
  - `age_to_num`.
- **The ingestion loop** (`fetch_trials` and `run`, `app/trial_ingest.py`).
  - It requests pages of studies for a term.
  - It keeps interventional studies whose upper-cased status is not excluded and whose identifier is non-empty and new. The first occurrence of an identifier wins.
  - It stops on a non-200 status, on a missing next-page token, or once 500 or more records are collected after a page.
  - `run` concatenates the collections of 30 fixed terms and does no dedup across terms.

The code is written in the form of the source:
- Pure Python functions become Dafny functions, with lemmas about them.
- The `for` loop of `match_trials`, the `while True` page loop of `fetch_trials`, its inner loop over studies, and the loop of `run` become methods with loops.
- Each of those methods is proved equal to a reference function (`Matcher.Ranked`, `Ingest.Fetch`, `Ingest.RunFrom`). The properties are proved about those functions.

Files:
- `base.dfy`: Option and Result.
- `text.dfy`: Python `str` operations (`isspace`, ASCII `lower`/`upper`, `strip`, `split()`, literal search).
- `difflib.dfy`: Ratcliff/Obershelp matching with a ratio computed exactly.
- `criteria.dfy`: `split_criteria`.
- `fuzzy.dfy`: `fuzzy_match` and the condition score.
- `age.dfy`: `age_to_num` with Python `int()` parsing.
- `records.dfy`: the trial record.
- `ranking.dfy`: the stable descending sort and `[:top_k]`.
- `matcher.dfy`: `match_trials`.
- `ingest.dfy`: `fetch_trials` and `run`.

Two behaviours of the code that are easy to miss:
- **No inclusion header.** `split_criteria` yields `""` for the inclusion section whenever `inclusion criteria` is absent from the lowercased text, also when there is no exclusion header (app/matcher.py:23,25).
- **Empty phase list.** In `fetch_trials`, a study that passes the filter with a new identifier and an empty `phaseList` raises `IndexError` at `phase[0]` (app/trial_ingest.py:65). The model returns `Err(EmptyPhaseList)` for it, and `run` fails with it.

## Model

| member | source | states |
|---|---|---|
| Text.Lower | app/matcher.py:22 | one character per input character, an ASCII capital replaced by its small letter; Text.LowerSpec states what that gives |
| Text.LowerSpec | app/matcher.py:22 | a lowercased text has no capital, lowercasing twice is lowercasing once, and a text without capitals is unchanged |
| Text.Upper | app/trial_ingest.py:40 | one character per input character, an ASCII small letter replaced by its capital; Text.UpperSpec states what that gives |
| Text.UpperSpec | app/trial_ingest.py:40 | an upper-cased text has no small letter and equals the input up to case; upper-casing is idempotent and keeps a text without small letters |
| Text.Split | app/matcher.py:28 | the `split()` tokens; their contract is carried by Text.SplitOfSpace, Text.WordIsToken, Text.TokenIsWord and Text.FirstToken |
| Text.Strip | app/matcher.py:25 | the result has no whitespace at either end and is the input with only whitespace removed on both sides |
| Text.SplitOfSpace | app/matcher.py:28 | a text that is empty or only whitespace has no `split()` tokens |
| Text.WordIsToken | app/matcher.py:28 | every whole word of a text is one of its `split()` tokens |
| Text.TokenIsWord | app/matcher.py:28 | every `split()` token is a whole word of the text |
| Text.FirstToken | app/matcher.py:18 | after any leading whitespace, the first token of a word followed by whitespace or nothing is that word |
| Text.StripKeeps | app/matcher.py:25 | stripping keeps an occurrence of a pattern that begins and ends with non-whitespace |
| Difflib.LongestMatch | app/matcher.py:28 | the block found is a common substring inside the box; no block in the box is longer; none that starts earlier is as long; an empty result sits at the box's lower corner |
| Difflib.MatchedIn | app/matcher.py:28 | the matched total inside a box is at most each side's length |
| Difflib.MatchCount | app/matcher.py:28 | the number of matched characters is at most each string's length |
| Difflib.Ratio | app/matcher.py:28 | the ratio lies between 0 and 1 |
| Difflib.MatchCountSelf | app/matcher.py:28 | a string matches itself in every character |
| Difflib.RatioSelf | app/matcher.py:28 | the ratio of a string with itself is 1 |
| Criteria.BodyStart | app/matcher.py:23-24 | a section body starts right after its header or one position later, and one position later exactly when a ':' follows the header |
| Criteria.FindStop | app/matcher.py:23 | the lazy group ends at the first `exclusion criteria`, at the end of the text, or before a final newline, whichever comes first |
| Criteria.InclusionSegment | app/matcher.py:22-25 | the inclusion section is no longer than the text; its full contract is Criteria.InclusionSegmentSpec and Criteria.InclusionSegmentShape |
| Criteria.InclusionSegmentSpec | app/matcher.py:22-25 | with no `inclusion criteria` in the lowercased text the inclusion section is ""; otherwise it is the stripped text from after the first header and its optional ':' up to the first stop |
| Criteria.InclusionSegmentShape | app/matcher.py:22-25 | the inclusion section is lowercase, has no surrounding whitespace and never contains `exclusion criteria` |
| Criteria.StopFreeBody | app/matcher.py:23 | a body cut at its first stop holds no `exclusion criteria` after stripping |
| Criteria.ExclusionSegment | app/matcher.py:22-25 | its full contract is Criteria.ExclusionSegmentSpec and Criteria.ExclusionSegmentShape |
| Criteria.ExclusionSegmentSpec | app/matcher.py:22-25 | with no `exclusion criteria` the exclusion section is ""; otherwise it is the stripped rest of the text after the first header and its optional ':' |
| Criteria.ExclusionSegmentShape | app/matcher.py:22-25 | the exclusion section is lowercase and has no surrounding whitespace |
| Criteria.SplitCriteria | app/matcher.py:21-25 | `split_criteria`: the pair of the two sections, each from its own search; what they are is stated by Criteria.InclusionSegmentSpec, Criteria.InclusionSegmentShape, Criteria.ExclusionSegmentSpec and Criteria.ExclusionSegmentShape |
| Criteria.HeadersDisjoint | app/matcher.py:23-24 | an exclusion header before an inclusion header ends before it starts |
| Criteria.ExclusionHeaderFirst | app/matcher.py:23-24 | the searches are independent: an exclusion header before the inclusion header puts `inclusion criteria` inside the exclusion section |
| Fuzzy.FuzzyMatch | app/matcher.py:27-28 | `fuzzy_match`; its contract is Fuzzy.FuzzyMatchSpec |
| Fuzzy.AnyTokenAboveSpec | app/matcher.py:28 | the `any` over the tokens is true exactly when some token's ratio is above the threshold |
| Fuzzy.FuzzyMatchSpec | app/matcher.py:27-28 | a phrase matches a text exactly when some `split()` token of the text has a ratio with it strictly above the threshold |
| Fuzzy.NoTokensNoMatch | app/matcher.py:27-28 | an empty or whitespace-only text matches nothing |
| Fuzzy.ExactTokenMatches | app/matcher.py:27-28 | a phrase that is a token of the text matches it at any threshold below 1 |
| Fuzzy.WholeWordMatches | app/matcher.py:27-28 | a whole word of the text matches the text |
| Fuzzy.ThresholdMonotone | app/matcher.py:27-28 | a match at a higher threshold is a match at any lower one |
| Fuzzy.NoMatchAtOne | app/matcher.py:27-28 | at a threshold of 1 or more nothing matches |
| Fuzzy.CountTrueCard | app/matcher.py:31 | the `sum(1 for ...)` count is the number of true flags |
| Fuzzy.CountTrueZero | app/matcher.py:31 | the count is zero exactly when no flag is set |
| Fuzzy.ConditionScore | app/matcher.py:30-31 | the score is at most the number of conditions |
| Fuzzy.ConditionScoreCounts | app/matcher.py:30-31 | the score is the number of conditions that fuzzy-match the inclusion text |
| Fuzzy.ScoreZeroIffNoMatch | app/matcher.py:30-31 | the score is 0 exactly when no condition matches |
| Fuzzy.AnyConditionMatches | app/matcher.py:53 | the `any` over the conditions; its contract is Fuzzy.AnyConditionMatchesSpec |
| Fuzzy.AnyConditionMatchesSpec | app/matcher.py:53 | the `any` over the conditions is true exactly when some condition matches |
| Fuzzy.ScorePositiveIffSomeMatch | app/matcher.py:56-57 | the score is positive exactly when some condition matches |
| Age.ParseDigits | app/matcher.py:18 | a parsed numeral starts and ends with a digit and holds only digits and underscores; Age.ParseDigitsSpec gives the exact grammar and value |
| Age.ParseInt | app/matcher.py:18 | a token `int()` accepts is non-empty, starts with a digit or a sign, and continues with digits and underscores; Age.ParseIntSpec gives the exact grammar and value |
| Age.ParseDigitsSpec | app/matcher.py:18 | the numeral reader accepts exactly `digit ("_"? digit)*`, and its value is the decimal value of the digits once the underscores are removed |
| Age.ParseIntSpec | app/matcher.py:18 | `int()` accepts exactly such a numeral, optionally after one `+` or `-`, and gives its value, negated after `-` |
| Age.UnderscoreExample | app/matcher.py:18 | `int("1_000")` is 1000 |
| Age.LeadingZeroExample | app/matcher.py:18 | `int("007")` is 7 and `int("-0_5")` is -5 |
| Age.BadUnderscoreExample | app/matcher.py:18 | `int("1__0")`, `int("1_")` and `int("_1")` raise |
| Age.AgeToNum | app/matcher.py:16-19 | None for a missing value, "", "N/A" or whitespace-only text; a value only when it is the `int()` value of the first token |
| Age.AgeFirstToken | app/matcher.py:16-19 | for any text made of whitespace, a token `w` and then nothing or whitespace, the result is exactly `int(w)`: its value when `int()` accepts `w`, None when it raises |
| Age.ParseUnsigned | app/matcher.py:18 | `int()` of the decimal notation of a number is that number |
| Age.ParseSigned | app/matcher.py:18 | `int()` of a numeral with a leading `-` or `+` is the negated or the plain value |
| Age.ParseShowNat | app/matcher.py:18 | reading back the decimal notation of a number gives the number |
| Age.DigitsParse | app/matcher.py:18 | every non-empty run of digits parses, leading zeros included |
| Age.AgeWithUnit | app/matcher.py:16-19 | text such as "18 Years" or " 18 Years", a number after optional whitespace and before nothing or whitespace, gives that number |
| Age.SignedAgeWithUnit | app/matcher.py:16-19 | text such as "-5 Years" gives -5 and "+5 Years" gives 5, also after leading whitespace |
| Age.NonNumericFirstToken | app/matcher.py:18-19 | a first token with any character besides digits, underscores and a leading sign gives None |
| Ranking.Insert | app/matcher.py:64 | insertion adds exactly the one entry |
| Ranking.InsertSorted | app/matcher.py:64 | insertion keeps a sequence ordered highest key first |
| Ranking.StableSort | app/matcher.py:64 | the result is a permutation of the input, ordered highest `(condition_score, semantic_score)` first |
| Ranking.WithKeyAppend | app/matcher.py:64 | the entries with one key, taken from a concatenation, are those of each part in turn |
| Ranking.InsertStable | app/matcher.py:64 | inserting a later entry puts it after every earlier entry with its key |
| Ranking.StableSortStable | app/matcher.py:64 | for every key, the sorted entries with that key are the input's entries with that key, in input order |
| Ranking.InsertUnique | app/matcher.py:64 | insertion of a new identifier keeps identifiers distinct |
| Ranking.StableSortUnique | app/matcher.py:64 | sorting keeps identifiers distinct |
| Ranking.Take | app/matcher.py:65 | `s[:k]` is the prefix of length `min(k, len(s))`, or of length `max(0, len(s) + k)` for a negative `k` |
| Ranking.PrefixWithKey | app/matcher.py:65 | a prefix keeps, for every key, a prefix of the entries with that key |
| Matcher.VerdictsConsistent | app/matcher.py:46-49 | each verdict's entry holds the trial its identifier names |
| Matcher.LowerAll | app/matcher.py:41 | one entry per user condition: that condition lowercased, of the same length and with no capital letter left |
| Matcher.KeptOrigin | app/matcher.py:45-62 | every kept entry comes from a candidate that was the first with its identifier and passed both tests |
| Matcher.IdsBeforeStep | app/matcher.py:47-49 | the `seen` set grows by the candidate's identifier; the identifier was in it exactly when an earlier candidate had it |
| Matcher.KeptStep | app/matcher.py:45-62 | one iteration appends the scored entry exactly when the identifier is unseen and the trial passes, and adds the identifier to `seen` either way |
| Matcher.KeptComplete | app/matcher.py:45-62 | a candidate that is first with its identifier and passes is kept |
| Matcher.KeptUnique | app/matcher.py:45-49 | no two kept entries share an identifier |
| Matcher.FirstFailureIsFinal | app/matcher.py:47-58 | when the first candidate with an identifier fails, no entry with that identifier is kept |
| Matcher.KeptOfPrefix | app/matcher.py:45 | what is kept from the first `n` candidates depends only on them |
| Matcher.KeptPrefix | app/matcher.py:45-62 | what is kept from fewer candidates is a prefix of what is kept from more |
| Matcher.Survivors | app/matcher.py:45-62 | the scored list the loop builds; its contract is Matcher.SurvivorsUnique, Matcher.SurvivorsPass, Matcher.SurvivorComplete, Matcher.FirstFailureExcludes and Matcher.SurvivorsInOrder |
| Matcher.SurvivorsUnique | app/matcher.py:45-49 | no two survivors share an `nct_id` |
| Matcher.SurvivorsPass | app/matcher.py:51-58 | each survivor's score is between 1 and the number of conditions and is its condition score; no condition matches its exclusion section |
| Matcher.SurvivorComplete | app/matcher.py:45-62 | the first candidate of a trial that passes is among the survivors with its scores |
| Matcher.FirstFailureExcludes | app/matcher.py:47-58 | a trial whose first candidate fails is not a survivor, even when it is retrieved again later |
| Matcher.SurvivorsInOrder | app/matcher.py:45-62 | survivors keep the retrieval order |
| Matcher.Consider | app/matcher.py:46-62 | one loop iteration: the identifier is added to `seen`; the scored trial is appended exactly when it was unseen and passes |
| Matcher.ScanStep | app/matcher.py:46-62 | the survivors and the `seen` set after one more candidate, in terms of that candidate's trial |
| Matcher.ScanCandidates | app/matcher.py:41-62 | the loop yields exactly the survivors |
| Matcher.MatchTrials | app/matcher.py:41-65 | the result is the stably sorted survivors cut to `top_k` |
| Matcher.Ranked | app/matcher.py:41-65 | the matcher's result; its contract is Matcher.RankedLength, Matcher.RankedSorted, Matcher.RankedFromSurvivors, Matcher.RankedUnique, Matcher.RankedPass and Matcher.RankedStable |
| Matcher.RankedLength | app/matcher.py:65 | the result has `min(top_k, number of survivors)` entries for `top_k >= 0` |
| Matcher.RankedSorted | app/matcher.py:64-65 | no result entry outranks an earlier one |
| Matcher.RankedFromSurvivors | app/matcher.py:64-65 | every result entry is a survivor |
| Matcher.RankedUnique | app/matcher.py:45-65 | no two result entries share an `nct_id` |
| Matcher.RankedPass | app/matcher.py:53-65 | every result entry has a score of at least 1 and at most the number of conditions; no lowercased user condition matches its exclusion section |
| Matcher.RankedStable | app/matcher.py:64-65 | for every key, the result's entries with that key are the first of the survivors with that key, in retrieval order |
| Ingest.StatusOf | app/trial_ingest.py:40 | the stored status has no small letter and equals `overallStatus` (default "") up to case, with the same length |
| Ingest.PhaseOf | app/trial_ingest.py:65 | "N/A" when `phaseList` is absent, its first element when it is a non-empty list, a failure exactly when it is an empty list, and the value itself when it is not a list |
| Ingest.MakeTrial | app/trial_ingest.py:49-69 | the record has the study's identifier, the URL made of the fixed prefix and that identifier, the upper-cased status and the phase |
| Ingest.IdsSnoc | app/trial_ingest.py:54-56 | appending a record adds its identifier to `seen` |
| Ingest.Absorb | app/trial_ingest.py:38-69 | one study of the inner loop; its contract is Ingest.AbsorbClean and Ingest.AbsorbStudy |
| Ingest.AbsorbAll | app/trial_ingest.py:37-69 | the inner loop over a run of studies; its contract is Ingest.AbsorbAllFails, Ingest.AbsorbAllAppend, Ingest.AbsorbAllGrows, Ingest.AbsorbAllClean, Ingest.AbsorbAllOrigin, Ingest.AbsorbAllPrefix, Ingest.AbsorbAllCollects, Ingest.FirstWins, Ingest.FilteredDoesNotShadow, Ingest.AbsorbAllErrCause and Ingest.AbsorbAllOk |
| Ingest.RequestFor | app/trial_ingest.py:20-81 | page `k` is requested with the term and the page size 100, and with a token exactly after the first page |
| Ingest.FetchFrom | app/trial_ingest.py:25-85 | the page loop from page `k` reads at least that page and no page beyond the responses; Ingest.FetchFromScan and Ingest.FetchFromStops carry the rest |
| Ingest.Fetch | app/trial_ingest.py:18-85 | `fetch_trials` reads at least one page and no page beyond the responses; Ingest.FetchIsScan, Ingest.FetchStops, Ingest.FetchGrowth and Ingest.FetchClean carry the rest |
| Ingest.AbsorbStudy | app/trial_ingest.py:37-69 | one study is handled as the reference step says, and `seen` stays the set of collected identifiers |
| Ingest.ReadPage | app/trial_ingest.py:37-69 | the loop over one page's studies gives the reference walk, a failure ending it |
| Ingest.FetchTrials | app/trial_ingest.py:18-85 | the page loop gives the reference outcome; page `k` is requested with the term, the page size 100 and, after the first page, the previous page's token |
| Ingest.AbsorbAllFails | app/trial_ingest.py:65 | a failure stays a failure as more studies are read |
| Ingest.AbsorbAllAppend | app/trial_ingest.py:37 | walking two runs of studies is walking the first and then the second from where it left off |
| Ingest.AbsorbAllGrows | app/trial_ingest.py:56-69 | records are only appended, at most one per study, and the earlier ones stay in place |
| Ingest.AbsorbClean | app/trial_ingest.py:41-69 | one study keeps the collection clean |
| Ingest.AbsorbAllClean | app/trial_ingest.py:41-69 | every record has a non-empty identifier, the fixed URL and a status outside `EXCLUDED_STATUSES`, and no two share an identifier |
| Ingest.AbsorbAllOrigin | app/trial_ingest.py:40-69 | every record added comes from an interventional study whose upper-cased status is not excluded, with its identifier and its phase |
| Ingest.AbsorbAllPrefix | app/trial_ingest.py:37-69 | the records from earlier studies come before those from later ones |
| Ingest.AbsorbAllCollects | app/trial_ingest.py:41-54 | every study that passes the filter with a non-empty identifier has that identifier collected |
| Ingest.FirstWins | app/trial_ingest.py:41-56 | the first study with a given identifier that passes the filter is the one stored; studies that fail the filter do not count |
| Ingest.FilteredDoesNotShadow | app/trial_ingest.py:41-54 | a filtered-out study does not hide a later valid one with the same identifier |
| Ingest.AbsorbAllErrCause | app/trial_ingest.py:65 | a walk fails only at a study that passes the filter, has an identifier and has an empty phase list |
| Ingest.AbsorbAllOk | app/trial_ingest.py:65 | without such a study the walk does not fail |
| Ingest.FetchFromScan | app/trial_ingest.py:25-85 | the loop from page `k` walks the studies of the pages it reads as one sequence |
| Ingest.FetchIsScan | app/trial_ingest.py:18-85 | `fetch_trials` gives what the filter and the dedup give on the studies of all the pages it reads, so record order and the `seen` set span the pages |
| Ingest.FetchFromStops | app/trial_ingest.py:25-85 | the stop conditions from page `k` on |
| Ingest.FetchStops | app/trial_ingest.py:28-79 | every page before the last had status 200 and a token and left the total below 500; the last page was non-200, had no token, or brought the total to 500 or more; a failure happens on a page that was read |
| Ingest.FetchGrowth | app/trial_ingest.py:37-75 | the records from the pages before the last number fewer than 500 and come first; the last page adds at most one record per study |
| Ingest.FetchClean | app/trial_ingest.py:40-69 | every record of a call is clean, identifiers are distinct, and each record comes from a study read that passed the filter |
| Ingest.Run | app/trial_ingest.py:87-94 | `run` gives the reference concatenation over `CONDITIONS`; the requests for the c-th term are the ones `fetch_trials` builds for `CONDITIONS[c]`, one per page read; all 30 terms are fetched on success, and on a failure the last term fetched is the one that failed |
| Ingest.RunTerms | app/trial_ingest.py:89-94 | the `for` loop over a list of terms gives the reference concatenation and records, per term, the requests `fetch_trials` sent for it |
| Ingest.RunFrom | app/trial_ingest.py:87-94 | `run` over the first `n` terms; its contract is Ingest.RunFails, Ingest.RunOkIff, Ingest.RunMembers, Ingest.RunPrefix and Ingest.RunRepeats |
| Ingest.RunFails | app/trial_ingest.py:92 | a failure for one term is the failure of the whole run |
| Ingest.RunOkIff | app/trial_ingest.py:90-94 | the run succeeds exactly when every term's collection does |
| Ingest.RunMembers | app/trial_ingest.py:90-94 | the run's records are exactly the records of the terms' collections |
| Ingest.RunPrefix | app/trial_ingest.py:90-94 | the terms are concatenated in `CONDITIONS` order |
| Ingest.RunRepeats | app/trial_ingest.py:90-94 | there is no dedup across terms: a record collected for two terms appears twice |

## Left out

- Retrieval (`load_index`, the sentence encoder, the FAISS search, app/matcher.py:11-14 34-39) is foreign library and file code. The retrieved neighbours come in as a sequence of `(index, semantic_score)` candidates.
- Matcher.ValidCandidates: FAISS pads with index -1 when fewer trials exist than requested, and Python's `trials[-1]` then picks the last trial. The model instead requires every index to name a trial.
- Matcher.Candidate: the float `round(1 / (1 + dist), 4)` (app/matcher.py:61) is not computed. The semantic score is an integer supplied per candidate, in ten-thousandths, so its order is what counts.
- Matcher.Consider: the scores are not written into the shared trial dictionaries (app/matcher.py:60-61). Each survivor is a new record that pairs the trial with its two scores.
- Difflib.Ratio: `difflib` itself is not part of this model. Its matching is written out from the Ratcliff/Obershelp definition with exact rational arithmetic.
  - Its "autojunk" heuristic, which applies only when the second string has 200 or more characters, is not modelled. Nor is the float rounding of the ratio.
- Text.Lower, Text.Upper: only ASCII letters change case. Python's Unicode case mapping (for example `"ß".upper() == "SS"`) is not modelled.
- Age.IsDigit: only ASCII digits count. `int()` also accepts other Unicode decimal digits.
- Age.ParseInt: the limit on converting long decimal strings is not modelled. Recent CPython (3.11 on, and the 3.7-3.10 security releases) raises `ValueError` for more than 4300 digits unless configured otherwise, so `age_to_num` returns None there while the model gives the value. Age.ParseDigits, Age.ParseDigitsSpec, Age.ParseIntSpec, Age.DigitsParse, Age.ParseShowNat, Age.AgeToNum, Age.AgeFirstToken, Age.AgeWithUnit and Age.SignedAgeWithUnit hold without that limit.
- Criteria.InclusionSegment: the regular expressions are modelled for the literal headers they search for. The regular-expression engine in general is not modelled.
- Ingest.FetchTrials: `requests.get`, `time.sleep` and `print` are left out.
  - The registry's answers come in as the sequence of responses to the successive page requests. The method returns the requests it sent, so that sequence can be checked against them.
  - The responses must end with one after which no page is requested (a non-200 status or no token). A registry that hands out next-page tokens forever, on which the source loops forever, is not modelled.
  - A body that is not valid JSON, and JSON `null` where a field is expected, are not modelled. A missing module or field is modelled as None and takes the source's default.
  - The page counter and the per-page counts exist only for the log lines, so they are not modelled.
- Ingest.Run: `os.makedirs` and the final `json.dump` to `data/raw_trials.json` are file I/O, left out. The run's result is the list that would be written.
- `CONDITIONS` is only iterated over: `run` is specified for any 30 response sequences, one per term. Ingest.Run returns the requests it sent for each term, so the c-th sequence can be checked against the requests for `CONDITIONS[c]`.
- app/main.py (the user interface), app/llm_explainer.py (an HTTP call to a language model) and app/vectorize.py (embedding and index building) are not part of this model.
