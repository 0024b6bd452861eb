# OpsMesh verification model

OpsMesh is an operations platform: a control plane with a CMDB, approvals and alerting, and agents
that collect logs and metrics. This project models the parts of it that keep real state and proves
what they promise, for every input and every run. Each module follows one source file or one concern:

| files | system part |
|---|---|
| Text, Fulltext | tokenizer and inverted index (internal/fulltext) |
| Basics | options, lists without repetition, first positions |
| Sorting | the meaning of "sorted by a strict total order", used wherever the source sorts |
| CmdbSearch, CmdbStore, CmdbRank | the one scorer of CMDB search, the in-memory store whose index recalls candidates, and what the ranking means |
| CircuitBreaker | the breaker, with any number of calls in flight |
| ApprovalModel, ApprovalEngine | flows, requests, decisions, history; the engine's operations |
| ApprovalSafety, ApprovalProgress, ApprovalReach | what every run of the engine keeps; which flows can be approved |
| ApprovalHistory, ApprovalAnswers | whether the history tells the truth; how requests end; refusals; from when on a step's time runs |
| ApprovalTurns, ApprovalLife, ApprovalFlows | whose turn it is over every order of decisions; what updating or deleting a flow means for a request; one enabled flow per trigger |
| Anomaly, Evaluator | EWMA and sliding-window detectors; sample rings and the "holds for a duration" timer |
| LogCollect, LogTick, LogRepeat, RateLimit, LogPush | incremental log reading, the line loop with merging and limits, lines read twice, the rate limiter, the shared push buffer |
| CsvAttrs, ShellSegments, SubcmdArgs, ConnCache | attribute printer and parser, command splitter, argument filters, connection cooldown |

Operations that change state in the source are methods here: a class has the source's fields, and each
method is proved equal to a pure step on the object's value (`Step`, `BeforeCall`, `TimerStep`, …). What
the source promises is then proved about those steps and about runs: sequences of events with the
states between them. Clocks are parameters, a network call is a success or a failure, and quantities the
source keeps as floating point are `real`.

## Main results

- **CMDB search.** The search through the index returns the brute-force answer (filter everything, keep
  what the scorer scores above zero, sort by score then id, cut) in every reachable store state and mode,
  in whatever order maps are walked. The sort order is total on hits, so the answer is unique. Every query token
  counts with the field that contributes most; a one-word query lists a name before other mentions.
- **Circuit breaker.** With calls of earlier periods finishing late, half-open never wedges, the circuit opens
  iff a failure makes the live streak as long as the threshold, and an open circuit admits the next call iff the
  recovery timeout has passed.
- **Approval.** An approved request has decisions that satisfy the mode of every step of its flow; the
  steps of a pending request split into approved, undecided and untouched ones; terminal requests never
  change; the history tells who decided what and when. A flow can be approved, and cannot get stuck, under conditions
  that are exact.
- **Detectors.** The recursive EWMA update is the weighted mean and the weighted variance of all samples.
  Both flag exactly the values further than threshold deviations from the mean, on either side; neither can flag
  more than 1/threshold² of what it has learned, and each is silent iff the samples it judges by are all equal.
- **Log pipeline.** Any number of polls over a growing file emit exactly the kept lines, once and in
  order; no log entry is lost or doubled between appends, flushes and requeues.

Places where the code does not do what its comments promise, each with the exact condition under which
the promise holds:

- Phrase search drops repeated query words before comparing (internal/cmdb/search.go:71), so it is exact
  iff the query repeats no word (`PhraseSearchExactness`); a machine named `10.0.0.1` is not found by a phrase query for its own
  name (`PhraseSearchMissesOwnName`).
- The scorer's comment says that the heaviest field counts (internal/cmdb/search.go:146-153). The greatest
  contribution does, and that is the heaviest field's iff no lighter one makes up for its weight by repetition
  (`HeaviestFieldCountsIff`, `TenAttributesBeatTheName`).
- The breaker is said to close when all probes succeed (internal/circuitbreaker/circuitbreaker.go:8).
  Successes of calls admitted earlier count too. From a half-open state, every way to a closing waits for
  all probes iff only probes of this period are in flight and as many calls were let in as have succeeded
  or are in flight (`ClosesOnProbesIff`, `StaleSuccessClosesCircuit`).
- Flow validation lets gaps in the step orders through. A request can be approved iff the orders are 1..n and nobody who has to
  decide a step is listed twice (`ApprovableIff`); nobody can be stranded iff moreover no empty name stands
  before the end of a sequential list (`NeverStuckIff`).
- Comments at internal/approval/engine.go:112 and 133 say running requests keep a snapshot of their flow; they
  read the live flow. Over everything that can still happen to a request, an update goes unnoticed iff the
  old and the new flow agree step by step from the current one on, as far as the steps can be reached: whose
  turn it is in every order (equal courses, computed from mode and approvers), deadlines within the
  request's own, ids where they show, and which step is last (`UpdateNeverNoticedIff`). A deletion goes
  unnoticed iff nobody may decide any more and the step will not be late (`DeleteNeverNoticedIff`).
- The pending list does not look at expiry: a listed request is decidable iff it has not expired
  (`ListedIffAccepted`).
- A rejection is meant to reject. After an update to any-of it passes the step when an earlier approval stands
  there, and is entered as an advance: the history of a request is truthful at every moment of a run iff no
  rejection was recorded like that (`RejectionRejectsIff`, `AlwaysTruthfulIff`, `UpdateTurnsRejectionIntoAdvance`).
- "One enabled flow per tenant and trigger" (internal/approval/flow.go:51) is nowhere enforced. An operation
  keeps it iff it does not store an enabled flow, by creation or update, while another one is enabled for the
  same tenant and trigger; a whole run keeps it iff no call does so (`StepKeepsOneEnabledIff`,
  `AlwaysOneEnabledIff`).
- "Add always runs" (internal/alertengine/anomaly.go:387) fails after an alarm: detectors of later rules do
  not learn the value, so all learn iff no detector but the last flags it (`AllDetectorsLearnIff`).
- Lines that end in '\r' are counted one character short, and internal/agent/log_collect.go:353-355 says that what
  is read again yields no duplicate records. After a tick stopped by the record cap that is so iff the carriage
  returns cut off the handled lines are at most those that end the last of them and one more, or reach into
  its text, not to its beginning, and the filter drops the end that is read again (`RepeatsNothingIff`,
  `CarriageReturnsRepeatLines`).
- Lines that do not match the multiline rule are said to join the record before (internal/agent/log_collect.go:39);
  every tick starts with an empty buffer, so across ticks this holds iff the break is clean
  (`CutMergesIff`, `CapCutsIff`).
- The rate limiter's one-second window does not slide: a second may carry one line less than twice the
  limit, and the limit itself holds in every second iff it is one (`AtMostTwice`, `AlmostTwice`, `SlidingPromiseIff`).
- A failed flush is put back in order iff it is the newest one in flight (`FailKeepsOrderIff`).
- The two argument filters split every command line iff the subcommand's name is not itself a recognized
  flag (`FiltersAreComplementaryIff`); attributes survive print and parse iff keys and values are clean
  (`RoundTripIff`).

## Model

| member | source | states |
|---|---|---|
| Text.Tokenize | internal/fulltext/fulltext.go:34-59 | the loop over characters returns the tokens of the text as specified by `TokensOf` |
| Text.TokensAreTokens | internal/fulltext/fulltext.go:26-32 | every token is one lower-case ideograph or a non-empty lower-case word with no separator |
| Text.TokensKeepLetters | internal/fulltext/fulltext.go:26-33 | the tokens glued together are exactly the text's non-separators in lower case, in order |
| Text.TokensRoundTrip | internal/fulltext/fulltext.go:34-59 | tokens joined by spaces tokenize to themselves |
| Text.TokenIsLower | internal/fulltext/fulltext.go:286 | lower-casing a prefix that is a token changes nothing, so the prefix search sees the query's own token |
| Text.IdeographStandsAlone | internal/fulltext/fulltext.go:26-59 | an ideograph, by its code range, is a token of its own and cuts the text |
| Text.OthersSeparate | internal/fulltext/fulltext.go:26-59 | any character that is no letter, digit, underscore or ideograph only cuts the text |
| Text.WordStaysWhole | internal/fulltext/fulltext.go:34-59 | a run of letters, digits and underscores is one token, lower-cased letter by letter |
| Text.CaseDoesNotMatter | internal/fulltext/fulltext.go:34-59 | texts that differ in case only have the same tokens |
| Text.LessIff | internal/fulltext/fulltext.go:202-214 | the order of terms: a proper prefix first, otherwise the smaller character at the first difference |
| Text.PastPrefixRange | internal/fulltext/fulltext.go:295-298 | once a sorted term is past the terms with a prefix, no later term has the prefix: stopping the scan is right |
| Fulltext.SearchStrings | internal/fulltext/fulltext.go:293 | binary search finds the point that separates the terms below x from the rest |
| Fulltext.Index.constructor | internal/fulltext/fulltext.go:118-123 | a new index satisfies its invariant and holds no document |
| Fulltext.Index.Add | internal/fulltext/fulltext.go:126-154 | a document's old tokens are replaced by the new text's, others stay, and postings remain the exact inverse of documents |
| Fulltext.Index.Remove | internal/fulltext/fulltext.go:157-180 | exactly that document goes, and postings remain the exact inverse of the rest |
| Fulltext.Index.Size | internal/fulltext/fulltext.go:183-187 | the counter is the number of documents |
| Fulltext.Index.Terms | internal/fulltext/fulltext.go:202-214 | the cached term list is the sorted list of all terms, rebuilt when stale |
| Fulltext.Index.SearchPrefix | internal/fulltext/fulltext.go:285-317 | returns exactly the documents owning a token with the lower-cased prefix, none for an empty prefix |
| Fulltext.ScanFrom | internal/fulltext/fulltext.go:295-307 | the scan collects the owners of a contiguous range of terms with the prefix, up to the first without it |
| Fulltext.ScanFindsOwners | internal/fulltext/fulltext.go:292-307 | that contiguous range holds every term with the prefix, so the scan finds exactly the owning documents |
| Fulltext.AddPostingStep | internal/fulltext/fulltext.go:145-153 | adding one posting keeps the index inverse to the documents except for the tokens still to come |
| Fulltext.RemovePostingStep | internal/fulltext/fulltext.go:162-169 | removing one posting, and the term when it is the last, keeps the same partial inverse |
| Text.TokensAcrossSpace | internal/cmdb/search.go:130-135 | tokens of two texts joined by a space are the tokens of each, so joining fields never merges words |
| CmdbSearch.DedupeStrings | internal/cmdb/search.go:258-272 | the loop keeps the first occurrence of each string, as specified by `Dedupe` |
| CmdbSearch.DedupeKeepsElements | internal/cmdb/search.go:257-272 | deduplication loses and invents no element |
| CmdbSearch.DedupeIsDistinct | internal/cmdb/search.go:257-272 | the result repeats nothing |
| CmdbSearch.DedupeShortens | internal/cmdb/search.go:257-272 | it is the identity exactly on lists without repeats and strictly shortens the others |
| CmdbSearch.NormalizeCiSearch | internal/cmdb/search.go:70-92 | query tokens, mode, capped limit and the status rule are those the brute-force search uses |
| CmdbSearch.SortedAttrKeys | internal/cmdb/search.go:248-255 | the attribute keys in the one ascending order, whatever order the map is walked in |
| CmdbSearch.CiSearchFields | internal/cmdb/search.go:112-128 | the weighted fields of an item: name, type, attributes, identifiers |
| CmdbSearch.AttrTextOf | internal/cmdb/search.go:117-123 | the attribute text lists keys and values in sorted key order |
| CmdbSearch.CiSearchText | internal/cmdb/search.go:136-144 | the indexed text of an item |
| CmdbSearch.SearchTextTokens | internal/cmdb/search.go:130-135 | the indexed text tokenizes to the concatenation of the scored fields' tokens |
| CmdbSearch.CountPrefixed | internal/cmdb/search.go:164-169 | counts the tokens of a field that begin with the query token |
| CmdbSearch.TfCounts | internal/cmdb/search.go:164-169 | the term frequency is the number of positions whose token begins with the query token |
| CmdbSearch.BestField | internal/cmdb/search.go:162-177 | no field contributes more than the result, and one contributes it, or the result is nothing; a field's contribution is its weight times one plus the logarithm of its mentions |
| CmdbSearch.ScoreTokens | internal/cmdb/search.go:161-182 | sum of the best scores, and the list of tokens that scored |
| CmdbSearch.CiHasPhrase | internal/cmdb/search.go:203-219 | true exactly when tokens of one field begin, one after the other, with the query's tokens |
| CmdbSearch.MatchCI | internal/cmdb/search.go:154-200 | score and matched tokens agree with the declarative `Match` in all three modes |
| CmdbSearch.ScoreDecidesHit | internal/cmdb/search.go:146-200 | for any admissible logarithm the score is positive iff the item is a hit in the mode's own terms (all, any, phrase), never negative, and matched tokens are those the item mentions |
| CmdbSearch.PhraseMentionsAll | internal/cmdb/search.go:190-193 | a phrase in a field implies that every token is mentioned, so phrase mode needs no second recall rule |
| CmdbSearch.RecallIsSuperset | internal/cmdb/search.go:21-23 | every hit owns an indexed token with some query token as prefix, in every mode |
| CmdbSearch.PhraseSearchExactness | internal/cmdb/search.go:37-71 | phrase mode finds exactly the consecutive occurrences of the query's words iff the query repeats no word |
| CmdbSearch.PhraseSearchMissesOwnName | internal/cmdb/search.go:71 | an item named 10.0.0.1 is not a hit of the phrase query 10.0.0.1 |
| Sorting.Sort | internal/cmdb/search.go:237-243 | sorting a list without repeats yields the ascending list of its elements |
| Sorting.SortedUnique | internal/cmdb/search.go:235-243 | under a strict total order only one ascending list holds a given set: results do not depend on map order |
| CmdbStore.HitsAreOrdered | internal/cmdb/search.go:235-244 | score descending then id ascending is a strict total order on the hits of a store |
| CmdbStore.MemoryCiStore.constructor | internal/cmdb/memory.go:32-54 | a new store is empty, has the preset types, and its index is complete |
| CmdbStore.MemoryCiStore.CreateCI | internal/cmdb/memory.go:119-135 | refuses unknown types; otherwise stores the item with version and status defaults and indexes it |
| CmdbStore.MemoryCiStore.IndexCI | internal/cmdb/memory.go:140-145 | the item's old tokens in the index are replaced by its present ones; without an index nothing is done |
| CmdbStore.MemoryCiStore.UpdateCI | internal/cmdb/memory.go:179-199 | refuses missing items and other tenants; otherwise replaces the item, keeping what an update may not change, and re-indexes it |
| CmdbStore.MemoryCiStore.SetApproval | internal/cmdb/memory.go:163-177 | changes approval status and time only, and the index stays complete without re-indexing |
| CmdbStore.MemoryCiStore.DeleteCI | internal/cmdb/memory.go:201-214 | marks the item deleted, and the index stays complete without re-indexing |
| CmdbStore.MemoryCiStore.RebuildSearchIndex | internal/cmdb/memory.go:250-256 | a rebuild makes the index complete whatever it was |
| CmdbStore.BuildIndex | internal/cmdb/memory.go:250-256 | indexing all items in any order gives the index of exactly those items |
| CmdbStore.MemoryCiStore.CandidateIDs | internal/cmdb/memory.go:287-309 | the candidates are exactly the ids owning an indexed token with a query token as prefix; all ids without an index |
| CmdbStore.MemoryCiStore.CollectHits | internal/cmdb/memory.go:261-275 | the hits are the candidates that pass the filter with a positive score, each once |
| CmdbStore.SortAndCut | internal/cmdb/memory.go:277-280 | all hits of the store, collected in any order, are turned into the one brute-force answer |
| CmdbStore.MemoryCiStore.SearchLocked | internal/cmdb/memory.go:259-281 | recall, scoring, sorting and cutting give the brute-force answer |
| CmdbStore.MemoryCiStore.SearchCIs | internal/cmdb/memory.go:230-247 | in every state, with the index missing or short too, the search returns the brute-force answer and changes no item |
| CmdbStore.BruteForceMeaning | internal/cmdb/memory.go:258-281 | that answer: in order, within the limit, only filtered hits, and every hit is in it unless it is full of hits that go before |
| CmdbStore.RecallCoversHits | internal/cmdb/memory.go:283-286 | scoring only the recalled candidates finds all hits of the store |
| CmdbStore.VersionCountsUpdates | internal/cmdb/memory.go:119-199 | after any updates the version counts them and the creation, the creation time stays, attributes not given stay |
| CmdbStore.StoredAsGiven | internal/cmdb/memory.go:119-199 | everything else is stored as the caller gave it, with the defaults for status and attributes |
| CmdbRank.TotalAddsUp | internal/cmdb/search.go:161-182 | the score of two lists of tokens is the sum of their scores |
| CmdbRank.FullHitScore | internal/cmdb/search.go:186-199 | an all or phrase hit has the full sum as its score and every token as matched |
| CmdbRank.AnyHitScore | internal/cmdb/search.go:183-189 | an any hit has the sum times the share of tokens that matched |
| CmdbRank.WeightsOfFields | internal/cmdb/search.go:94-128 | the four weights 3, 1.5, 2 and 1 and which words are in which field |
| CmdbRank.OneWordScore | internal/cmdb/search.go:146-200 | a one-word hit with single mentions scores the weight of the heaviest field that mentions it |
| CmdbRank.HeavierComesFirst | internal/cmdb/search.go:235-244 | of two such answers the one with the heavier field comes first |
| CmdbRank.NameComesFirst | internal/cmdb/search.go:235-244 | the one that has the word in its name comes before one that has it in type, attributes or identifiers only |
| CmdbRank.NameIsNotCutOff | internal/cmdb/search.go:222-246 | and the limit does not drop it while the other is answered |
| CmdbRank.HeaviestFieldCountsIff | internal/cmdb/search.go:146-177 | the heaviest field mentioning a token counts iff no lighter one contributes more |
| CmdbRank.TenAttributesBeatTheName | internal/cmdb/search.go:146-177 | ten mentions among the attributes contribute 4, one in the name 3 |
| CmdbRank.PhraseHitIff | internal/cmdb/search.go:203-219 | a phrase hit is one with a field of the form a, m, b where the words of m begin with the query's words in their places |
| CmdbRank.FoundByItsWords | internal/cmdb/search.go:112-144 | an item is found, in every mode, by the beginning of any word of its name, type, attributes and identifiers |
| CmdbRank.AnswersAreInScope | internal/cmdb/memory.go:258-281 | answers are of the tenant, type and status asked for, active if none, by score and then id, at most 50 or the limit up to 500 |
| CmdbRank.NothingIsLeftOut | internal/cmdb/memory.go:258-281 | a hit of that kind is left out only when the answer is as long as the limit |
| CmdbRank.DeletedIsNotFound | internal/cmdb/memory.go:201-214 | a deleted item is answered only to queries for deleted ones |
| CircuitBreaker.CircuitBreaker.constructor | internal/circuitbreaker/circuitbreaker.go:70-81 | a new breaker is closed, with defaults for unset limits |
| CircuitBreaker.CircuitBreaker.Before | internal/circuitbreaker/circuitbreaker.go:127-154 | admission and the new state, as in `BeforeCall` |
| CircuitBreaker.CircuitBreaker.After | internal/circuitbreaker/circuitbreaker.go:160-197 | the new state after a completion in whatever state it arrives, as in `AfterCall` |
| CircuitBreaker.CircuitBreaker.Reset | internal/circuitbreaker/circuitbreaker.go:213-220 | the breaker is closed with all counters cleared |
| CircuitBreaker.CircuitBreaker.Execute | internal/circuitbreaker/circuitbreaker.go:110-123 | one call alone: disabled breakers pass through untouched; a refused call is not made; an admitted one is recorded |
| CircuitBreaker.StepKeepsInv | internal/circuitbreaker/circuitbreaker.go:125-197 | every begin, completion (current or late) and reset keeps the invariant tying the counters to the calls in flight |
| CircuitBreaker.RunKeepsInv | internal/circuitbreaker/circuitbreaker.go:125-197 | hence it holds after every interleaving |
| CircuitBreaker.HalfOpenNeverWedges | internal/circuitbreaker/circuitbreaker.go:143-149 | half-open slots are bounded by the limit and by successes plus outstanding probes, so with no probe outstanding the next call is admitted |
| CircuitBreaker.SuccessesCloseIt | internal/circuitbreaker/circuitbreaker.go:176-185 | from half-open with no probe outstanding, exactly the missing number of successful calls in a row closes it, not one less |
| CircuitBreaker.ClosesOnProbesIff | internal/circuitbreaker/circuitbreaker.go:176-185 | from a half-open state that satisfies the invariant, as every reachable one does: every continuation of the period that closes the circuit has all probes back iff no older call is in flight and none was counted |
| CircuitBreaker.StaleSuccessClosesCircuit | internal/circuitbreaker/circuitbreaker.go:156-196 | a run in which a call admitted earlier closes the circuit while the only probe is still out |
| CircuitBreaker.FailureCountIsStreak | internal/circuitbreaker/circuitbreaker.go:164-175 | the failure count is the number of failed completions since the last success, reset or re-entry to closed; below the threshold, and zero outside closed |
| CircuitBreaker.NoAdmissionBeforeTimeout | internal/circuitbreaker/circuitbreaker.go:134-142 | after an opening, without a reset, no call is admitted before the recovery timeout has passed |
| CircuitBreaker.OpensIff | internal/circuitbreaker/circuitbreaker.go:160-197 | in any run a closed circuit opens iff a failed completion makes the live streak as long as the threshold; a half-open one iff any completion fails |
| CircuitBreaker.OpenAdmitsIff | internal/circuitbreaker/circuitbreaker.go:134-142 | a circuit still open admits a call iff the recovery timeout has passed since it opened; that call is its first probe |
| CircuitBreaker.LeavesOpenIff | internal/circuitbreaker/circuitbreaker.go:125-220 | only an admitted call or a reset ends the open state; a reset always closes |
| CircuitBreaker.HalfOpenAdmitsIff | internal/circuitbreaker/circuitbreaker.go:143-149 | half-open admits a call iff successful and outstanding probes of this period are fewer than the limit |
| CircuitBreaker.DefaultsFilledIn | internal/circuitbreaker/circuitbreaker.go:70-81 | a missing timeout becomes 30 seconds, a missing limit one probe; then the breaker is usable iff its threshold is positive |
| ApprovalModel.Validate | internal/approval/flow.go:76-122 | accepts exactly the flows with id, tenant, trigger, steps with ids, positive strictly ascending orders, known modes and approvers |
| ApprovalModel.FindStep | internal/approval/flow.go:126-133 | the first step with the order, or none |
| ApprovalModel.FindRequestStep | internal/approval/request.go:113-120 | the first request step with the order, or none |
| ApprovalModel.ValidateDecision | internal/approval/state_machine.go:130-159 | when it accepts, it names the current step in both the flow and the request |
| ApprovalFlows.AcceptedIffEntitled | internal/approval/state_machine.go:130-159 | it accepts exactly the decisions on a pending, unexpired request by an approver of the current step who has not decided it and, in sequential mode, whose turn it is |
| ApprovalModel.AppendKeepsTimeOrder | internal/approval/history.go:36-44 | an append keeps the timeline sorted, the new entry after all that are not later |
| ApprovalModel.AppendKeepsEntries | internal/approval/history.go:36-44 | an append adds that entry and keeps the others and their relative order |
| ApprovalEngine.Engine.constructor | internal/approval/engine.go:42-53 | a new engine is empty |
| ApprovalEngine.Engine.AddFlow | internal/approval/engine.go:88-109 | creation: invalid and existing flows are refused, others stored and stamped |
| ApprovalEngine.Engine.ReplaceFlow | internal/approval/engine.go:113-130 | update: missing and invalid flows are refused; creation time is kept |
| ApprovalEngine.Engine.RemoveFlow | internal/approval/engine.go:134-143 | deletion: missing flows are refused, requests stay |
| ApprovalEngine.Engine.SubmitRequest | internal/approval/engine.go:180-237 | each refusal in the source's order; otherwise a fresh pending request, its steps and its first history entry |
| ApprovalEngine.Engine.ApplyDecision | internal/approval/engine.go:241-323 | each refusal; otherwise decision recorded, step evaluated, request rejected, advanced or approved, and one history entry |
| ApprovalEngine.Engine.CancelRequest | internal/approval/engine.go:339-372 | only a pending request is cancelled, with its history entry |
| ApprovalEngine.Engine.PollTimeout | internal/approval/engine.go:378-448 | request expiry first, then the current step's timeout; otherwise nothing changes |
| ApprovalEngine.Engine.ListPendingApprovals | internal/approval/engine.go:484-517 | the ids of exactly the requests awaiting the user, each once, oldest first |
| ApprovalSafety.CompletedStepSatisfiesMode | internal/approval/state_machine.go:71-109 | a step judged passed on admitted decisions satisfies its mode: deciders equal the list in order, or as a set without repeats, or one approval |
| ApprovalSafety.SubmittedIsGood | internal/approval/engine.go:205-218 | a submitted request satisfies the request invariant |
| ApprovalSafety.AcceptedDecision | internal/approval/state_machine.go:130-159 | an accepted decision is on the current step of a pending request and by someone whose turn it is |
| ApprovalSafety.DecisionKeepsGood | internal/approval/engine.go:260-306 | every recorded decision keeps the request invariant, whether it rejects, advances, approves or leaves the step open |
| ApprovalSafety.StepTimeoutKeepsGood | internal/approval/engine.go:416-424 | a step timeout keeps it too |
| ApprovalSafety.StepKeepsTracked | internal/approval/engine.go:241-436 | every operation that does not touch the request's flow keeps flow and invariant |
| ApprovalSafety.RunTracks | internal/approval/engine.go:241-436 | hence over any run after submission that leaves the flow alone |
| ApprovalSafety.ApprovedMeansEveryStep | internal/approval/engine.go:283-306 | a request approved in such a run has, for every step of its flow, decisions satisfying its mode, and the flow's orders are 1..n |
| ApprovalSafety.PendingPicture | internal/approval/engine.go:260-306 | while pending: steps before the current one approved by their mode, the current one undecided, later ones untouched |
| ApprovalSafety.StepRespectsTransitions | internal/approval/state_machine.go:26-42 | any operation moves a status only along the allowed transitions, and leaves a terminal request and its history as they are |
| ApprovalSafety.TerminalForever | internal/approval/state_machine.go:26-42 | in every run, flow updates and deletions included, a terminal request never changes |
| ApprovalProgress.ListedIffAccepted | internal/approval/engine.go:481-517 | a decision is accepted iff the pending list shows the request to that user and it has not expired |
| ApprovalProgress.DecisionLowersRemaining | internal/approval/engine.go:266-306 | each accepted decision lowers approvers minus decisions by one, never below zero |
| ApprovalProgress.DecisionsAreBounded | internal/approval/engine.go:266-306 | no run has more decisions recorded, or told by the history, for a request than its flow has approvers: every run of decisions ends |
| ApprovalProgress.StepKeepsHistory | internal/approval/engine.go:275-318 | every operation keeps decision entries in the history equal in number to recorded decisions |
| ApprovalProgress.HistoryNumbersDecisions | internal/approval/engine.go:275-318 | so the numbers agree for every request in every run |
| ApprovalHistory.DecisionEntry | internal/approval/engine.go:275-306 | an accepted decision's entry has its user, time and step; it says advance iff the request is pending on another step afterwards, otherwise whether the user approved |
| ApprovalHistory.DecisionRecorded | internal/approval/engine.go:252-273 | the decision is appended to the current step's decisions and to no other |
| ApprovalHistory.StepKeepsTruthIff | internal/approval/engine.go:241-323 | an operation keeps user, time and direction of all decisions told by the history iff it is not a rejection that sends the request on |
| ApprovalHistory.AlwaysTruthfulIff | internal/approval/engine.go:241-323 | in every run, flow changes included, the history is truthful at every moment iff there was no such rejection |
| ApprovalHistory.UntouchedIsTruthful | internal/approval/engine.go:241-323 | without changes to the request's flow it always is |
| ApprovalHistory.TruthNumbers | internal/approval/engine.go:275-306 | then reject entries number the rejections, approve and advance entries together the approvals |
| ApprovalHistory.RejectionRejectsIff | internal/approval/state_machine.go:75-109 | an accepted rejection rejects the request iff the current step is not an any-of step whose first decision approved |
| ApprovalHistory.UpdateTurnsRejectionIntoAdvance | internal/approval/engine.go:111-130 | a state, left by an update to any-of, in which a rejection sends the request on |
| ApprovalHistory.EndsByIff | internal/approval/engine.go:339-448 | a pending request is cancelled iff by a cancellation, times out iff polled after its deadline, is rejected by a poll iff the current step has run too long |
| ApprovalHistory.EndIsLogged | internal/approval/engine.go:339-448 | cancellation and timeout get one entry each, with user or step |
| ApprovalHistory.SubmitAcceptedIff | internal/approval/engine.go:180-237 | a submission is accepted iff the request is complete and new and its flow exists and is enabled; refused ones change nothing |
| ApprovalHistory.SubmittedWhenEnabled | internal/approval/engine.go:200 | in every run a request was submitted to a flow enabled at that moment |
| ApprovalHistory.OthersStay | internal/approval/engine.go:88-448 | an operation changes no other request and no other history |
| ApprovalHistory.FlowTimes | internal/approval/engine.go:88-143 | creation and update times of flows, and which call changes a flow |
| ApprovalHistory.FlowAcceptedIff | internal/approval/flow.go:73-122 | which flows creation, update and deletion accept, condition by condition |
| ApprovalAnswers.RefusedBecause | internal/approval/engine.go:88-448 | each error has one cause, for all operations, and a refused operation changes nothing |
| ApprovalAnswers.DecisionRefused | internal/approval/state_machine.go:130-159 | the six refusals of a decision, each iff its cause holds and no earlier one |
| ApprovalAnswers.PollAnswersIff | internal/approval/engine.go:378-436 | a poll answers true iff it ended the request |
| ApprovalAnswers.SubmitStores | internal/approval/engine.go:202-232 | the stored steps, only the first clock running, and the first history entry |
| ApprovalAnswers.ClockStarts | internal/approval/engine.go:283-306 | a decision starts the clock of the step the request goes on to, and no other |
| ApprovalAnswers.ClockTells | internal/approval/engine.go:180-306 | in every run the current step's clock shows the call that made it the current one |
| ApprovalAnswers.PollRejectsIff | internal/approval/engine.go:378-436 | so a poll before the deadline rejects iff the request has waited at this step longer than its timeout |
| ApprovalReach.OneApproval | internal/approval/engine.go:266-301 | what one approval does: it stays on the step until the mode is met, then opens the next step or approves the request |
| ApprovalReach.SomeoneMayDecide | internal/approval/state_machine.go:130-159 | under a steady flow a pending, unexpired request always has an approver whose decision is accepted |
| ApprovalReach.EmptyNameStrands | internal/approval/state_machine.go:152-156 | an empty name before the end of a sequential list lets someone decide early and then nobody can |
| ApprovalReach.ApproveUntilDone | internal/approval/state_machine.go:130-159 | approvals can always be given until the request is approved or nobody may decide |
| ApprovalReach.ApprovableIff | internal/approval/flow.go:73-122 | a valid flow can be approved by some sequence of users iff its orders are 1..n and nobody who has to decide a step is listed twice |
| ApprovalReach.NeverStuckIff | internal/approval/state_machine.go:145-158 | no sequence of approvals strands a request iff moreover no empty name precedes the end of a sequential list |
| ApprovalFlows.NextDecisionUnnoticedIff | internal/approval/engine.go:111-130 | a flow update changes no next decision iff old and new flow entitle the same users to the turn and conclude it alike |
| ApprovalFlows.UpdateOverridesSnapshot | internal/approval/engine.go:111-130 | a run in which an update lets someone outside the submitted flow approve alone |
| ApprovalTurns.AlikeIffSameCourse | internal/approval/state_machine.go:45-109 | two steps have the same people's turns and the same completion, over every order of approvals, iff their courses are equal: the slots that can be filled, the people who can fill a free one, and whether that completes the step |
| ApprovalLife.TurnIsEntitled | internal/approval/state_machine.go:45-69 | the plan computed from mode, approvers and decisions gives the turn to exactly the users who may decide |
| ApprovalLife.PlainStepsAgreeIff | internal/approval/state_machine.go:71-109 | steps with two or more different approvers agree iff they have the same mode and the same approvers, in the same order if sequential |
| ApprovalLife.LifeUnnoticed | internal/approval/engine.go:241-436 | if the condition holds between two flows, no sequence of decisions, polls and cancellations shows a difference in the request or its history |
| ApprovalLife.ConditionNeeded | internal/approval/engine.go:241-436 | if no sequence shows a difference, the condition holds |
| ApprovalLife.SameLifeIffSameFuture | internal/approval/engine.go:241-436 | so the condition is exact, for every request in order under the old flow, from any moment on |
| ApprovalLife.RunIsLife | internal/approval/engine.go:241-436 | in any run of the engine that does not define the flow anew, the request and its history follow the acts on it under the live flow, or none |
| ApprovalLife.UpdateNeverNoticedIff | internal/approval/engine.go:111-130 | an update changes nothing about a request or its history in any later run iff the condition holds between old and new steps |
| ApprovalLife.DeleteNeverNoticedIff | internal/approval/engine.go:132-143 | a deletion changes nothing in any later run iff the request is over or expired, or nobody may decide and the step is not late before the request expires |
| ApprovalFlows.StepKeepsOneEnabledIff | internal/approval/flow.go:51 | any operation keeps one enabled flow per tenant and trigger iff it does not store an enabled flow beside another enabled one |
| ApprovalFlows.AlwaysOneEnabledIff | internal/approval/flow.go:51 | in every run there is never a second enabled flow iff no call stores one |
| Anomaly.EWMADetector.constructor | internal/alertengine/anomaly.go:180-191 | out-of-range parameters become the defaults 0.3 and 3 |
| Anomaly.EWMADetector.Add | internal/alertengine/anomaly.go:196-208 | the fields remain the EWMA moments of all samples so far, the new one included |
| Anomaly.EWMADetector.IsAnomaly | internal/alertengine/anomaly.go:214-229 | with samples and some spread: flags iff the value is above mean + threshold·sd or below mean − threshold·sd, for the sd whose square is the variance; otherwise never |
| Anomaly.WeightsClosedForm | internal/alertengine/anomaly.go:196-208 | the weight of sample i is (1-a)^(n-1) for the first and a(1-a)^(n-1-i) for the others |
| Anomaly.EwmaIsWeightedMeanAndVariance | internal/alertengine/anomaly.go:196-208 | the recursive update computes exactly the weighted mean of all samples and their weighted variance about it |
| Anomaly.EwmaBounds | internal/alertengine/anomaly.go:196-208 | the mean stays between the least and greatest sample and the variance is never negative |
| Anomaly.FlaggedWeightIsSmall | internal/alertengine/anomaly.go:214-229 | the samples a detector would flag carry at most 1/threshold² of the weight |
| Anomaly.BeyondIff | internal/alertengine/anomaly.go:123-134 | comparing squares finds exactly the values out of the two bounds |
| Anomaly.BaselineDetector.constructor | internal/alertengine/anomaly.go:65-77 | defaults of 100 samples and threshold 3 |
| Anomaly.BaselineDetector.Add | internal/alertengine/anomaly.go:83-92 | the window is always the last maxSize samples and the stored statistics are its own |
| Anomaly.BaselineDetector.IsAnomaly | internal/alertengine/anomaly.go:123-134 | with two samples and some spread: flags iff the value is above mean + threshold·sd or below mean − threshold·sd, for the sd whose square is the variance; otherwise never |
| Anomaly.Recompute | internal/alertengine/anomaly.go:95-117 | the two loops compute the window's mean and variance |
| Anomaly.SpreadAbout | internal/alertengine/anomaly.go:95-117 | about any centre c the squared distances sum to n times variance plus the squared distance of c from the mean: mean and variance are the only such pair |
| Anomaly.SilentIff | internal/alertengine/anomaly.go:123-229 | a detector flags no value at all iff the samples it judges by are all equal or missing |
| Anomaly.FewPointsBeyond | internal/alertengine/anomaly.go:95-134 | Chebyshev: points of the window beyond the threshold, times threshold², are at most its size |
| Anomaly.EvaluateInOrder | internal/alertengine/anomaly.go:424-449 | judges before adding, detector by detector, and stops at the first alarm; the detectors up to it have learned the value |
| Anomaly.AllDetectorsLearnIff | internal/alertengine/anomaly.go:387-449 | every matching detector learns the value iff none but the last flags it |
| Evaluator.Ring.constructor | internal/alertengine/evaluator.go:25-33 | a new ring is empty, with the default size for a non-positive capacity |
| Evaluator.Ring.Push | internal/alertengine/evaluator.go:36-42 | the ring keeps representing the newest samples of its whole history |
| Evaluator.PushStep | internal/alertengine/evaluator.go:36-42 | overwriting the slot at head and moving it turns "the newest cap of h" into "the newest cap of h + [s]" |
| Evaluator.Ring.Nth | internal/alertengine/evaluator.go:57-59 | slot arithmetic with wrap-around finds the i-th oldest retained sample |
| Evaluator.SumSince | internal/alertengine/evaluator.go:46-69 | sum and count over the retained samples not older than the bound |
| Evaluator.AvgSince | internal/alertengine/evaluator.go:46-69 | their mean, or none |
| Evaluator.FilterSelects | internal/alertengine/evaluator.go:46-69 | the samples averaged are those at or after the bound, in order |
| Evaluator.MeanBalancesIff | internal/alertengine/evaluator.go:46-69 | the average is the one value from which they deviate as far up as down |
| Evaluator.AvgInWindow | internal/alertengine/evaluator.go:130-144 | the newest value for a non-positive window, otherwise the mean of the retained samples in the window |
| Evaluator.Ring.Latest | internal/agent/metrics_collect.go:78-90 | the last sample added, if any |
| Evaluator.Ring.Select | internal/agent/metrics_collect.go:96-123 | the retained samples that qualify, oldest first |
| Evaluator.SampleStore.RecordSample | internal/alertengine/evaluator.go:112-124 | the sample joins the history of its device and metric, a new ring if there was none; the others stay |
| Evaluator.SampleStore.DropDevice | internal/alertengine/evaluator.go:189-194 | a reset drops all rings of the device, and no others |
| Evaluator.SatisfactionTimer.ShouldFire | internal/alertengine/evaluator.go:156-186 | answer and new start times as in `TimerStep` |
| Evaluator.SatisfactionTimer.Reset | internal/alertengine/evaluator.go:189-194 | all start times of the device go, and no others |
| Evaluator.SatisfactionTimer.ResetRule | internal/alertengine/evaluator.go:197-203 | all start times of the rule go, on every device, and no others |
| Evaluator.OtherKeysUnaffected | internal/alertengine/evaluator.go:156-186 | an event about one device and rule leaves every other start time as it is |
| Evaluator.StartIsStreakBegin | internal/alertengine/evaluator.go:172-180 | in any run the stored start is the time of the first match after the last break, firing or reset; without one there is no streak |
| Evaluator.FiresIff | internal/alertengine/evaluator.go:146-186 | it fires iff the rule matches now and has matched at every observation since such a start at least the duration ago |
| Evaluator.NoDurationFiresIff | internal/alertengine/evaluator.go:156-171 | a rule without a duration fires at every match and at nothing else |
| Evaluator.FiringsTakeTime | internal/alertengine/evaluator.go:152-185 | k firings take at least k durations |
| LogTick.LogCollector.constructor | internal/agent/log_collect.go:119-136 | a new collector has read nothing and its limiter is idle |
| LogTick.LogCollector.CollectFile | internal/agent/log_collect.go:301-432 | one tick on a file, filter, rate limit, merging and cap included: where it starts, what it emits and drops, the new offset and limiter state; other files' offsets stay |
| LogTick.LogCollector.HandleLines | internal/agent/log_collect.go:377-416 | the loop stops with the line that fills the cap or after the last; records are the rendered groups of the lines let through, and drops are counted |
| LogTick.LogCollector.HandleData | internal/agent/log_collect.go:342-426 | one read: the loop's records and drops, and how much of the data counts as consumed, less than all only when the cap stopped it |
| LogTick.AddLine | internal/agent/log_collect.go:393-409 | one admitted line: flush if it begins a record and something is buffered, append, flush at once without a pattern |
| LogTick.FlushBuf | internal/agent/log_collect.go:359-375 | a buffer with text becomes a record, one without text stays |
| LogTick.KeptOrDropped | internal/agent/log_collect.go:384-392 | lines let through plus lines dropped are the lines the filter keeps |
| LogTick.MergedIsGrouping | internal/agent/log_collect.go:377-415 | the groups are all admitted lines in order, cut exactly where a line begins a record after a group with text |
| LogTick.RecordShowsLines | internal/agent/log_collect.go:398-404 | splitting a record's content at newlines gives its group's lines back, leading blank ones aside; the start line is the first with text |
| LogTick.RecordsAddUp | internal/agent/log_collect.go:359-409 | line and byte counts of the records add up to the lines let through, but for blank lines no text has followed |
| LogTick.CutMergesIff | internal/agent/log_collect.go:342-416 | two ticks merge lines as one would iff nothing is open at the break, nothing follows, or what follows begins a record (adds only blank lines where no text is open) |
| LogTick.CapIsKept | internal/agent/log_collect.go:410-416 | at most one record over the cap, none without merging; a capped tick ends in a record of a single line |
| LogTick.CapCutsIff | internal/agent/log_collect.go:410-416 | a capped tick leaves its last record whole iff the next admitted line begins a record (iff only blank lines follow when that last line is blank) |
| LogTick.PlainTickCollects | internal/agent/log_collect.go:377-426 | without limit and pattern the tick is LogCollect's, so its exactness over all ticks holds of the loop |
| LogTick.PlainTickPolls | internal/agent/log_collect.go:301-342 | it is a poll from the stored offset, or from the beginning of a file that has become shorter |
| LogTick.LimitedLines | internal/agent/log_collect.go:377-392 | with a limit, the lines let through are those a limiter started idle admits, one request for each kept line |
| LogCollect.SplitUnlines | internal/agent/log_collect.go:451-465 | the pieces of a text rebuild it: splitting loses nothing |
| LogCollect.TickIsExact | internal/agent/log_collect.go:377-426 | without '\r', a tick emits exactly the kept non-empty lines of the bytes it consumes, at most the cap, makes progress, and stops early only after a newline |
| LogCollect.PiecesGiveWholeIff | internal/agent/log_collect.go:318-342 | two reads emit what one read of both would, for every filter, iff the cut between them is at a line boundary |
| LogCollect.PollKeepsExact | internal/agent/log_collect.go:318-431 | a tick on a grown file keeps the emitted lines exactly those of the consumed prefix and moves on when there is more |
| LogCollect.PollingIsExact | internal/agent/log_collect.go:318-431 | over any number of ticks the emitted records are exactly the kept lines of what was consumed, once and in order, with no gap or overlap |
| LogCollect.LineCountsConserved | internal/agent/log_collect.go:397-408 | line counts of the records plus the pending count equal the kept lines |
| LogCollect.CountedShort | internal/agent/log_collect.go:353-355 | the counted length plus the trimmed '\r' characters is the true length |
| LogRepeat.KeptIsAgain | internal/agent/log_collect.go:451-465 | what a tick emits of a text is what its lines emit, carriage returns cut off; line ends at its end emit nothing |
| LogRepeat.RepeatsNothingIff | internal/agent/log_collect.go:353-355 | after a capped tick the text from the new offset on emits some lines again and then what follows the handled lines; none again iff the cut carriage returns are at most those ending the last handled line plus one, or reach only an end of its text that the filter drops |
| LogRepeat.CarriageReturnsRepeatLines | internal/agent/log_collect.go:353-355 | more than 1000 lines "a\r\n": the tick emits 1000 records, advances 2000 of 3000 characters, and 333 of the lines are emitted again |
| RateLimit.LineLimiter.AllowRate | internal/agent/log_collect.go:435-449 | answer, window and count as in the limiter's `Step` |
| RateLimit.AtMostTwice | internal/agent/log_collect.go:435-449 | in any run, calls less than a second apart admit less than twice the limit |
| RateLimit.AlmostTwice | internal/agent/log_collect.go:435-449 | a run in which they admit one less than twice the limit |
| RateLimit.SlidingPromiseIff | internal/agent/log_collect.go:434-449 | every second of every run admits at most the limit iff the limit is one |
| RateLimit.RefusedIff | internal/agent/log_collect.go:435-449 | in any run a request is refused iff as many as the limit were admitted since its window began, less than a second before |
| RateLimit.NewWindowAdmits | internal/agent/log_collect.go:439-442 | a request a second or more after its window began is admitted |
| RateLimit.SilenceAdmits | internal/agent/log_collect.go:439-442 | so is every request after a silent second |
| LogPush.LogPusher.AppendEntry | internal/agent/log_push.go:194-206 | the entry goes to the buffer's end; a flush is asked for iff the batch size is reached |
| LogPush.LogPusher.TakeBatch | internal/agent/log_push.go:297-305 | a flush takes the whole buffer, leaving it empty; nothing is taken from an empty one |
| LogPush.LogPusher.Requeue | internal/agent/log_push.go:351-359 | a failed batch goes before everything appended since |
| LogPush.FlushTakesAll | internal/agent/log_push.go:297-359 | a flush moves the whole buffer as one batch, a failure the whole batch back, an acknowledgement the whole batch out; nothing else moves |
| LogPush.StepConserves | internal/agent/log_push.go:297-359 | every event keeps appended entries, as a multiset, equal to acknowledged, in-flight and buffered ones |
| LogPush.RunConserves | internal/agent/log_push.go:297-359 | so in every interleaving nothing is lost or duplicated |
| LogPush.OneFlightKeepsOrder | internal/agent/log_push.go:297-359 | with at most one flush in flight, acknowledged then in-flight then buffered is the append order |
| LogPush.FailKeepsOrderIff | internal/agent/log_push.go:350-359 | a failure keeps the append order iff the failed flush is the newest in flight |
| LogPush.AckKeepsOrderIff | internal/agent/log_push.go:297-347 | an acknowledgement keeps it iff it is of the oldest in flight |
| CsvAttrs.CiAttrsToCSV | internal/cmdb/handler.go:467-476 | visits every key once, in some order, and prints key=value pairs between semicolons |
| CsvAttrs.CsvAttrsToMap | internal/cmdb/handler.go:479-497 | the loop computes the parse of the whole text |
| CsvAttrs.ReadPair | internal/cmdb/handler.go:485-495 | one pair: trimmed, empty skipped, split at the first '=', stored over an earlier one |
| CsvAttrs.ParseIsClean | internal/cmdb/handler.go:479-497 | whatever the text, the parsed map has clean keys and values, so it can be printed and read back |
| CsvAttrs.TrimParts | internal/cmdb/handler.go:479-497 | trimming cuts spaces off both ends and nothing else |
| CsvAttrs.ParseMeaning | internal/cmdb/handler.go:479-497 | for any text: a key has a value iff the last piece about the key says so |
| CsvAttrs.RoundTripIff | internal/cmdb/handler.go:466-497 | parsing the print gives the map back, in any key order, iff keys have no ';', '=' or leading space and values no ';' or trailing space |
| ShellSegments.SplitShellSegments | internal/agent/agent.go:1241-1278 | the index loop computes the segments |
| ShellSegments.SegmentsRebuild | internal/agent/agent.go:1241-1278 | segments and separators taken, interleaved, are the rest of the command after what was collected |
| ShellSegments.SegmentsAreAtomic | internal/agent/agent.go:1241-1278 | no segment holds a pipe character, and every '&' in one touches a '>' of that segment |
| ShellSegments.CommandSegments | internal/agent/agent.go:1241-1278 | both for a whole command, with every separator one of the four operators (single or double ampersand or pipe) |
| ShellSegments.CutIff | internal/agent/agent.go:1241-1278 | the command is cut at every operator, a doubled one once, and nowhere else |
| ShellSegments.CommandPieces | internal/agent/agent.go:1241-1278 | the segments are the texts between the cuts |
| SubcmdArgs.FilterSubcmdArgs | cmd/opsmesh/main.go:244-270 | returns the arguments at the kept positions |
| SubcmdArgs.PickSubcmdArgs | cmd/opsmesh/main.go:282-306 | returns the arguments at the picked positions |
| SubcmdArgs.KeptAscends | cmd/opsmesh/main.go:244-270 | kept positions ascend: order is preserved |
| SubcmdArgs.PickedAscends | cmd/opsmesh/main.go:282-306 | picked positions ascend: order is preserved |
| SubcmdArgs.FlagForms | cmd/opsmesh/main.go:244-306 | one or two dashes, with or without an attached value, name a flag |
| SubcmdArgs.PickedIff | cmd/opsmesh/main.go:282-306 | picked are the subcommand's flags and their values, and nothing else |
| SubcmdArgs.KeptIff | cmd/opsmesh/main.go:244-270 | kept is everything but the subcommand's name, its flags and their values |
| SubcmdArgs.FiltersAreComplementaryIff | cmd/opsmesh/main.go:244-306 | every position of every command line is kept, picked or the subcommand's, exactly once, iff the subcommand's name is not a recognized flag |
| ConnCache.GRPCClient.GetConn | internal/agent/grpcclient.go:287-318 | reuses a cached connection, refuses while cooling, else dials and caches on success only |
| ConnCache.GRPCClient.EvictConn | internal/agent/grpcclient.go:328-343 | drops the connection, starts the cooldown and counts the failure |
| ConnCache.ConnectedOrCooling | internal/agent/grpcclient.go:287-343 | after a dial the target stays connected or cools until at least the cooldown after that dial |
| ConnCache.DialsAreSpaced | internal/agent/grpcclient.go:287-343 | successive successful dials to a target are at least the cooldown apart |
| ConnCache.DialsTakeTime | internal/agent/grpcclient.go:287-343 | n dials after a first take at least n cooldowns |
| ConnCache.AnswerIff | internal/agent/grpcclient.go:287-343 | in any run a lookup reuses iff connected, is refused iff not connected and evicted less than a cooldown ago, and dials otherwise |

## Left out

- HTTP handlers, authentication, SQL text and the SQL search backend, configuration, UI, shell templates and LLM calls.
- Fulltext.Index.Add: postings are sets of documents, without term frequencies and positions, which the CMDB does not use.
- Fulltext.Index.SearchPrefix: returns the set of documents, not their order by score, which the CMDB does not use.
- Fulltext.ScanFrom: collects documents and adds up no scores, for the same reason.
- Full-text ranking (TF-IDF), posting positions and the phrase, boolean and wildcard searches of internal/fulltext; the CMDB uses its prefix membership only.
- Lower-casing outside ASCII: letters beyond ASCII count as separators in the tokenizer, so tokens are unaffected; only the prefix argument of a direct index query could differ.
- CI types, relations and templates, and the attribute maps' aliasing between caller and store (items are values).
- The logarithm is an arbitrary function that is not negative from one on; its growth plays no part in which items hit.
- Floating-point rounding: quantities are real, the standard deviation is kept as its square, and z-scores are compared as squares.
- Mutexes, goroutines and tickers: operations are atomic steps with the time as parameter.
- BreakerSet keys, state-change callbacks, and a panic in the guarded function, which would skip the completion step.
- Approval notifiers, clones, presets, list filters and pointers handed to Submit (requests are values); histories are read as timelines.
- History append sorts the whole timeline in the source; here the entry is inserted where a stable sort of an ordered timeline puts it.
- ApprovalEngine.Engine.ListPendingApprovals: returns ids, and leaves the order among equal creation times open, as the source's map walk does.
- Anomaly.EvaluateInOrder: takes the matching detectors in rule order; selecting the rules, sorting them by id and the alert's contents are not modelled.
- LogTick.LogCollector.CollectFile: the filter expressions and the multiline pattern are arbitrary predicates on lines, time stamps of records and file errors are not modelled, and a file is a character sequence.
- LogCollect.PollingIsExact: for text without '\r' whose reads end at line ends, without rate limit and multiline rule; PiecesGiveWholeIff, RepeatsNothingIff, KeptOrDropped and CutMergesIff say what happens otherwise.
- Log push payloads, backends, retries and the tail loop; a push is an acknowledgement or a failure.
- ApprovalSafety.ApprovedMeansEveryStep: for runs that do not update or delete the request's flow, since decisions read the live flow (UpdateOverridesSnapshot).
- The evaluator is two objects, SampleStore and SatisfactionTimer; its reset is a step of each. Its rings and the agent's share one generic class.
- limitedBuffer, gRPC dial options and Close.
- SubcmdArgs.FilterSubcmdArgs: the flag table is given as a map from name to "takes a value".
