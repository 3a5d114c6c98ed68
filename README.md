# Front-desk knowledge base and help requests, in Dafny

This project models the core of an AI front-desk assistant for a salon. A voice agent answers
callers from a knowledge base of question patterns and answers. When it has no answer, it opens
a help request for a human supervisor. The supervisor's answer resolves the request and is
learned into the knowledge base. Requests nobody answers in time are swept to `unresolved`.

The model covers four parts of the system:

- **Knowledge service** (`knowledge_search.dfy`, `knowledge_service.dfy`). This is the two-stage
  search:
  - an exact, case-insensitive pattern match, which answers with score 1.0;
  - otherwise a fuzzy stage that scores each active entry by a ladder (extracted-tag overlap,
    exact tag-word hit, fuzzy tag-word similarity, weighted composite), keeps the admitted
    entries, orders them and cuts them to the capped limit.

  The file also covers the usage counter the search bumps, creation, field-by-field update,
  soft delete, listing with the learned-from request, and the statistics.
- **Help-request service** (`help_request_service.dfy`). It covers:
  - creation with a configurable timeout;
  - the read queries and statistics;
  - the transactional `respondToHelpRequest`, which resolves the request and upserts the
    learned answer, or rolls both back;
  - `processTimeouts`.
- **Knowledge-base routes** (`knowledge_routes.dfy`). These decode the query string (`parseInt`,
  `parseFloat`, comma-separated tags), shape the search reply and choose the HTTP status of
  each route, including the status the application-wide error handler assigns.
- **Voice-agent tool** (`voice_tool.dfy`). It covers:
  - the confidence-tier classifier;
  - the result-filter loop, with Python's `round(x, 2)`;
  - the two search attempts of `check_knowledge_base`;
  - the lower-casing of language-model tags;
  - the SIP phone extraction of `create_help_request`.

Shared pieces:

- `common.dfy`: `Option`, `Result`, counting.
- `text.dfy`: JavaScript `trim`, ASCII lower-casing, `split`/`join`, Python `replace`.
- `js_numbers.dfy`: JavaScript `parseInt`, `parseFloat` and `||` defaults.
- `ranking.dfy`: `ORDER BY … DESC` as a stable insertion sort, plus `LIMIT`/`OFFSET`.
- `schema.dfy`: the two tables and the `Database` class that holds them.

The database is a `class Database` with the two tables as sequence fields and an id counter.
Each service operation is a method that `modifies` it. Each method is proved equal to a pure
function of the old tables, and the properties are proved as lemmas about those functions.

Some inputs are uninterpreted functions carried in a `Signals` value. These are Postgres
`similarity`, `normalize_question`, `ts_rank` and the full-text match `@@`. The clock is a
`now` parameter. The outcomes of HTTP and language-model calls are parameters too.

## Model

| member | source | states |
|---|---|---|
| Text.TrimCharacterised | backend/api/services/knowledge.service.js:29-36 | `trim()` gives the empty string exactly for a blank string; otherwise the result neither starts nor ends with white space |
| Text.TrimIdempotent | backend/api/services/knowledge.service.js:325 | trimming an already trimmed pattern changes nothing |
| Text.SplitJoin | backend/api/routes/knowledge-base.js:78 | splitting a comma-joined list of comma-free pieces gives back the pieces |
| Text.JoinSplit | backend/api/routes/knowledge-base.js:78 | joining the pieces of a split gives back the original string |
| Text.SplitPiecesExcludeSeparator | backend/api/routes/knowledge-base.js:78 | no piece of a split contains the separator |
| Text.RemoveAllNoOccurrence | livekit-voice-agent/tool.py:253 | `replace("sip_", "")` leaves a string without an occurrence unchanged |
| JsNumbers.IntOr | backend/api/routes/knowledge-base.js:15-16 | `parseInt(x) \|\| d` is `d` for NaN and 0, and the parsed value otherwise |
| JsNumbers.NumOr | backend/api/routes/knowledge-base.js:83 | `parseFloat(x) \|\| d` is `d` for NaN and 0, and the parsed value otherwise |
| JsNumbers.ParseRoundTrip | backend/api/routes/knowledge-base.js:73 | `parseInt` and `parseFloat` read back every integer written in decimal |
| Ranking.SortDescCorrect | backend/api/services/knowledge.service.js:190 | the descending sort returns a permutation of its input, ordered by the two keys |
| Ranking.SortDescMembers | backend/api/services/knowledge.service.js:190 | a row is in the sorted output exactly when it is in the input |
| Ranking.Window | backend/api/services/knowledge.service.js:291 | `LIMIT`/`OFFSET` returns the rows starting at the offset, as many as the limit allows |
| Schema.FindEntry | backend/api/services/knowledge.service.js:303-309 | finds the position of the row with an id, or reports that no row has it |
| Schema.FindPattern | backend/api/services/helpRequest.service.js:143-150 | finds the row with a given `question_pattern` (the upsert's conflict key), or reports that none has it |
| Schema.FindRequest | backend/api/services/helpRequest.service.js:93-102 | finds the position of the help request with an id, or reports that none has it |
| KnowledgeSearch.CappedLimit | backend/api/services/knowledge.service.js:34 | the effective limit is `min(max(1, limit), 20)`, always in [1, 20] |
| KnowledgeSearch.MaxTagSimilarity | backend/api/services/knowledge.service.js:138-142 | the maximum tag-word similarity is NULL exactly when there are no tags or no words, and otherwise is attained and bounds every pair |
| KnowledgeSearch.OverlapCountPositive | backend/api/services/knowledge.service.js:116-126 | the count of (entry tag, extracted tag) pairs with equal lower-case is positive exactly when such a pair exists |
| KnowledgeSearch.ExactMatches | backend/api/services/knowledge.service.js:39-46 | the exact stage returns exactly the active entries whose lower-cased pattern equals the lower-cased trimmed question |
| KnowledgeSearch.Candidates | backend/api/services/knowledge.service.js:151-189 | the fuzzy stage's rows are exactly the active admitted entries, each with its ladder score |
| KnowledgeSearch.FuzzyArmMatchesGate | backend/api/services/knowledge.service.js:138-188 | the fuzzy-tag arm of the `CASE` fires exactly when the fuzzy-tag admission gate holds |
| KnowledgeSearch.TierLadder | backend/api/services/knowledge.service.js:113-149 | each arm of the score ladder is taken exactly when its condition holds and no earlier one does |
| KnowledgeSearch.ScoreByTier | backend/api/services/knowledge.service.js:113-149 | overlap count c ≥ 1 scores `min(0.90, 0.70 + 0.05·c)`, which lies in [0.75, 0.90] and is 0.90 exactly when c ≥ 4; an exact tag hit scores 0.85; a fuzzy tag hit scores 0.75; otherwise the weighted composite, never negative for in-range signals |
| KnowledgeSearch.TagSignalFloor | backend/api/services/knowledge.service.js:113-149 | any tag signal puts the score in [0.75, 0.90] |
| KnowledgeSearch.OverlapRaisesWeakScore | backend/api/services/knowledge.service.js:113-149 | an extracted-tag overlap raises an entry that would otherwise score a composite below 0.75 |
| KnowledgeSearch.OverlapCanLowerScore | backend/api/services/knowledge.service.js:113-130 | an extracted-tag overlap of one can lower an entry from 0.85 (exact tag hit) to 0.75 |
| KnowledgeSearch.CompositeGateRedundant | backend/api/services/knowledge.service.js:168-189 | a composite above the threshold already implies one of the admission gates, so the composite is not a gate of its own |
| KnowledgeSearch.SearchResultsBounded | backend/api/services/knowledge.service.js:29-191 | a missing or blank question gives no rows; there are never more rows than the capped limit; every row is an active entry of the table |
| KnowledgeSearch.ExactStageShortCircuits | backend/api/services/knowledge.service.js:39-52 | when an active entry matches exactly, only exact matches are returned, each at score 1.0, as many as the capped limit allows; a given matching entry is among them when all matches fit under the limit |
| KnowledgeSearch.ExactStageSingle | backend/api/services/knowledge.service.js:39-52 | when exactly one row matches exactly, the search returns that row alone, at score 1.0 |
| KnowledgeSearch.FuzzyStageRanksAdmitted | backend/api/services/knowledge.service.js:151-191 | fuzzy rows are ordered by score and then `times_used`, descending; each is an active admitted entry carrying its ladder score |
| KnowledgeSearch.FuzzyStageKeepsBest | backend/api/services/knowledge.service.js:151-191 | an admitted entry is returned unless the limit is full of rows that rank at least as high |
| KnowledgeService.BumpUsageEffect | backend/api/services/knowledge.service.js:398-403 | incrementing raises `times_used` of the row with that id by one and changes nothing else; the total usage grows by one when the id exists and by zero otherwise |
| KnowledgeService.BumpUsageSum | backend/api/services/knowledge.service.js:398-403 | the total of `times_used` grows by exactly one when the id exists |
| KnowledgeService.IncrementUsageCount | backend/api/services/knowledge.service.js:398-403 | the method applies that increment to the table and keeps the database valid |
| KnowledgeService.SearchKnowledgeBase | backend/api/services/knowledge.service.js:23-251 | the method returns the search result and bumps the usage of the first returned entry only; an empty result changes nothing |
| KnowledgeService.SearchBumpsTopOnly | backend/api/services/knowledge.service.js:242-250 | after a non-empty search, the top entry's `times_used` rises by one, every other row is unchanged, and the total usage rises by one |
| KnowledgeService.GetKnowledgeById | backend/api/services/knowledge.service.js:303-309 | returns a row of the table with that id, or nothing exactly when no row has it |
| KnowledgeService.CreateOutcome | backend/api/services/knowledge.service.js:316-329 | a missing or empty pattern or answer is refused; a trimmed pattern that is already taken is a unique violation; otherwise the row is trimmed, tagged (default `[]`), active, unused and not learned |
| KnowledgeService.CreateKeepsValid | backend/api/services/knowledge.service.js:316-329 | appending the created row keeps ids and patterns unique |
| KnowledgeService.CreateKnowledgeEntry | backend/api/services/knowledge.service.js:316-329 | the method appends exactly the created row, or changes nothing on an error |
| KnowledgeService.CreatedEntryIsFound | backend/api/services/knowledge.service.js:316-329 | after creation, a question equal to the pattern up to case and padding is answered by the exact stage at score 1.0; the created row is among the results unless more matching rows than the limit crowd it out, and it is the only result when no other active row matches it ignoring case |
| KnowledgeService.AllowedAssignments | backend/api/services/knowledge.service.js:338-349 | the `SET` list keeps exactly the defined values of allowed fields, in order |
| KnowledgeService.CollectSetClauses | backend/api/services/knowledge.service.js:343-349 | the loop over the update's keys builds exactly that list |
| KnowledgeService.Assign | backend/api/services/knowledge.service.js:357-363 | each named column takes its new value, other columns keep theirs, and `updated_at` becomes now |
| KnowledgeService.UpdateOutcome | backend/api/services/knowledge.service.js:337-370 | an update with no defined value of an allowed field is refused before anything else; a value not of its column's kind is rejected; otherwise an unknown id is exactly the "not found" case; success returns that id's row with the named columns assigned and a pattern no other row holds |
| KnowledgeService.UpdateConflict | backend/api/services/knowledge.service.js:355-361 | on a valid table, an acceptable update of a known row fails with the unique violation exactly when it sets the pattern to one another row holds, and succeeds otherwise |
| KnowledgeService.UpdateTouchesOnlyNamedFields | backend/api/services/knowledge.service.js:337-370 | a successful update keeps id, usage, provenance and creation time, changes only the named fields and keeps the table valid |
| KnowledgeService.NotAssignedWhenNotNamed | backend/api/services/knowledge.service.js:343-349 | a column the update does not name with a defined value gets no assignment |
| KnowledgeService.UpdateKnowledgeEntry | backend/api/services/knowledge.service.js:337-370 | the method writes the updated row in place, or changes nothing on an error |
| KnowledgeService.DeleteOutcome | backend/api/services/knowledge.service.js:377-391 | delete is refused exactly for an unknown id; otherwise it returns the row deactivated, with `updated_at` now and nothing else changed |
| KnowledgeService.DeleteKnowledgeEntry | backend/api/services/knowledge.service.js:377-391 | the method writes the deactivated row in place, or changes nothing on an error |
| KnowledgeService.SoftDeletedIsHidden | backend/api/services/knowledge.service.js:377-391 | a soft-deleted entry can still be read by id but is never returned by a search |
| KnowledgeService.SoftDeleteUndone | backend/api/services/knowledge.service.js:337-391 | updating `is_active` to true restores a soft-deleted row, apart from `updated_at` |
| KnowledgeService.ProvenanceOf | backend/api/services/knowledge.service.js:266-282 | an entry is seeded exactly when it has no learned-from request; otherwise the joined request is the one with that id, or absent when no request has it |
| KnowledgeService.Listing | backend/api/services/knowledge.service.js:263-288 | the listed rows are exactly the entries (active ones only when asked), each with its provenance |
| KnowledgeService.ListKnowledge | backend/api/services/knowledge.service.js:258-296 | a negative limit or offset is rejected by the database; otherwise there are at most `limit` rows |
| KnowledgeService.ListKnowledgeCorrect | backend/api/services/knowledge.service.js:258-296 | listed rows are ordered by `times_used` and then `created_at`, descending; each carries its provenance; with offset 0 and a large enough limit, every eligible entry is listed |
| KnowledgeService.MostUsedEntry | backend/api/services/knowledge.service.js:419-429 | the most-used entry is an active entry used at least as often as every active entry; there is none exactly when no entry is active |
| KnowledgeService.KnowledgeStatistics | backend/api/services/knowledge.service.js:409-434 | the total counts every row; the usage sum is NULL exactly for an empty table; there is no most-used entry exactly when none is active |
| KnowledgeService.KnowledgeStatisticsConsistent | backend/api/services/knowledge.service.js:409-434 | active + inactive = total, seeded + learned = active, and the most-used entry is an active entry with the highest usage |
| HelpRequestService.TimeoutMinutes | backend/api/services/helpRequest.service.js:20 | the timeout in minutes is never zero |
| HelpRequestService.TimeoutMinutesDefaults | backend/api/services/helpRequest.service.js:20 | an unset, empty or unparsable setting gives 30 minutes |
| HelpRequestService.TimeoutMinutesOfInteger | backend/api/services/helpRequest.service.js:20 | a setting written as an integer n gives n minutes, or 30 when n is 0 |
| HelpRequestService.CreateRequestOutcome | backend/api/services/helpRequest.service.js:13-39 | a missing or empty phone or question is refused; otherwise the request is pending, with `timeout_at = now + minutes·60` and nothing resolved |
| HelpRequestService.CreateHelpRequest | backend/api/services/helpRequest.service.js:13-39 | the method appends exactly the created request, or changes nothing on an error |
| HelpRequestService.GetHelpRequestById | backend/api/services/helpRequest.service.js:67-74 | returns a request with that id, or nothing exactly when no request has it |
| HelpRequestService.WithStatus | backend/api/services/helpRequest.service.js:46-54 | the filter keeps exactly the requests with the asked status, or every request when none is asked |
| HelpRequestService.GetHelpRequests | backend/api/services/helpRequest.service.js:46-60 | a negative limit or offset is rejected by the database; otherwise there are at most `limit` requests |
| HelpRequestService.GetHelpRequestsCorrect | backend/api/services/helpRequest.service.js:46-60 | requests come newest first and match the status filter; with offset 0 and a large enough limit, all matching requests are returned |
| HelpRequestService.GetStatistics | backend/api/services/helpRequest.service.js:203-215 | the total counts every request and bounds each status count |
| HelpRequestService.StatisticsAddUp | backend/api/services/helpRequest.service.js:203-215 | the pending, resolved and unresolved counts add up to the total |
| HelpRequestService.RespondOutcome | backend/api/services/helpRequest.service.js:82-138 | a blank answer is refused before anything else; an unknown id is "not found"; a request that is not pending is refused with its status; a pending request past its deadline has timed out; otherwise the request is resolved with the answer at now |
| HelpRequestService.Upsert | backend/api/services/helpRequest.service.js:143-152 | the learning upsert always consumes one id |
| HelpRequestService.UpsertCorrect | backend/api/services/helpRequest.service.js:143-152 | afterwards the pattern has exactly one row, holding the new answer and the request as its source; an existing row keeps its tags, activity and usage; a new row is active, unused and untagged; other rows are unchanged and ids and patterns stay unique |
| HelpRequestService.LearnTwice | backend/api/services/helpRequest.service.js:143-152 | learning the same pattern twice leaves a single row holding the second answer |
| HelpRequestService.LearnedIntoInactiveRowIsHidden | backend/api/services/helpRequest.service.js:146-150 | an answer learned into a soft-deleted row stays inactive and is never found by search |
| HelpRequestService.LearnedAnswerIsFound | backend/api/services/helpRequest.service.js:143-152 | asking an unpadded learned question again in any letter case is answered at score 1.0; the learned row holds the answer and its request and is among the results unless more case-variant rows than the limit crowd it out, and it is the only result when no other active row matches it ignoring case |
| HelpRequestService.PaddedPatternNeverExact | backend/api/services/helpRequest.service.js:143-151 | a pattern learned with surrounding white space can never be an exact match for a trimmed question |
| HelpRequestService.RespondToHelpRequest | backend/api/services/helpRequest.service.js:82-170 | on success, the request row is resolved and the knowledge table is upserted together; on any error, including a timeout after the forced update, both tables are unchanged |
| HelpRequestService.RespondTouchesOneRequest | backend/api/services/helpRequest.service.js:100-138 | a request that is not pending is refused with its status; a successful respond concerns the one row with that id |
| HelpRequestService.ExpiredRequests | backend/api/services/helpRequest.service.js:177-197 | the sweep returns exactly the pending requests whose deadline lies before now |
| HelpRequestService.ProcessTimeouts | backend/api/services/helpRequest.service.js:177-197 | the method sweeps exactly the expired requests to unresolved, returns them and leaves the knowledge table alone |
| HelpRequestService.SweepEffect | backend/api/services/helpRequest.service.js:177-197 | expired requests become unresolved; every other request, and every request that is not pending, is unchanged; none is expired afterwards |
| HelpRequestService.SweepIdempotent | backend/api/services/helpRequest.service.js:177-197 | a second sweep at the same time changes nothing and returns nothing |
| HelpRequestService.DeadlineAgreement | backend/api/services/helpRequest.service.js:109-127 | for a pending request, respond reports a timeout exactly when the sweep would move it (its deadline lies before now) |
| KnowledgeRoutes.SearchLimit | backend/api/routes/knowledge-base.js:73-74 | the search limit always lies in [1, 20] |
| KnowledgeRoutes.SearchLimitDecoded | backend/api/routes/knowledge-base.js:73-74 | a missing or zero limit gives 5; an integer limit is clamped to [1, 20] |
| KnowledgeRoutes.Threshold | backend/api/routes/knowledge-base.js:83 | the decoded threshold is never NaN or zero |
| KnowledgeRoutes.ThresholdDecoded | backend/api/routes/knowledge-base.js:83 | a missing or zero threshold gives 0.3; an integer is taken as it is |
| KnowledgeRoutes.CleanTag | backend/api/routes/knowledge-base.js:78 | a cleaned tag is lower-case and trimmed, and empty exactly when the raw tag is blank |
| KnowledgeRoutes.CleanTags | backend/api/routes/knowledge-base.js:78 | every produced tag is non-empty, lower-case and trimmed |
| KnowledgeRoutes.ParseExtractedTags | backend/api/routes/knowledge-base.js:77-79 | an absent or empty parameter gives null; otherwise only non-empty, lower-case, trimmed tags |
| KnowledgeRoutes.ExtractedTagsRoundTrip | backend/api/routes/knowledge-base.js:77-79 | a comma-joined list of comma-free tags decodes to those tags, cleaned; clean tags come back unchanged |
| KnowledgeRoutes.CleanTagsOfCleanTags | backend/api/routes/knowledge-base.js:78 | cleaning tags that are already clean changes nothing |
| KnowledgeRoutes.DecodeSearchQuery | backend/api/routes/knowledge-base.js:63-85 | a missing or empty `q` is refused; otherwise the service gets `q`, a limit in [1, 20], a non-zero threshold, and null tags exactly when the parameter is absent or empty |
| KnowledgeRoutes.ShapeSearchReply | backend/api/routes/knowledge-base.js:88-104 | `found` is false exactly for an empty result, with `count` 0; otherwise `count` is the number of entries |
| KnowledgeRoutes.HandleSearch | backend/api/routes/knowledge-base.js:61-108 | without `q` the route answers 400 and the database is untouched; otherwise it answers the service's search result and the usage bump |
| KnowledgeRoutes.DecodeListQuery | backend/api/routes/knowledge-base.js:14-18 | `active_only` is false exactly for the text `'false'`; absent limit and offset give 100 and 0 |
| KnowledgeRoutes.ListQueryDecoded | backend/api/routes/knowledge-base.js:14-18 | integer parameters are taken as they are (zero limit gives 100); a negative limit ends in status 500 |
| KnowledgeRoutes.ListKnowledgeRoute | backend/api/routes/knowledge-base.js:10-30 | the route lists with the decoded options |
| KnowledgeRoutes.ErrorHandlerStatus | backend/api/server.js:88-100 | the error handler answers 409 exactly for a unique violation and 500 otherwise |
| KnowledgeRoutes.CreateRouteStatuses | backend/api/routes/knowledge-base.js:140-174 | create answers 400 exactly for a missing or empty pattern or answer, 409 exactly for a taken trimmed pattern, and 201 otherwise; the service's own required-field check is never what refuses |
| KnowledgeRoutes.UpdateRouteStatuses | backend/api/routes/knowledge-base.js:181-210 | update answers 400 exactly when no allowed field has a defined value, 500 exactly when a value is not of its column's kind, 404 exactly for an acceptable body and an unknown id, and on a valid table 409 exactly when the body sets the pattern to one another row holds and 200 otherwise |
| KnowledgeRoutes.DeleteRouteStatuses | backend/api/routes/knowledge-base.js:216-235 | delete answers 404 exactly when reading the id answers 404; after a delete the entry can still be read |
| VoiceTool.ClassifyTier | livekit-voice-agent/tool.py:121-129 | the tier is high (threshold 0.7) exactly when the top score is at least 0.7, medium (0.4) exactly when it is in [0.4, 0.7), and low (0.3) otherwise |
| VoiceTool.RoundHalfEven | livekit-voice-agent/tool.py:139 | the result is the nearest integer, ties going to the even one |
| VoiceTool.Round2 | livekit-voice-agent/tool.py:139 | `round(x, 2)` is within 0.005 of x |
| VoiceTool.Round2KeepsCutoff | livekit-voice-agent/tool.py:135-139 | rounding never takes a qualifying score below a threshold that is a whole number of hundredths |
| VoiceTool.Format | livekit-voice-agent/tool.py:136-142 | `has_tags` holds exactly for a present, non-empty tag list; the score is the rounded score |
| VoiceTool.KeptPositions | livekit-voice-agent/tool.py:133-135 | the positions the filter keeps are increasing, all qualify, include every qualifying position, and start at 0 when the first row qualifies |
| VoiceTool.QualifyingInServerOrder | livekit-voice-agent/tool.py:133-142 | the formatted results are exactly the qualifying rows, formatted, in server order |
| VoiceTool.FormatResults | livekit-voice-agent/tool.py:132-142 | the loop builds exactly the formatted qualifying rows |
| VoiceTool.FormattedScoresClearThreshold | livekit-voice-agent/tool.py:121-142 | every formatted score, after rounding, is at least the tier's threshold |
| VoiceTool.TopResultKept | livekit-voice-agent/tool.py:118-142 | in the high and medium tiers the top result is kept, first; the list is empty only in the low tier with a top score below 0.3 |
| VoiceTool.AttemptAnswer | livekit-voice-agent/tool.py:111-153 | an answer comes only from a 200 reply with `success`, `found` and data; it counts its results and has between one and five |
| VoiceTool.Attempt | livekit-voice-agent/tool.py:111-153 | one search reply through the classifier and the filter loop gives that answer, or not found |
| VoiceTool.CheckKnowledgeBase | livekit-voice-agent/tool.py:94-230 | the tool's reply is the first attempt's answer, else the tag-based attempt's answer, else `"not_found"` |
| VoiceTool.FoundReplyShape | livekit-voice-agent/tool.py:117-153 | a found reply has `count` equal to the number of results, between one and five, each at least the reported tier's threshold |
| VoiceTool.NotFoundPaths | livekit-voice-agent/tool.py:154-230 | a failed or non-200 first search gives `"not_found"`; so does no answer from either attempt; the second search matters only when the first has a 200 reply, no answer, and there are tags |
| VoiceTool.SecondSearchCarriesTags | livekit-voice-agent/tool.py:160-171 | the server decodes the comma-joined tags of the second search back into the agent's tags, provided they are clean and comma-free |
| VoiceTool.ExtractQueryTags | livekit-voice-agent/tool.py:25-90 | extracted tags are lower-case; no API key gives none; a 200 reply with a JSON list gives its elements lower-cased one for one; anything else gives none |
| VoiceTool.PhoneFromIdentity | livekit-voice-agent/tool.py:253 | the phone is the identity with every `"sip_"` removed, or `"unknown"` when nothing is left |
| VoiceTool.PhoneOf | livekit-voice-agent/tool.py:247-255 | the phone is never empty, and is `"unknown"` when no participant is a SIP participant |
| VoiceTool.ExtractPhone | livekit-voice-agent/tool.py:247-255 | the loop with its `break` returns the phone of the first SIP participant |
| VoiceTool.PhoneOfSipCaller | livekit-voice-agent/tool.py:250-255 | a SIP identity `"sip_" + number` gives the number when the number holds no further `"sip_"`, and the first SIP participant wins |
| VoiceTool.PhoneReplaceRemovesEveryOccurrence | livekit-voice-agent/tool.py:253 | every occurrence is removed: `"sip_sisip_p_"` gives `"sip_"`, and `"sip_"` alone gives `"unknown"` |

## Left out

- HTTP transport, JSON encoding, logging and `console.log` output are not modelled. This includes the debug block of the search, with its 0.6 "fuzzy" label, which is only logged.
- Postgres `similarity`, `normalize_question`, `ts_rank` and the full-text match are uninterpreted functions, with range assumptions only where a lemma needs them.
- UUID ids are modelled as a counter. The learning upsert consumes a counter value even when it updates an existing row, like a column default evaluated before the conflict check.
- Time is whole seconds from a `now` parameter. The application clock (used by respond) and the database clock (used by the sweep) are taken to agree.
- Concurrency is not modelled. Respond and the sweep are atomic steps; transaction isolation and the scheduling by the cron job and `setInterval` are left out.
- The simulated notifications to the supervisor and the customer are only logging, so they are left out.
- Averages are left out: `avg_uses_per_entry` and `avg_resolution_time_minutes` are floating-point aggregates.
- KnowledgeService.KnowledgeStatistics: counts are natural numbers, not the strings Postgres returns for `COUNT`.
- KnowledgeSearch.SearchResults, KnowledgeSearch.ExactMatches and Ranking.SortDesc: rows with equal `(similarity_score, times_used)`, and all rows of the exact stage, which has no `ORDER BY`, come back in storage order. Postgres leaves that order unspecified, so this tie-break, and with it which row the search bumps, is the model's choice.
- Lower-casing is ASCII only. Postgres `LOWER`, JavaScript `toLowerCase` and Python `lower` also fold non-ASCII letters.
- VoiceTool.Round2: rounds the exact real value half-to-even. Python rounds the binary double, which can differ on ties such as 2.675.
- VoiceTool.ScoreOf: a `similarity_score` that is JSON null, which would make `float()` raise and the tool answer `"not_found"`, is not modelled. An absent score counts as 0.
- KnowledgeService.UpdateOutcome: only values of the kind their column holds (text, a tag list or a flag) are modelled. The driver sends parameters as text, so Postgres accepts many other values (`true` as an answer, `"false"` or `1` as `is_active`, a list as the pattern); what it stores for them is outside this model, which answers `DbRejected` for them. JSON null values are outside the model too.
- JsNumbers.ParseInt: reads decimal and `0x` hexadecimal digits as exact integers. Its double-precision rounding of very long numbers is not modelled, and neither is `parseFloat`'s.
- The query-string decoding takes each parameter as one string. Repeated parameters, which Express turns into arrays, are not modelled.
- The unique constraint on `question_pattern` is exact string equality. Whether the real constraint is case-insensitive is not part of this model.
- Schema defaults are taken as written in the inserts: new entries are active and unused, with tags `[]` when none are given.
- A `status` filter with a text other than the three statuses is not modelled: the filter is an `Option<Status>`.
- The route passes `confidence_threshold` to create, but the service ignores it, so it is not modelled.
- `backend/api/routes/help-requests.js` is not part of this model, and neither are `agent.py`, `prompt.py` and `end_call`.
- The rest of `create_help_request` is not modelled: the job context, the HTTP post and the reply text. Only the phone extraction is.
- The chat-completion request of `extract_query_tags` is not modelled; only its outcome is.
- VoiceTool.ExtractQueryTags: each element of the returned JSON list is taken as the text Python's `str` gives it.
