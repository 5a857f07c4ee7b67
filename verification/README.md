# feez: provider fallback and worksheet lines, in Dafny

feez is a Finnish-to-English handwriting worksheet generator. Its Flask
backend (`feez/app.py`) translates text through four free translation
providers, in the fixed order LibreTranslate, MyMemory, Google and Lingva.
A provider whose failure reads as a rate limit is put on a 60-second
cooldown in a process-wide map. The page script (`feez/static/script.js`)
splits the text areas into cleaned lines and pairs Finnish with English
lines. It falls back to three example phrases and sends the Finnish lines
to the backend one by one.

This project models that core as pure functions:

- `Text` is whitespace trimming (Python `strip`, JavaScript `trim`),
  ASCII lower-casing, substring search, and `split`/`join` on a
  separator.
- `Lines` is the page's line cleaning: split on newlines, trim every
  line, drop the empty ones.
- `Tracker` is the cooldown map `rate_limited_services`:
  `is_service_available` with lazy deletion, and
  `mark_service_rate_limited`.
- `Classifier` is `is_rate_limit_error` plus the way each adapter turns
  an HTTP reply into a translation or an exception message.
- `Orchestrator` is `try_all_services`, the priority scan. A `Run`
  records the outcome, the map left behind and the providers invoked.
- `Routes` holds the service selection of `/api/translate` and the route
  itself with its status codes.
- `Batch` is `/api/translate-batch`, which threads the map through the
  lines of one request.
- `Worksheet` is `addPhrase`, `generateWorksheet`, the default phrases
  and the short progress line.
- `Progress` is the per-line accumulation and final status of
  `translateToEnglish`, and reading the English area back.

The clock is a parameter: `now` (whole seconds) for one request, and
`clock(j)` for line `j` of a batch. A provider adapter is a function
`Adapters = (key, text) -> Ok(text) | Err(message)`, fixed for the
duration of one request.

Three behaviours of the code that a reader may not expect, all of which
the model follows:

- The batch sends each line to the providers unstripped.
- An unknown service gets HTTP 400 from `/api/translate` but 200, with a
  per-line "Invalid service", from the batch.
- A provider asked for by name has its answer accepted even when it is
  empty, whereas the scan skips an empty answer as falsy.

## Model

| member | source | states |
|---|---|---|
| Text.Trim | feez/app.py:223 | the result has no surrounding whitespace and is the input with only whitespace cut from both ends; it is empty exactly when the input is all whitespace |
| Text.TrimTrimmed | feez/static/script.js:26-36 | trimming an already trimmed line changes nothing |
| Text.Lower | feez/app.py:80 | lower-casing keeps the length and maps every character through the ASCII lower-case table |
| Text.LowerIdempotent | feez/app.py:79-80 | a lower-cased message has no upper-case letter left, and lower-casing it again changes nothing |
| Text.Contains | feez/app.py:80 | `keyword in message` holds exactly when the keyword occurs at some position |
| Text.Split | feez/static/script.js:35 | `split('\n')` gives at least one piece, no piece holds the separator, and joining the pieces gives the text back |
| Text.SplitJoin | feez/static/script.js:35 | splitting lines joined with a separator none of them contains gives the lines back |
| Text.JoinInjective | feez/static/script.js:280 | two lists of separator-free lines with the same join are equal |
| Text.JoinTrimmed | feez/static/script.js:280 | a join whose first and last pieces are non-empty and trimmed is non-empty and trimmed, so trimming the whole area changes nothing |
| Lines.NonBlankLines | feez/static/script.js:35-36 | the cleaned lines are non-empty and trimmed, keep their order (a subsequence of the trimmed pieces) and keep every non-empty piece with its multiplicity |
| Lines.NonBlankTextHasLine | feez/static/script.js:213-225 | text that is not all whitespace yields at least one cleaned line |
| Lines.SingleLine | feez/static/script.js:35-36 | a trimmed non-empty text without a newline is cleaned to itself alone |
| Tracker.CheckAvailable | feez/app.py:62-70 | available exactly when there is no unexpired record; an expired record is deleted; an unavailable answer changes nothing; other providers' records are untouched |
| Tracker.MarkRateLimited | feez/app.py:72-75 | the provider's record becomes `now`, no other record changes, and no key other than it is added |
| Tracker.NoRecordAvailable | feez/test_app.py:140-142 | a provider without a record is available and the check leaves the map alone |
| Tracker.MarkedIsUnavailable | feez/test_app.py:144-147 | within the cooldown after being marked, a provider is unavailable and the map is not changed |
| Tracker.MarkExpires | feez/test_app.py:149-156 | once the cooldown has elapsed, a marked provider is available again and its record alone is deleted |
| Tracker.CheckTwice | feez/app.py:62-70 | a second check right after the first gives the same answer and changes nothing |
| Tracker.AvailableFrame | feez/app.py:62-70 | availability depends only on the record of the provider asked about |
| Tracker.AvailableLater | feez/app.py:64-66 | an available provider stays available as time goes on |
| Classifier.IsRateLimitError | feez/app.py:77-80 | a message is a rate-limit error exactly when one of the five keywords occurs in its lower-cased form |
| Classifier.KeywordAt | feez/app.py:77-80 | a keyword occurring anywhere in the message, in any letter case, makes it a rate-limit error |
| Classifier.RateLimitExceededIsRateLimit | feez/app.py:94-95 | "Rate limit exceeded", the message every adapter raises on HTTP 429, is a rate-limit error |
| Classifier.NoKeyword | feez/app.py:77-80 | a message lacking some piece of every keyword is not a rate-limit error |
| Classifier.RateLimitExamples | feez/test_app.py:158-163 | "Rate limit exceeded", "Too many requests", "429 error" and "Quota limit exceeded" are rate-limit errors |
| Classifier.ConnectionErrorExample | feez/test_app.py:164 | "Connection error" is not a rate-limit error |
| Classifier.Normalize | feez/app.py:83-173 | a 429 reply always becomes "Rate limit exceeded"; the adapter succeeds exactly on a non-429 reply with a non-empty translation field and, for MyMemory, a `responseStatus` of 200, and returns that field; any other reply fails with the adapter's own "… translation failed" message; a transport fault keeps its message |
| Classifier.NoResultNotRateLimit | feez/app.py:102-170 | none of the four "translation failed" messages of the adapters is a rate-limit error |
| Classifier.NormalizedClassification | feez/app.py:94-102 | of the HTTP replies, exactly a 429 leads to a rate-limit classification, so a missing translation never starts a cooldown |
| Orchestrator.PriorityDistinct | feez/app.py:176-181 | the four provider keys of the priority order are different |
| Orchestrator.Candidates | feez/app.py:185-188 | the providers the scan may invoke are exactly those of the order that are available, without repeats |
| Orchestrator.ScanCalls | feez/app.py:184-210 | the scan invokes the available providers in order up to and including the first truthy one, or all of them, and reports that one's text or "All translation services failed" |
| Orchestrator.ScanLimits | feez/app.py:185-205 | after the scan only invoked providers' records differ; an invoked provider has a record exactly when it failed with a rate-limit message, and that record is `now` |
| Orchestrator.ScanContract | feez/app.py:184-210 | over any distinct order of providers, the scan invokes available ones only, each once; a success is the last invoked provider's non-empty text; a failure is "All translation services failed"; only invoked providers' records change, each ending with a record exactly when it was rate-limited |
| Orchestrator.TryAll | feez/app.py:183-210 | only known, available providers are invoked, each once; a success names the last invoked provider, whose text is non-empty and is the translation; a failure is "All translation services failed"; only invoked providers' records change, and each ends with a record exactly when it was rate-limited |
| Orchestrator.TryAllNoRateLimit | feez/app.py:199-205 | with no rate-limit failure, the map afterwards is the map before less the records of the invoked providers, which were expired; with no expired record it is unchanged |
| Orchestrator.CandidatesOrdered | feez/app.py:185 | the candidates list keeps the priority order of the keys |
| Orchestrator.TryAllFirstSuccess | feez/app.py:185-198 | a success comes from the first available provider in priority order with a non-empty text; every other provider invoked failed, and exactly the available providers up to it were invoked |
| Orchestrator.TryAllExhausted | feez/app.py:199-210 | when every provider fails, the result is "All translation services failed" and every available provider was invoked exactly once |
| Orchestrator.FallbackExample | feez/test_app.py:228-237 | starting with no records, when LibreTranslate fails with another error, MyMemory is rate-limited and Google answers "Hello", the answer is Google's "Hello"; the first three providers were invoked in order and only MyMemory is now on cooldown |
| Routes.Dispatch | feez/app.py:232-257 | an unknown key is refused with nothing invoked; only known, available providers are invoked; an available requested provider is invoked first, and when it answers the request ends after that single call with its answer; one on cooldown is not invoked and the run is exactly the scan's; a failure of every provider means every provider available at the start was invoked and none gave a non-empty text; a success from a provider other than the one asked for is the first available one in priority with a non-empty text; only invoked providers' records change |
| Routes.Requested | feez/app.py:242-257 | a known provider on cooldown is not invoked and the run is exactly the scan from the same map; an available one is invoked first, and an answer of its own, even an empty one, ends the request after that single call; a failure means every provider available at the start was invoked and none gave a non-empty text; a success from another provider is the first available one in priority with a non-empty text |
| Routes.FailedThenScan | feez/app.py:254-257 | after the requested provider raised, it stays the first invoked and the scan follows: a failure means every provider available at the start was invoked and none gave a non-empty text; a success is a later provider's non-empty text, with no earlier available provider having one; records change only for invoked providers, each ending with a record exactly when it was rate-limited |
| Routes.ScanAfterFailure | feez/app.py:254-257 | the scan from the map that records the raise, when it fails, has invoked every other provider available at the start; when it succeeds, the winner is not the failed provider and no earlier available provider had a non-empty text |
| Routes.FailureHandsOver | feez/app.py:248-257 | after the requested provider raises, the request is exactly that one call followed by `try_all_services` from the map that records its failure (rate-limit mark included) |
| Routes.TryAllSemantics | feez/app.py:184-210 | the scan's failure has invoked every provider available at the start and found no non-empty text; its winner is the first available provider in priority with a non-empty text |
| Routes.CooldownHandsOver | feez/app.py:243-245 | a requested provider on cooldown is handled exactly as "auto" |
| Routes.OtherFailureRetried | feez/app.py:248-257 | a requested provider failing with another error is invoked first and left without a record; the scan invokes it again exactly when it reaches it: immediately when it is LibreTranslate, in every failing run, and in a successful run exactly when the provider that answers comes after it in priority |
| Routes.RetriedBeforeWinner | feez/app.py:254-257 | when the scan after a non-rate-limit failure succeeds, the failed provider, now without a record, appears in it once if it precedes the winner in priority and not at all otherwise |
| Routes.RateLimitedNotRetried | feez/app.py:254-257 | a requested provider failing with a rate limit is invoked once, marked with `now`, and skipped by the scan that follows |
| Routes.EmptyAnswerAccepted | feez/app.py:248-254 | an empty text from the requested provider is returned as a success, while the scan never succeeds with an empty text (the normalised adapters never answer an empty text) |
| Routes.Translate | feez/app.py:218-262 | blank text gets 400 "No text provided" before anything is invoked; otherwise the run is the selection's on the stripped text, so an unknown service gets 400 with nothing invoked; 200 exactly on success, 400 exactly for blank text or an unknown service, 503 exactly when every provider failed; a success is the named provider's own answer for the stripped text |
| Routes.Respond | feez/app.py:226-262 | for the stripped text: empty text is 400 "No text provided" with nothing invoked; otherwise the run is the selection's; 200 exactly on success; 400 exactly for empty text or an unknown service; 503 exactly when every provider failed |
| Routes.TranslateIgnoresSurroundingSpace | feez/app.py:223 | surrounding whitespace of the request text makes no difference to the answer |
| Batch.LineRun | feez/app.py:288-317 | a line gets "Empty line" exactly when it is blank, and then nothing is invoked and no record changes; other lines invoke only known, available providers and change only their records |
| Batch.RunLines | feez/app.py:287-322 | one result and one call trace per line, the first being that line's outcome against the incoming map |
| Batch.RunLinesBlank | feez/app.py:288-294 | over a whole batch, line `j` is "Empty line" exactly when it is blank, and a blank line invokes nothing |
| Batch.RunLinesKnown | feez/app.py:296-317 | no line of a batch invokes anything but the four known providers |
| Batch.RunLinesFrame | feez/app.py:287-320 | a provider invoked for no line of the batch keeps its record |
| Batch.RunLinesAppend | feez/app.py:287-322 | handling the lines in two parts, the second part starting from the map the first left, is the same as handling them all at once |
| Batch.RunLinesSnoc | feez/app.py:287-322 | the batch is a left fold: one more line at the end is handled at its own instant from the map all earlier lines left, and appends its result and calls |
| Batch.LineHandler | feez/app.py:287-317 | the per-line handler answers "Empty line" exactly for blank lines, and changes only the records of the providers it invokes |
| Batch.TranslateBatch | feez/app.py:271-327 | an empty list is refused with 400 "No lines provided"; otherwise 200 with one result per line, "Empty line" exactly for blank lines, which invoke nothing, and only known providers invoked |
| Batch.BatchPassesRawLine | feez/app.py:296-317 | a non-blank line goes to the service selection with its surrounding whitespace |
| Batch.BatchAgreesWithTranslate | feez/app.py:296-317 | for a trimmed line, the batch and `/api/translate` come to the same outcome |
| Batch.InvalidServiceLines | feez/app.py:301-305 | with an unknown service every non-blank line is "Invalid service", blank ones "Empty line", nothing is invoked and no record changes |
| Batch.InvalidServiceLine | feez/app.py:287-302 | with an unknown service one line gets "Empty line" when blank and "Invalid service" otherwise, invokes nothing and changes no record |
| Batch.InvalidServiceRoutesDiffer | feez/app.py:236-303 | an unknown service gets 400 from `/api/translate` (lines 236-241) but 200 from the batch (lines 299-303), with "Invalid service" on each non-blank line |
| Worksheet.PairLines | feez/static/script.js:39-45 | one phrase per index up to the longer side; at each index the line on each side, or that side's placeholder |
| Worksheet.PairingKeepsLines | feez/static/script.js:39-45 | the Finnish column begins with the Finnish lines and the English column with the English lines; every later entry is the placeholder |
| Worksheet.ReadLines | feez/static/script.js:26-36 | the lines read from an area are non-empty and trimmed, and there is at least one when the area is not blank |
| Worksheet.AddPhrase | feez/static/script.js:25-56 | a blank Finnish area is refused and stores nothing; otherwise at least one phrase is appended, one per index up to the longer side, and the stored phrases are kept in front |
| Worksheet.PhrasesToDisplay | feez/static/script.js:58-91 | the list is never empty; the typed pairs (only when both areas are filled in) come before the stored phrases; with neither, the three example phrases are shown |
| Worksheet.ShortLine | feez/static/script.js:332 | a line of up to 30 characters is shown whole; a longer one as its first 30 characters followed by "..." |
| Worksheet.ShortLineIdempotent | feez/static/script.js:332 | the short form has at most 33 characters, starts like the line, and is its own short form |
| Progress.StartTranslation | feez/static/script.js:209-225 | blank text and a running translation are refused in that order; otherwise the cleaned lines, of which there is at least one, so the "at least one line" guard never fires |
| Progress.Accumulate | feez/static/script.js:250-292 | one entry per line sent, the translation or "[Translation failed]"; the two counters add up to the entries, and the success counter counts the successful replies |
| Progress.StatusOfReplies | feez/static/script.js:294-305 | for a run nobody cancelled (at least one line, as the start guards ensure): "all translated" with every line counted exactly when every reply is a success, "all failed" exactly when every reply is a failure, and "some failed" with both kinds present and the two counts adding up to the number of lines |
| Progress.EnglishAreaRoundTrip | feez/static/script.js:280 | the English area, filled with the translations joined by newlines and read back with the worksheet's `ReadLines`, gives back the translations when each is a non-empty trimmed single line |
| Progress.EmptyTranslationLost | feez/static/script.js:268-290 | when a translation is blank (empty or whitespace only), reading the English area back line by line gives fewer lines than were translated, and so does `ReadLines` when the first and last entries are non-blank and trimmed: the English column shifts against the Finnish one |

## Left out

- HTTP and JSON plumbing are not modelled beyond the status codes and the
  outcome: `request.get_json()`, `jsonify` and the `success` flag. The
  500 answer on an unexpected exception is left out too, because the
  modelled code raises no exception of its own.
- The network bodies of the four adapters (URLs, API keys, JSON parsing
  and timeouts) are left out. The adapters are a parameter. `Normalize`
  models only how a reply becomes a text or a message.
- The clock is an integer parameter. Python's `time.time()` is a float,
  read afresh by each check and mark. The model uses one instant per
  request, and one per batch line.
- An adapter gives the same answer for the same text throughout one
  request. Non-determinism between the two calls of a retried provider
  is not modelled.
- `time.sleep(0.5)` in the batch and the `setTimeout` delays in the page
  only pass time. They are left out; the batch's clock parameter covers
  their effect on cooldowns.
- Text.Trim: one whitespace set (space, tab, newline, carriage return,
  vertical tab, form feed) stands for both Python's `str.strip` and
  JavaScript's `trim`. Python also strips the separators `\x1c`-`\x1f`
  and `\x85`, which JavaScript keeps, so a request or batch line made
  only of those is refused (or "Empty line") by the server but
  dispatched in the model. JavaScript also strips `\ufeff`, which Python
  keeps. Both strip `\u00a0`, the other Unicode space separators,
  `\u2028` and `\u2029`; the model keeps all of these.
- Lower-casing is ASCII only: Unicode case folding in
  `is_rate_limit_error`, and JavaScript's UTF-16 `length` in `shortLine`,
  are not modelled.
- Concurrency is not modelled. `rate_limited_services` (feez/app.py:39)
  is one dictionary shared by all requests, and the development server
  (feez/app.py:368) handles requests on several threads. The model takes
  each request, and each batch, as one step on the limit map, so records
  written by a request running at the same time are not seen mid-request.
- The empty `translation` field of an "Empty line" batch entry is not
  modelled. The entry is the failure outcome alone.
- `/api/services`, `index`, logging, configuration and the DOM are left
  out: rendering, colours, focus, the progress percentage and
  `createPracticeBlock`.
- `translateViaAPI` is a parameter of `Accumulate`: the reply per line,
  with a network or parse error counted as a failure.
- The page's `translateBatchViaAPI` is left out: the page never calls it.
- Cancelling is modelled as the line before which the loop sees the flag.
  The asynchronous interleaving itself is not modelled.
- The `isTranslating` flag is a parameter of `StartTranslation`.
- Progress.FinalStatus: when the flag is set while the last line is in
  flight, the loop ends without its own "cancelled after" message. The
  model reports both cases as `CancelledAfter`.
- Worksheet.PhrasesToDisplay: the stored phrase list is a parameter.
  Clearing the text areas after `addPhrase` is not modelled.
- The mocked integration tests in `feez/test_app.py` patch names that
  `translation_functions` does not look up. `FallbackExample` states the
  scenario the test describes, not the mock wiring.
