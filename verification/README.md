# Verified model of the gateway core

The service answers OpenAI-style requests by driving a web chat through a pool of
proxies and a pool of account cookies. This project models the parts of it whose
correctness spans many calls, and proves what those parts promise.

* **Streaming text** (`Bytes`, `Utf8`, `FenceScan`, `FenceGate`, `FenceRegex`, `Trim`,
  `Delivery`). Cumulative upstream frames become deltas; a gate lets through only bytes
  that are certainly outside a tool-call fence; a regular expression removes fences from
  the whole text; the missing tail is sent at the end.
* **Egress** (`Slots`, `Limiters`, `Proxies`, `Egress`). Per-IP slots with sliding
  windows, the proxies table with its copy in memory and its circuit breaker, and the
  choice of a proxy.
* **Accounts** (`Text`, `Encoding`, `CookieText`, `CookieMerge`, `Accounts`). Cookie strings, the
  merge of Set-Cookie headers, the identity guard, the least-recently-used pick, health.
* **Requests** (`Retry`, `RetryLoops`, `Login`, `Service`, `Replies`). The account loop,
  the retry loop with its one token repair, a whole request with its slot, and what the
  client of a streamed request ends with. Upstream is an arbitrary function from request
  number to reply.
* **Statistics** (`Percentiles`, `Stats`, `StatsRuns`, `StatsStores`). Hourly and daily
  roll-up, catch-up after downtime, and retention.
* **Seeding** (`Seeding`). Start-up parameters merged into the pool across restarts.

Objects that the source updates in place are classes here, with a method for each
operation; each method is proved to compute a function of the old state, or to keep an
invariant, and the lemmas are about those functions and about runs of operations in any
order. Mutex sections are atomic steps. Clocks, upstream replies, failing reads and Go's
map iteration order are arbitrary.

What the proofs found, beside what the source says about itself:

* The gate and the regular expression agree on a text with one closed fence exactly when
  the fence is on lines of its own (`OwnLines`). A fence with nothing but white space
  inside, before a later line that starts with three back-ticks, is one where they differ.
* A gated reply arrives exactly as meant if and only if what was sent is a prefix of the
  trimmed text without its fences (`ArrivesWholeIff`, for every text). White space around
  a reply without fences is enough to make that fail, so the following is up to trimming.
  When all fences are on lines of their own, text is lost exactly when something is held
  back at the end and what was sent starts with white space. A fence on one line is kept
  by the expression and dropped by the gate, and is not sent (`OneLineFenceIsLost`). Where
  the expression runs on from a blank fence it drops text that was sent already, and that
  is not taken back (`OverrunIsNotTakenBack`).
* The identity guard is skipped when the row cannot be read; that is the only way for a
  refresh to change the identity of a row. Two cookies of different accounts can have one
  identity. It belongs to one account alone exactly when every further separator in the
  two values stands after white space.
* Picks over equally healthy accounts are all different exactly when each account, in the
  order of least recent use, is before every earlier one at the time that one was picked;
  within one second of the clock this can fail.
* After three accounts have failed, a fourth is picked and stamped as used, and not tried.
* A request row that arrives in a closed hour is counted by the next hourly catch-up
  exactly when its hour is after the last hour that has a row. An hourly row that is
  written late reaches the daily table exactly when its day is after the last day that
  has a row; otherwise it is lost for good.
* An invalid start-up parameter withdraws the record of the one before, which stays
  remembered; going back to that one brings nothing back.
* Creating a proxy validates its URL; editing one does not.
* With a retry count of zero or less nothing is sent and no error is returned.

## Model

| member | source | states |
|---|---|---|
| FenceScan.PartialPrefixLen | internal/app/messages.go:269-280 | The result is the length of the longest suffix that is a proper prefix of the marker; no longer one exists. |
| FenceScan.HeldIsExact | internal/app/messages.go:240-263 | What is held is exact: inside a fence it is everything after the last opener and has no closer; outside, it is the longest suffix that could begin an opener, and the undecided text has no opener. |
| FenceScan.NoStraddle | internal/app/messages.go:265-268 | After text without an opener, an opener that later bytes complete cannot start before the part that is held. |
| FenceScan.ScanAppend | internal/app/messages.go:240-263 | The one-shot meaning of `a + b` is that of `a`, resumed on what `a` left held with `b` appended, for every split. |
| FenceGate.ToolFenceGate.Send | internal/app/messages.go:231-237 | Appends to what was sent; an empty string reaches nobody. |
| FenceGate.ToolFenceGate.Push | internal/app/messages.go:240-263 | After any pushes the sent text, the buffer and the fence flag are those of the one-shot meaning of all input; chunks sent are never taken back and join to the sent text; every chunk is well-formed UTF-8 if every delta was. |
| FenceGate.ToolFenceGate.Drain | internal/app/messages.go:242-262 | The loop settles the buffer as the one-shot meaning says, sends what it settles as chunks that are not empty, and cuts no character. |
| FenceGate.ChunkingDoesNotMatter | internal/app/messages.go:240-263 | Feeding any list of chunks ends in the state of feeding their concatenation at once. |
| FenceGate.DropMarker | internal/app/messages.go:247-254 | Cutting at an occurrence of a marker never splits a character. |
| FenceGate.CutPartial | internal/app/messages.go:265-268 | Cutting before a partial marker never splits a character. |
| Utf8.CutWellFormed | internal/app/messages.go:265-268 | An ASCII byte, or the end, is a character boundary of a well-formed text (section 4 of RFC 3629). |
| Utf8.RestWellFormed | internal/app/gemini.go:224-226 | What a well-formed text adds to a well-formed prefix of it is well formed. |
| FenceRegex.BodyEndPicks | internal/app/messages.go:282-282 | The backtracking of `\s*\n(.*?)\n` stops at the last line break of the white-space run that some later closing line allows, and takes the first such line. |
| FenceRegex.Decompose | internal/app/messages.go:240-263 | Every text is a list of gate fences between plain pieces without an opener, and a tail. |
| FenceRegex.GateOnFences | internal/app/messages.go:240-263 | On such a list the gate sends exactly the plain pieces, and then what it sends of the tail. |
| FenceRegex.FenceMatch | internal/app/messages.go:282-308 | The expression matches a fence from opener to closer if and only if the fence is on lines of its own and, when blank, is followed by no line that starts with three back-ticks; it never matches less. |
| FenceRegex.StripOnFences | internal/app/messages.go:308-308 | Replacing all matches in a text whose fences meet that condition leaves exactly the plain pieces and the tail. |
| FenceRegex.GateAgreesWithRegex | internal/app/messages.go:240-309 | For any number of such fences and any tail, what the replacement leaves is what the gate sent and what it still holds. |
| FenceRegex.OneFenceAgreesIff | internal/app/messages.go:240-309 | With one closed fence, followed by plain text or by an unclosed fence, the two agree if and only if the condition holds. |
| FenceRegex.BlankFenceDisagrees | internal/app/messages.go:282-308 | A blank fence before a line with three back-ticks is a text on which they differ. |
| FenceRegex.BlankRunsOn | internal/app/messages.go:282-308 | A blank fence that ends in a line break is matched on to the next line that starts with three back-ticks, whatever is between. |
| FenceRegex.TwoFencesAgreeByAccident | internal/app/messages.go:240-309 | Two fences, neither on lines of its own, on which the two agree: one match takes both fences and what is between them. |
| Trim.TrimIdempotent | internal/app/messages.go:309-309 | Trimming a trimmed text changes nothing, on UTF-8 bytes with all of Unicode's white space. |
| Encoding.TrimAgrees | internal/app/messages.go:309-309 | Trimming the bytes of a string is the same as trimming its characters, for every string. |
| Encoding.EncodedIsWellFormed | internal/app/messages.go:265-268 | The bytes of every string are well-formed UTF-8. |
| Delivery.EmittedIsMaximal | internal/app/gemini.go:211-227 | For any frames and any cleaning: what was emitted stays a prefix, is a cleaned frame or the start, and no cleaned frame ever seen properly extends it. |
| Delivery.GrowingFramesAreAllEmitted | internal/app/gemini.go:211-227 | Frames that each extend the one before are emitted up to the last. |
| Delivery.DeltaTracker.Push | internal/app/gemini.go:219-227 | The delta is exactly what is appended to the emitted text, and the new emitted text is the frame if it properly extends the old one. |
| Delivery.StreamFrames | internal/app/gemini.go:498-520 | Tracker and gate together: the gate's input is the emitted text whatever the frame boundaries, its chunks only grow, and characters stay whole. |
| Delivery.RemainingCompletes | internal/app/server.go:377-387 | Sent plus remaining is the whole text exactly when what was sent is a prefix of it, and is what was sent otherwise. |
| Delivery.SseWriter.FinishStream | internal/app/server.go:308-328 | Appends the missing reasoning, the missing content, tool calls if any, and the finish. |
| Delivery.StreamEndsComplete | internal/app/server.go:308-328 | The client ends with the whole text and reasoning, or with what it had where the prefix does not fit; reasoning comes before content; then tool calls once, exactly when there are some; then the finish. |
| Delivery.ArrivesWholeIff | internal/app/server.go:320-324 | For every text: the client has exactly the final text if and only if what was sent is a prefix of it, and has it up to trimming if and only if that is so or what was sent is it up to white space. |
| Delivery.PlainReplyArrivesIff | internal/app/server.go:320-324 | A reply without fences and with nothing held arrives up to trimming, and exactly as meant if and only if there is no white space around it. |
| Delivery.TailIsLostIff | internal/app/server.go:320-324 | For replies whose fences are all on lines of their own: up to trimming, the reply arrives whole if and only if nothing is held at the end or what was sent does not start with white space. |
| Delivery.TrimKeepsPrefixIff | internal/app/messages.go:309-309 | The same condition for any sent text and any held text that starts with a back-tick. |
| Delivery.HeldTickIsLost | internal/app/server.go:320-324 | A text whose last back-tick never reaches the client. |
| Delivery.OneLineFenceIsLost | internal/app/server.go:320-324 | A reply with a fence on one line, with nothing held and no white space, that does not arrive whole. |
| Delivery.OverrunIsNotTakenBack | internal/app/server.go:320-324 | A reply of which the expression leaves nothing, and of which a letter was sent. |
| Slots.PruneTimestamps | internal/app/ratelimit.go:173-183 | Drops exactly the times at the front that are before the cutoff. |
| Slots.PruneIsFilter | internal/app/ratelimit.go:173-183 | On times in order this is the filter of all times by the cutoff. |
| Slots.StepKeepsGood | internal/app/ratelimit.go:63-89 | Every attempt, release and usage query keeps: windows are the cut-off history, grants are spaced by the limits, in-flight is grants minus releases and within its limit. |
| Slots.SpacedBoundsWindow | internal/app/ratelimit.go:63-89 | If times `n` apart differ by more than a width, every closed window of that width holds at most `n`. |
| Slots.SlidingWindowSafety | internal/app/ratelimit.go:63-89 | In every run with a clock that does not go back, at every instant: at most RPM grants in the last 60 seconds, at most RPH in the last 3600, in-flight within the limit and equal to grants minus releases. |
| Slots.WindowsAreFilters | internal/app/ratelimit.go:112-128 | In every run the two windows are the filter of the whole grant history by their cutoffs; refused attempts add nothing. |
| Slots.GrantedIff | internal/app/ratelimit.go:63-89 | After every run in clock order an attempt is granted if and only if no limit that is on is reached: concurrent by grants minus releases, RPM by the grants of the last 60 seconds, RPH by those of the last 3600. A refusal names the first limit that is reached, in this order. |
| Limiters.Limiter.GetSlot | internal/app/ratelimit.go:40-55 | Creates an empty slot on first use and otherwise returns the one slot of the id, changing no other. |
| Limiters.Limiter.TrySlotAcquire | internal/app/ratelimit.go:63-89 | Verdict and new state of one slot are those of the step function, whose verdict `GrantedIff` describes; every other slot is unchanged. |
| Limiters.Limiter.SlotRelease | internal/app/ratelimit.go:92-99 | One less in flight on one slot, never below zero; every other slot is unchanged. |
| Limiters.Limiter.SlotUsage | internal/app/ratelimit.go:112-128 | Reports the counts after dropping expired times, on one slot only. |
| Proxies.ProxyStore.LoadProxies | internal/app/proxy.go:41-68 | A successful read replaces the list by the table; a read that fails anywhere leaves it. |
| Proxies.ProxyStore.RecordProxyResult | internal/app/proxy.go:295-322 | Table and memory are changed alike: success clears the failures, failure counts one and stamps the time. |
| Proxies.ProxyStore.ProxyCreate | internal/app/proxy.go:326-344 | Adds a row with a fresh id and reloads, or refuses an empty name or an invalid URL. |
| Proxies.ProxyStore.ProxyUpdate | internal/app/proxy.go:362-398 | Changes the given fields of one row and reloads; an empty name or URL and an absent flag or weight leave theirs as they are; no URL is refused. |
| Proxies.ProxyStore.ProxyDelete | internal/app/proxy.go:400-406 | Deletes one row and reloads. |
| Proxies.ProxyStore.ProxyResetFailures | internal/app/proxy.go:408-414 | Clears the failures of one row and reloads. |
| Proxies.FirstIsOnly | internal/app/proxy.go:295-322 | Updating the first match in memory is updating every row with that id, because ids are unique. |
| Proxies.CacheIsTable | internal/app/proxy.go:41-68 | After any run of create, update, delete, reset, record and reload with successful reads, the list in memory equals the table. |
| Proxies.FifthFailureTrips | internal/app/proxy.go:295-322 | A failure at time `t` that makes five puts the proxy down since `t`, in table and memory. |
| Proxies.DownUntilCooldown | internal/app/proxy.go:81-92 | A proxy that is down since `t` is not usable before `t + 60 * cooldown`, whatever is done, unless it succeeds or is reset. |
| Proxies.BackAfterCooldown | internal/app/proxy.go:81-92 | Left alone and enabled, it is usable again if and only if cooldown is positive and that moment has come. |
| Proxies.NewProxyIsReady | internal/app/proxy.go:326-344 | A created proxy is in the list at once, under a new id, with a weight of at least 1, and usable at any time. |
| Proxies.UsableSinceRelief | internal/app/proxy.go:81-92 | Over any run since the last success or reset: a proxy is usable if and only if the last edit that says so leaves it on, and it has fewer than five failures since then or a cooldown that is over since the last of them. |
| Proxies.CacheNeverEmpty | internal/app/proxy.go:41-68 | Once loaded, the list is not empty while the table is not, whatever reads fail. |
| Egress.Scheduler.PickProxyPreferring | internal/app/proxy.go:248-284 | Result, cursor and slot states are those of the choice function; probing a full slot changes no count. |
| Egress.ChoiceIsSoundAndComplete | internal/app/proxy.go:248-284 | What is picked is in the pool and has room; nothing is picked if and only if nothing has room; without a hit on the preferred one it is the first with room in cyclic order; a preferred proxy with room is always picked and leaves the cursor. |
| Egress.RoundOnce | internal/app/proxy.go:276-283 | Going round reaches every position exactly once. |
| Egress.PickAt | internal/app/proxy.go:276-283 | With room everywhere, the `i`-th pick is the proxy `i` places after the cursor. |
| Egress.RoundRobinIsFair | internal/app/proxy.go:276-283 | Any `k * n` consecutive picks over an unchanged pool of `n` with room choose each proxy exactly `k` times. |
| Egress.Probe | internal/app/ratelimit.go:63-89 | After any number of refused probes, one more is granted if and only if the slot had room before, and the states differ from before by that one grant. |
| Egress.Scheduler.TrySlot | internal/app/ratelimit.go:63-89 | One attempt is granted if and only if the slot had room before any refused ones, and changes nothing but that. |
| Egress.Scheduler.AcquireSlot | internal/app/gemini.go:168-199 | Outcome, cursor and slots are those of the specification, in all branches. |
| Egress.AcquireIsSoundAndComplete | internal/app/gemini.go:168-199 | A proxy is used if and only if a usable one has room; success adds one in flight to exactly its slot; refusal changes no count; the direct slot is used only with an empty pool or by option; stickiness. |
| Egress.SlotsAreConserved | internal/app/gemini.go:203-208 | Over all interleavings, each slot's in-flight count is what running requests hold of it, within the limit, and zero when none runs. |
| Egress.SlotsComeBack | internal/app/gemini.go:203-208 | From the start of the service on, and when the last request has finished every slot is free again. |
| Egress.SlotRun | internal/app/ratelimit.go:63-99 | What all requests do to one slot is a run of that slot, in clock order. |
| Egress.EverySlotIsSafe | internal/app/ratelimit.go:63-89 | However requests interleave, every slot keeps both window limits at every instant. |
| Egress.EverySlotAnswers | internal/app/ratelimit.go:63-89 | However requests interleave, the next attempt on a slot is granted if and only if no limit that is on is reached by that slot's own grants and releases; a refusal names the first one. |
| Egress.NeverFallsBackSilently | internal/app/gemini.go:177-190 | After one load with a non-empty table, while it stays non-empty and fallback is off, no request gets the direct slot, whatever reads fail. |
| CookieText.SplitCookiePairs | internal/app/cookie_pool.go:35-44 | The loop computes the parsing function. |
| CookieText.PairsAreClean | internal/app/cookie_pool.go:35-44 | Parsed names are not empty and have no `=`, `;` or leading space; values have no `;` or trailing space. |
| CookieText.PrintThenParse | internal/app/cookie_pool.go:596-601 | Printing any clean pairs and parsing them gives the same pairs. |
| CookieText.ParsePrintParse | internal/app/cookie_pool.go:35-44 | For every string, parsing, printing and parsing again gives the same pairs. |
| CookieMerge.CollectUpdates | internal/app/cookie_pool.go:570-582 | The loop over the headers computes the update map. |
| CookieMerge.UpdatesAreLast | internal/app/cookie_pool.go:570-582 | A name is updated if and only if some header sets it to a value that is no deletion, and to the value of the last such header. |
| CookieMerge.HeaderSets | internal/app/cookie_pool.go:570-582 | A header of a pair and any attributes sets that pair; it sets nothing if and only if the value is empty and the header has the date of a deletion, in letters of any case. |
| CookieMerge.MergeSetCookie | internal/app/cookie_pool.go:565-602 | The result is a merge, for some iteration order of the update map. |
| CookieMerge.LookupAfterMerge | internal/app/cookie_pool.go:565-602 | Looking up any name, first or last, gives the last value the headers set, else what the cookie had. |
| CookieMerge.NamesAfterMerge | internal/app/cookie_pool.go:585-600 | Old names keep their places; new names follow, and were not there before. |
| CookieMerge.MergeTwice | internal/app/cookie_pool.go:565-602 | Merging the same headers again changes nothing, whatever the two iteration orders. |
| CookieMerge.MergeKeepsNonEmpty | internal/app/cookie_pool.go:565-602 | A merge never empties a cookie. |
| CookieMerge.CookieIdentityOf | internal/app/cookie_pool.go:609-620 | The loop computes the identity from the last occurrences of the two names. |
| CookieMerge.MergeKeepsIdentity | internal/app/cookie_pool.go:604-608 | Headers that set neither name leave the identity as it was. |
| CookieMerge.IdentityOfTwo | internal/app/cookie_pool.go:609-620 | For any two values that a parsed pair can have there is a cookie with just them, and its identity is the two joined. |
| CookieMerge.IdentityDetermines | internal/app/cookie_pool.go:609-620 | For two cookies without the separator in their first values, identities are equal if and only if both values are. |
| CookieMerge.IdentityDeterminesIff | internal/app/cookie_pool.go:609-620 | All cookies with the identity of a given one have its two values if and only if every other separator in that identity stands after white space. |
| CookieMerge.OneSplitIff | internal/app/cookie_pool.go:609-620 | As strings, the joined values can be cut in one way only if and only if neither has the separator. |
| CookieMerge.SeparatorConfusesIdentity | internal/app/cookie_pool.go:609-620 | Two cookies with different SAPISIDs and the same identity. |
| Accounts.RefreshChangesIdentityIff | internal/app/cookie_pool.go:628-640 | A refresh changes the identity of its row if and only if the row could not be read and the cookie is a non-empty one of another identity. |
| Accounts.IdentityIsInvariant | internal/app/cookie_pool.go:628-640 | When the guard's reads succeed, no run of picks, marks, bindings and refreshes, from whatever stale cookies, changes the identity of an account. |
| Accounts.OrdinaryRefreshIsAccepted | internal/app/cookie_pool.go:628-640 | A merge of headers that set neither identity cookie is always written. |
| Accounts.UnreadRowTakesAnotherAccount | internal/app/cookie_pool.go:628-640 | A failing read lets another account's cookie in. |
| Accounts.HealthOverRun | internal/app/cookie_pool.go:437-480 | After any run the failure count is the number of authentication failures since the last success, and the account is disabled exactly if that ever reached three. |
| Accounts.DisabledIffThreeInARow | internal/app/cookie_pool.go:468-480 | From a healthy start: disabled if and only if three authentication failures were marked with no success between them. |
| Accounts.PicksAreHealthiest | internal/app/cookie_pool.go:383-409 | Over any run of picks, each goes to an account with the fewest failures of all that may be picked. |
| Accounts.PicksAreDistinct | internal/app/cookie_pool.go:383-409 | Over equally healthy accounts, picks from `t` on are distinct for as long as accounts not used since `t` last. |
| Accounts.LeastRecentlyUsedRotates | internal/app/cookie_pool.go:383-409 | When the clock has passed all last uses, any picks up to the number of accounts are distinct. |
| Accounts.PicksAreDistinctIff | internal/app/cookie_pool.go:383-409 | For any times and up to n picks over n equally healthy accounts: all picks are different if and only if each account in the order of least recent use is before every earlier one at the time that one was picked. |
| Accounts.TwoPicksDifferIff | internal/app/cookie_pool.go:383-409 | Two picks differ if and only if some other account was less recently used than the first one is at its pick. |
| Accounts.HasQueue | internal/app/cookie_pool.go:389-391 | Any accounts have such an order, with each of them once. |
| Accounts.SameSecondRepeats | internal/app/cookie_pool.go:383-409 | An instance: two picks in the second of the last use are of the same account. |
| Accounts.AccountStore.PickExcept | internal/app/cookie_pool.go:383-409 | Picks the least enabled account outside the skipped ones by failures, last use and id, or none if there is none, and stamps only its row. |
| Accounts.AccountStore.MarkByStatus | internal/app/cookie_pool.go:418-427 | Changes only health, of only one row, and only for 200, 401 and 403. |
| Accounts.AccountStore.MarkResult | internal/app/cookie_pool.go:437-451 | Success clears, failure counts, and the third in a row disables. |
| Accounts.AccountStore.BindProxy | internal/app/cookie_pool.go:542-547 | Changes only the binding of one row. |
| Accounts.AccountStore.UpdateAccountCookie | internal/app/cookie_pool.go:628-640 | Writes the cookie unless it is empty or the row was read and has another identity. |
| Retry.Listen | internal/app/gemini.go:501-520 | The callbacks of a reply are exactly those of its lines, in order; both trackers end with what all texts and all thoughts emit, if they are wanted. |
| Retry.ReasoningFirst | internal/app/gemini.go:502-510 | Within a line, reasoning is called back before text. |
| Retry.ResendOnlyAfterHealing | internal/app/gemini.go:536-539 | A request sent after output stands right after a token repair. |
| Retry.OneRequestAfterOutput | internal/app/gemini.go:536-539 | With one repair at most, no two further requests follow output. |
| Retry.OneRequestAtATime | internal/app/gemini.go:522-617 | At every moment at most one request is without a verdict or a repair. |
| RetryLoops.HealsTheFirstRejection | internal/app/gemini.go:548-558 | The repaired reply is the first that rejects the token, exactly when the request has a cookie and a new token is had. |
| RetryLoops.RequestBudget | internal/app/gemini.go:522-617 | For every upstream: at most one request more than the retry count, exactly one verdict for each that is not repaired, no request but the repair's after output, one at a time. |
| RetryLoops.Conversation.SendOnce | internal/app/gemini.go:523-523 | One more request in the log, then the callbacks of its reply; text and reasoning are extended by its frames. |
| RetryLoops.Conversation.KeepCookies | internal/app/gemini.go:524-529 | Only under an account: the cookie becomes a merge with the reply's headers, and a changed cookie is written back through the guard. |
| RetryLoops.Conversation.JudgeAttempt | internal/app/gemini.go:532-534 | One verdict in the log, and one result on the pooled proxy if one is used, with the same error and time. |
| RetryLoops.Conversation.FailAttempt | internal/app/gemini.go:530-546 | Records the failure and reports whether anything was output. |
| RetryLoops.Conversation.Heal | internal/app/gemini.go:548-558 | A repair records no verdict and does not count as an attempt. |
| RetryLoops.Conversation.RetryLoop | internal/app/gemini.go:522-617 | Terminates for every upstream. It ends at the first good reply; it gives up only when something was output or all attempts are used, with the last reply's error; account rows and proxy pool are what the log says; each verdict has the error and the time of its own reply; one health write, at the time of the last reply, with 200 or the status of the last unrepaired refusal; text and reasoning are what the frames of all replies emit; the cookie is the merge over all replies, and the one that is saved last. |
| RetryLoops.ResultsAreOfReplies | internal/app/gemini.go:530-598 | The results that reach the proxy are exactly those of the replies, in order, with their errors and times; only a repaired reply has none. |
| Login.Session.RotateAccount | internal/app/rotate.go:52-87 | Merges the page's headers, then the rotation's, and writes a changed cookie through the guard; nothing else in the rows changes. |
| Login.Session.BindIfNeeded | internal/app/gemini.go:326-328 | Binds to this request's proxy exactly when there was no binding or an unusable one; nothing else in the rows changes. |
| Login.Session.FailAccount | internal/app/gemini.go:354-354 | One authentication failure on one account that had none in this request. |
| Login.Session.NextAccount | internal/app/gemini.go:357-357 | The pick among accounts that were not tried. |
| Login.Session.TryAccount | internal/app/gemini.go:313-356 | An account is used, with the cookie of its row, if and only if a token is had at once or after a rotation. Its whole row after the trial: the cookie of a rotation as the guard lets it through, and the binding of this request where there was none that works, or the mark of a failure. No other row changes. |
| Login.Session.TryAndMoveOn | internal/app/gemini.go:313-358 | One turn: the account is used, or it is marked and the next is picked among those not tried. |
| Login.Session.AccountLoop | internal/app/gemini.go:313-358 | Ends after at most three accounts, all different and each picked in its turn; uses the first for which a trial succeeds and marks exactly those before it; gives up early only when no enabled account is left; after a last failure another account is picked and stamped, if there is one, and not tried. Every row is what its own trial made of it, or is untouched but for the stamp of a pick; only the account that is used is bound. |
| Service.Gateway.Serve | internal/app/gemini.go:303-390 | A request runs under the account of the first trial that succeeds. It has no account only if all that were tried failed and there were three or no other is left; then it fails, or runs anonymously if there were no accounts or the option says so. It has an account exactly if it has a cookie. That account is bound where it had no binding that works, and no other is; the proxies have the results of the attempts and no others. |
| Service.Gateway.Converse | internal/app/gemini.go:495-617 | The login's and the retry loop's writes together: at most one health write per account, the bindings those of the login, and the pool after exactly the results of the attempts, on the held proxy. |
| Service.PoolHearsOfReplies | internal/app/gemini.go:530-598 | After a request through a proxy, the pool is what it was with the results of its replies recorded on that proxy, in order. |
| Service.LoginThenConversation | internal/app/gemini.go:313-617 | Account steps of the two loops compose: one health write per account, and the bindings of the login. |
| Service.ConversationSteps | internal/app/gemini.go:522-617 | A conversation writes health only to its own account, and no binding. |
| Service.StaysWellKept | internal/app/cookie_pool.go:628-640 | Account rows keep their positive ids and a cookie that is not empty, over any steps. |
| Service.ReleaseUndoesGrant | internal/app/gemini.go:283-288 | Releasing the slot that was granted restores every in-flight count. |
| Service.Gateway.Generate | internal/app/gemini.go:252-618 | However a request ends, its slot is given back and the account rows are fit for the next one; the first account's binding is preferred; it is refused exactly when no slot was had, and otherwise answered as `Serve` says; the account it ran under is bound to its proxy where it had no binding that works, and no other binding changes; the pool has the results of its attempts; the log meets the retry loop's specification, and its output and saved cookie are those of the replies, from the cookie of that account's row. |
| Replies.ExtractText | internal/app/gemini.go:891-902 | The cleaned last text that is not blank. |
| Replies.FinalTextIsLast | internal/app/gemini.go:891-902 | Blank texts at the end are passed over: the final text is the cleaned last one that is not blank, and nothing only if all are blank. |
| Replies.ExtractReasoning | internal/app/gemini.go:820-828 | The cleaned longest thought. |
| Replies.EmittedIsFinal | internal/app/gemini.go:211-227 | When every cleaned text extends the one before, what was emitted is the final text. |
| Replies.Client.OnDelta | internal/app/server.go:252-261 | A text callback gives the client what the gate lets through of all text so far, or the text itself without tools. |
| Replies.Client.Complete | internal/app/server.go:308-328 | At the end the client has all of the final text if what it has is a prefix, and otherwise what it has; the same for reasoning; then the tool calls once, if there are any; then the finish. |
| Replies.Client.Stream | internal/app/server.go:249-328 | For every upstream: the client's content and reasoning are those that the frames of all replies emit, through the gate, completed by the final text and reasoning of the good reply, then its tool calls once if there are any, then the finish; nothing is completed and nothing but content and reasoning is sent when no reply is good or the good one has no text. |
| Replies.Client.HasItAllIff | internal/app/server.go:320-324 | When the emitted text is the final one, the client has what is meant always without tools, and with tools if and only if what the gate sent is a prefix of it. |
| Replies.Client.HasItAllUpToTrimmingIff | internal/app/server.go:320-324 | The same up to trimming, for a text with all fences on lines of their own: if and only if nothing is held or what was sent does not start with white space. |
| Percentiles.Compute | internal/app/scheduler.go:244-256 | The method computes the two order statistics, and 0 for no latencies. |
| Percentiles.PercentileRanks | internal/app/scheduler.go:244-256 | With `k` as `n / 2` for p50 and `95 n / 100` for p95: at most `k` latencies are less than the result, and more than `k` are not greater. |
| Stats.SuccessesAndFailures | internal/app/scheduler.go:93-159 | In any span and group, successes and failures add up to requests. |
| Stats.WeighSplit | internal/app/scheduler.go:93-159 | Sums over adjacent spans add up, for every group and measure. |
| Stats.WrittenRowsStay | internal/app/scheduler.go:51-69 | Catch-up never changes a row that was written. |
| Stats.CatchUpTwice | internal/app/scheduler.go:51-69 | Catch-up at `t1` and then at `t2` equals catch-up at `t2` alone. |
| Stats.LateRowIsIgnored | internal/app/scheduler.go:51-69 | A request in an hour up to the last one that has a row never changes what catch-up does. |
| StatsRuns.LateRowIsCountedIff | internal/app/scheduler.go:51-69 | After a request arrives late in a closed hour, catch-up makes the exact table if and only if its hour is after the last one that has a row. |
| StatsRuns.StepKeepsExact | internal/app/scheduler.go:51-88 | Every insert that is not late, or late but after the last hour and day that have a row, and every hourly catch-up, daily catch-up and sweep keeps the tables exact. |
| StatsRuns.SweepKeepsExact | internal/app/scheduler.go:259-274 | A sweep that deletes no request of an uncounted hour leaves the tables exact now and for later catch-ups. |
| StatsRuns.TimelySweepIsLegal | internal/app/scheduler.go:259-274 | A sweep within 23 hours of hourly catch-up, keeping a day or more, is such a sweep. |
| StatsRuns.RunKeepsExact | internal/app/scheduler.go:51-88 | So does any run of such steps. |
| StatsRuns.BootIsLegal | internal/app/scheduler.go:16-18 | What runs at boot, in its order, meets the conditions under which the tables stay exact. |
| StatsRuns.HourlyIsExact | internal/app/scheduler.go:51-69 | After any run from an empty database, a row of a counted hour exists if and only if a request of its group does, it equals the group-by of all requests there ever were, and its successes and failures add up. |
| StatsRuns.HourlyPercentiles | internal/app/scheduler.go:223-256 | After any run, the percentiles of an hourly row have their rank among the total times of the raw requests of that hour and group. |
| StatsRuns.DailyPercentiles | internal/app/scheduler.go:161-221 | A daily percentile is the mean, rounded down, of the positive ones of its hours, so it lies between them; it is 0 if there are none. |
| StatsRuns.HoursAddUp | internal/app/scheduler.go:160-221 | Summing hourly rows over consecutive closed hours gives the sum over the requests. |
| StatsRuns.DailyConservesRequests | internal/app/scheduler.go:71-88 | After any run, each daily row equals the counts, tokens and total time of the raw requests of its day, and every request of a closed day has its row. |
| StatsStores.StatsStore.AggregateHour | internal/app/scheduler.go:93-159 | One pass over the requests writes exactly the group-by rows of one hour. |
| StatsStores.StatsStore.AggregateDay | internal/app/scheduler.go:160-221 | One pass over the hourly rows writes exactly the rows of one day. |
| StatsStores.StatsStore.AggregateHourlyCatchup | internal/app/scheduler.go:51-69 | The loop over hours adds the roll-up of everything after the last written hour, starting from the oldest request on first use. |
| StatsStores.StatsStore.AggregateDailyCatchup | internal/app/scheduler.go:71-88 | The same over days. |
| StatsStores.StatsStore.RetentionSweep | internal/app/scheduler.go:259-274 | Keeps exactly the requests from the cutoff on, and all of them without retention. |
| StatsStores.StatsStore.OnBoot | internal/app/scheduler.go:16-18 | Hourly catch-up, daily catch-up over the new hourly table, and the sweep, each re-establishing what the next one needs. |
| StatsStores.MaxBucket | internal/app/scheduler.go:53-53 | The greatest bucket, or 0. |
| StatsStores.LateHourIsCountedIff | internal/app/scheduler.go:71-88 | After an hourly row is written late, daily catch-up makes the exact table if and only if its day is after the last one that has a row. |
| StatsStores.WrittenDaysAreFinal | internal/app/scheduler.go:71-88 | Up to the last day that has a row, no sequence of catch-ups over any hourly tables writes, changes or adds a daily row. |
| StatsStores.TooEarlyForGood | internal/app/scheduler.go:71-88 | If that day has been reached when the hour is written, then after any later catch-ups the daily row is short by exactly that hour in every sum, and there is no row if the group had no other hour that day. |
| Seeding.Seeder.PoolHasUrl | internal/app/proxy.go:225-234 | True if and only if some record has the URL. |
| Seeding.Seeder.MigrateLegacy | internal/app/proxy.go:124-141 | The stored state is that of the migration function in all branches. |
| Seeding.Seeder.DropSeeded | internal/app/proxy.go:197-222 | Deletes the remembered record only if it still has its URL. |
| Seeding.Seeder.SyncSeeded | internal/app/proxy.go:165-192 | The stored state is that of the synchronisation function in all branches. |
| Seeding.Seeder.Restart | internal/app/app.go:100-101 | A start loads, migrates and follows the parameter. |
| Seeding.SyncTracks | internal/app/proxy.go:165-222 | One start with any parameter, valid or not, moves the pool as the course of parameters says. |
| Seeding.SeedingIsDeclarativeIff | internal/app/proxy.go:109-222 | After any restarts the pool is the original one, the legacy value added at most once, and at most one record for the last parameter, if and only if the last parameter was accepted and its record not withdrawn by an invalid one since. |
| Seeding.ValidParametersStayOnCourse | internal/app/proxy.go:165-192 | That is so whenever every parameter is empty, valid or in the pool. |
| Seeding.InvalidParameterForgets | internal/app/proxy.go:165-192 | It is not so for a valid parameter, an invalid one, and the valid one again. |
| Seeding.EditedRecordStays | internal/app/proxy.go:194-222 | A record whose URL is not the remembered one survives every start. |
| Seeding.StartTwice | internal/app/proxy.go:109-222 | Starting twice with one parameter is starting once, for any parameter. |

## Left out

- FenceRegex.GateAgreesWithRegex: one direction only for several fences, since the converse is false (`TwoFencesAgreeByAccident`); the exact condition is stated fence by fence (`FenceMatch`) and for a text with one closed fence (`OneFenceAgreesIff`).
- Accounts.PicksAreDistinctIff: for accounts with equal failure counts; with unequal ones only the healthiest are picked (`PicksAreHealthiest`).
- StatsRuns.RunKeepsExact: for runs in which late requests come after the last hour and day that have a row, daily catch-up follows hourly catch-up on the same day, and sweeps delete nothing uncounted; `LateRowIsCountedIff`, `LateHourIsCountedIff` and `TooEarlyForGood` say exactly what happens otherwise.
- Stats.CatchUpTwice: request times are from the second day of 1970 on, because bucket 0 stands for an empty table.
- HTTP, TLS, uploads, page scraping and image fetching: replies are arbitrary inputs.
- SQL: tables are maps and sequences, ids are never reused, and statements succeed except where a member has a fault parameter.
- Decoding of upstream lines, the clean-up expression for frames (an arbitrary function), tool-call JSON, random ids and token counts.
- The admin panel, sessions, API keys, the MCP endpoint and the wire format of server-sent events.
- Goroutine scheduling inside a mutex section, and the drift of one failure when a reload overlaps a recorded result: steps are atomic.
- Wrap-around of the 64-bit proxy cursor: it is a natural number.
- Changes of limits and retry counts while a run is under way, and clocks that go back.
- Labels, notes and last errors of accounts, normalising pasted cookies, and the migration of a single legacy cookie.
- Seeding from a cookie file: the same steps as for proxies, but a refresh of the cookie changes the string that is compared, so that the file is then seen as edited.
- Case mapping of letters other than A to Z in URLs and attribute names, and cookie strings that are not valid UTF-8.
- The list of all slot usages for the panel.
