# Web3 RPC Proxy in Dafny

Web3 RPC Proxy stands between JSON-RPC clients and many upstream nodes of EVM chains. This project
models the five pieces of it that hold state, branching or arithmetic, and proves what they keep:

| modules | piece |
|---|---|
| `JsonText`, `JsonRpc`, `ResultCache`, `AgentService`, `Transparency`, `StoredAnswers`, `Responses` | batch dispatch through the Redis result cache |
| `TokenBucket`, `Refunds`, `TenantFlow` | distributed rate limiting: script, gate, settlement, debounced refunds |
| `RequestOptions`, `Scoring`, `Selector`, `Retry` | choosing endpoints, and the retry loop over them |
| `SessionKeys`, `Sessions`, `SessionFates` | many requests over one WebSocket connection |
| `Endpoints`, `EndpointCache` | merging endpoint lists, and the two-map endpoint index |

`Texts` holds decimal printing and text splitting, `Lists` what is said of lists in several modules,
`Wrappers` the `Option` datatype.
`dafny verify dfyconfig.toml` checks everything.

Code that changes things step by step is a method, and where the source has an object with fields, a
class; each such method is tied by its `ensures` to a function of the inputs or of the old state. The
theorems are lemmas about those functions, and about step systems for what runs concurrently. In a step
system an event that is not enabled changes nothing, so a statement about all event sequences is one
about all interleavings.

## What the code does and does not keep

*Result cache.* With true upstream answers and true stored answers the cached path answers as the direct
path does exactly when every item is served (`TransparentExactly`). It is so in every run, with the writes
of any other calls falling between the lookups of a call (`EveryRunIsTransparentExactly`). A hit is served
when its entry is not stale and, if some other item is sent, its answer is not null. In a batch a miss is
served when its id is not null and the last item sent under the same printed id has the same answer, and
an uncacheable item never is. A single request fails only on a stale entry (`SingleIsTransparentExactly`).
No two requests share a cache key, whatever their methods are called: params are a JSON text, no JSON text
can be cut at one of its colons so that what follows is a JSON text again, and no two values have one text
(`KeysAreExact`, `PrintIsInjective`). After any run a lookup finds exactly what was stored last under its
key, while that is not older than its TTL (`FoundExactly`), and so the next call finds what a call stored
(`NextCallFinds`). Upstream is sent each request's own method and params (`SealExactly`), a call fails
exactly when something is sent and upstream fails on it (`FailsExactly`), and `from_cache` always tells the
truth (`FromCacheExactly`). The exceptions are real:

- an uncacheable item of a batch on the cached path always comes back null: only cacheable misses
  enter `mapping`;
- a missed item with a null id is never answered by its own result: it is filed under "null" and looked up
  under "<nil>". It comes back null, unless the batch also sends an item with the text id "null"; then it
  gets that one's answer;
- two items under one printed id both get the answer of the last (`SharedIdFails`, `OneIdForTwoFails`);
- a hit whose value is null comes back as a bare null when another item of its batch is sent;
- a stale entry is a hit with a nil value. With a positive TTL it exists for up to one second at the end
  of an entry's life, because the entry's time is cut to whole seconds and its Redis TTL is not. A method
  configured without a TTL gets TTL 0: its entries never expire in Redis and are stale from the next
  moment on, for ever, so that every later request for them is answered null (`StaleWindow`);
- more results than items makes the direct path and the dispatch of a batch index out of range
  (`BatchExact`).

An answer whose id prints like the request's id keeps upstream's own id, so agreement is of printed
ids: a number may come back as a string.

*Rate limiting.* The calls let through never exceed capacity plus recovery plus credit
(`AdmissionBound`), and the requests charged or still being served never exceed capacity plus recovery
(`NetAdmission`), over any number of proxies and any pipeline failures. After any run a call passes exactly
when capacity, recoveries and credits come to more than the calls made and the tokens lost to the capacity
(`GateExactly`), and tokens are lost exactly when more are held and recovered than the bucket holds
(`ClipsExactly`). The recovery is a sum over
calls, not a function of the elapsed time: the script does not move `last`, so each call at one moment
is credited the same time again (`SameTimeIsRecoveredByEachCall`). `rate` is applied per millisecond,
while the comments of `internal/app/database/schema/tenant.go` and of the admission gate read it as per
second; the model follows the script. A capacity or rate below 1 means no limit at all
(`LimitedExactly`).

Each request has an App object of its own and is settled once, and then nothing is credited too much
(`OneSettlementIsSerial`, `RefundCreditedExactly`). The service by itself does not guarantee that: settled
twice, an object can have two overlapping debounces that credit the same refund twice
(`OverlapCreditsTwice`). `OvercreditedExactly` says when: some debounce, about to write what it has read,
meets an Offset that is less than what it read and what Redis has received without its being subtracted,
taken together.

What does happen is that refunds are lost. A settlement that finds a timer of its tenant starts no
debounce, although the pending debounce writes back another request's App object only
(`SkippedBehindAnother`). Of two requests that fail at one proxy within one debounce the second is never
refunded (`TimerLosesRefund`). In every run the refunds are exactly those credited, those pending, those
lost with a failed pipeline, and those lost to a timer (`RefundLedger`). `last` holds the time written by the
latest pipeline that wrote one (`LastExactly`), for a charged request that of its settlement
(`ChargedTimeIsWritten`).

*Selection and retry.* The running minimum of the normalisation is the true one exactly when no value is
zero or the last one is (`MinimumExactly`). Zeros elsewhere can make every score 0, and then the order is
a shuffle (`UntameListFails`). An endpoint that is nowhere behind another one scores no less all the same
(`ScoreFavours`, `ScoreEffects`, `DurationEffects`). What is selected comes from the wanted types, else from
full nodes, else from all (`CandidatesExactly`), with an unhealthy endpoint first exactly when a probe is due
(`PromotesExactly`, `ProbesExactly`). The splice that promotes an unhealthy endpoint returns the right list but
corrupts the array it shares (`SplicedExactly`). The loop goes round the endpoints (`RotationIsFair`,
`EveryRoundMeetsAll`) until a turn ends it, which a missing client does for a lone endpoint only
(`CalledExactly`). A full rotation over unhealthy endpoints fits
in the timeout exactly when each share is at least 500 ms, there is one endpoint, or the timeout is not
positive (`RotationFitsExactly`). The repository's README gives `same` as the default of
`attempt_strategy` and says that 0 `attempts` means no retries. In the code the default is rotation
(`internal/core/reqctx/reqctxs.go` line 405) and 0 attempts means 3 (line 362); the model follows the
code. A `timeout` of more than about 292 years wraps around (`TimeoutExactly`, `HugeTimeoutWraps`).

*WebSocket sessions.* A request only ever receives a batch of its own key (`OnlyOwnReplies`). A key forgets
where one id ends and the next begins, and nothing else (`SplitIdsCollide`, `KeyForgetsWidths`), so what is
received bears the ids sent exactly when the sorted ids have the same widths (`ReceivedIdsExactly`): always
for single requests, and for batches whose ids are prefix-free, as 9 and 10 are. The ids are the clients'
own, so a key names no single message. Even while the keys in flight are distinct and upstream is honest, a
request has received the answer to its own message exactly when that was read while its addressee was in
flight (`OwnAnswerExactly`); a late reply goes to the next request of its key (`LateReplyGoesAstray`).

Sessions are exclusive throughout a run exactly when the keys in flight are distinct throughout it
(`ExclusiveExactly`). Of two requests in flight under one key, the first to leave closes the channel of the
second (`ClashClosesAnother`). A request closes a closed channel, a panic that nothing on its path recovers,
exactly when another one had loaded the same channel and closed it first (`CrashedExactly`, `ClashCrashes`).

A reader will not read again exactly when it is dead or holds a batch for a request that does not wait on an
open channel (`NeverReadsExactly`), and will take no step at all exactly when it is dead or stuck
(`HaltedExactly`). It is dead exactly when it once sent on a closed channel (`DeadExactly`). It
is stuck when its channel has no receiver, is not closed, and nobody can close it any more: two requests
under one key suffice (`ClashStrandsReader`). With distinct keys no reader is ever stuck
(`DistinctKeysNeverStick`), and one is dead exactly when it sent a batch, read for a request in flight, after
that request was gone (`DeadExactlyWhenTooLate`, `LateReplyKillsReader`).

*Endpoint index.* The two maps are views of one ordered list. Chain id and URL are joined with nothing
between, so two endpoints share an id exactly when the chain of one continues to the chain of the other
with the digits its URL has before the other's URL (`IdsCoincideExactly`, `DigitUrlsCollide`). A merge has
one element for each chain and URL exactly when no endpoint overlaps one of another chain in this way
(`MergesAcrossExactly`). The index is keyed by URL alone. When a chain had nothing listed, a second `GetAll`
that would load the same answers the same exactly when all that was loaded carries the chain under distinct
URLs that were not listed, or nothing of the chain was put at all and the second call loads again
(`SecondGetAllExactly`). A URL configured for two chains stays with the one asked for first, and the other
loses it from its second `GetAll` on (`SharedUrlIsLost`).

## Model

| member | source | states |
|---|---|---|
| ResultCache.SentAt | internal/app/agent/service/agent_service.go:248-269 | every place listed for sending is within the items seen and was no hit |
| ResultCache.MappingInRange | internal/app/agent/service/agent_service.go:270 | `mapping` only holds places of items already seen |
| AgentService.Service.constructor | internal/app/agent/service/agent_service.go:54-86 | the cache is off without expiry durations, the cacheable methods are those given a duration, a missing TTL is 0, and the model's store starts empty |
| AgentService.Service.CallUpstream | internal/app/agent/service/agent_service.go:399-471 | an upstream failure is returned and stores nothing; otherwise every result is relabelled by its position and every storable one is stored under its own request's key, in order |
| AgentService.Service.Dispatch | internal/app/agent/service/agent_service.go:137-193 | nothing to send gives the empty answer; a batch gives one place per result, a single request its first result; an out-of-range flag is a panic |
| AgentService.Service.LookUpOne | internal/app/agent/service/agent_service.go:240-278 | one turn appends the item's result and flag, appends it to the items to send unless it hit, and files it in `mapping` only when it missed |
| AgentService.Service.LookUp | internal/app/agent/service/agent_service.go:232-278 | after the loop the results, flags, items to send and `mapping` are those of all the lookups |
| AgentService.Merge | internal/app/agent/service/agent_service.go:332-380 | the in-place merge is the fold of the answers over the kept hits, each answer written to every place of its printed id |
| AgentService.Service.Call | internal/app/agent/service/agent_service.go:88-397 | the response and the new store of a whole call, on the direct and the cached path, with errors and panics |
| Transparency.AssignAllAt | internal/app/agent/service/agent_service.go:360-367 | writing an answer to a list of places changes exactly these places |
| Transparency.MergeOneAt | internal/app/agent/service/agent_service.go:358-367 | one answer is copied to a place exactly when `mapping` lists the place under the answer's printed id |
| Transparency.MergeKeeps | internal/app/agent/service/agent_service.go:335-380 | a place to which no answer was copied holds what was kept for it |
| Transparency.MergeCopies | internal/app/agent/service/agent_service.go:356-379 | a place holds the last answer copied to it |
| Transparency.MappingPartitions | internal/app/agent/service/agent_service.go:236-278 | `mapping` holds exactly the cacheable misses, each under its own `ID`, in non-empty increasing lists, so each in one list and once |
| Transparency.SentAtExact | internal/app/agent/service/agent_service.go:240-278 | the items sent are exactly those that were no hit, in request order |
| Transparency.MergedSlot | internal/app/agent/service/agent_service.go:335-380 | what a merged place holds: nothing for an uncacheable item, the value of a hit unless it is nil, the last result of its name for a miss |
| Transparency.BatchExact | internal/app/agent/service/agent_service.go:325-380 | the merged batch place by place, whatever upstream answered; a panic exactly when there are more results than items |
| Transparency.LabelledTruth | internal/app/agent/service/agent_service.go:430-448 | one-for-one true answers stay true after relabelling, each under its request's printed id |
| Transparency.LastNamedIsLastSent | internal/app/agent/service/agent_service.go:356-367 | the last result of a name belongs to the last item sent under that name |
| Transparency.MissServed | internal/app/agent/service/agent_service.go:356-379 | a missed item gets its true answer exactly when its id is not null and the last item sent under its printed id has the same true answer |
| Transparency.HitIsTrueOrStale | internal/app/agent/service/agent_service.go:255-263 | a found value is nil when the entry is stale and the true answer otherwise, and the true answer is then no error |
| Transparency.DirectTruth | internal/app/agent/service/agent_service.go:196-230 | the direct path gives every item its true answer under its printed id |
| Transparency.AllHitsServed | internal/app/agent/service/agent_service.go:281-323 | when everything was found, the answers are right exactly when every stale entry's true answer is null |
| Transparency.BatchServed | internal/app/agent/service/agent_service.go:325-380 | a batch with something to send agrees with the direct path exactly when every item is served |
| Transparency.SingleServed | internal/app/agent/service/agent_service.go:381-394 | a single request that has to be sent gets the direct path's answer |
| JsonText.PrintedIsJson | internal/app/agent/service/agent_service.go:519-525 | what an encoder prints for any value, whatever its strings and nesting, is a JSON text as the scanner sees it |
| JsonText.ColonEndsNoPrefix | internal/app/agent/service/agent_service.go:526 | no JSON text ends in a colon and another JSON text, or in a colon |
| JsonText.CutExactly | internal/app/agent/service/agent_service.go:526 | method and params text joined by a colon can be told apart, whatever the method |
| JsonText.PrintIsInjective | internal/app/agent/service/agent_service.go:519-525 | two values are encoded alike only when they are one |
| Transparency.SealExactly | internal/core/rpc/jsonrpc.go:121-151 | an endpoint is sent the request's own method and version under its printed id, an array of params as it is, any other value as the one item of an array, missing params as the empty array |
| Transparency.TransparentExactly | internal/app/agent/service/agent_service.go:88-397 | main result: cached and direct path agree place by place in printed id, result and error exactly when every item is served, each lookup on a true store of its own |
| Transparency.DistinctIdsAreTransparent | internal/app/agent/service/agent_service.go:232-380 | cacheable methods, distinct non-null printed ids, no null answer and no stale entry are enough for agreement |
| Transparency.SingleIsTransparentExactly | internal/app/agent/service/agent_service.go:306-394 | a single request agrees with the direct path exactly when its entry is not stale or its true answer is null |
| Transparency.OneIdForTwoFails | internal/app/agent/service/agent_service.go:270 | for any batch with two different requests under one printed id, the first of them cacheable, there is a truthful upstream for which the paths disagree |
| Transparency.SharedIdFails | internal/app/agent/service/agent_service.go:356-367 | whatever the store, a batch in which a miss and a later item to send share a printed id but not the true answer differs from the direct path |
| Responses.FailsExactly | internal/app/agent/service/agent_service.go:150-154 | a call fails exactly when something is sent and upstream fails on it, and with that failure |
| Responses.EmptyExactly | internal/app/agent/service/agent_service.go:103-112 | an empty batch is answered with an empty one, no request with nulls, and the store stays |
| Responses.OffIgnoresStore | internal/app/agent/service/agent_service.go:212-230 | with the cache off, by configuration or option, the answer does not depend on the store and all items are sent |
| Responses.DirectExactly | internal/app/agent/service/agent_service.go:161-192 | the direct path hands on upstream's answers place by place, under upstream's ids where they print like the requests' and else the requests', and panics exactly when there are more answers than items |
| Responses.AllHitsExactly | internal/app/agent/service/agent_service.go:280-323 | when everything was found the values found are answered under the requests' own ids, whatever upstream would say |
| Responses.FromCacheExactly | internal/app/agent/service/agent_service.go:286-294 | every answer in any response tells truly whether it comes from the cache |
| Transparency.KeysAreExact | internal/app/agent/service/agent_service.go:517-534 | two requests share a key exactly when chain, method and params are the same |
| Transparency.StoreOneKeepsTruth | internal/app/agent/service/agent_service.go:450-466 | storing one true answer keeps the store true, also for every other request under the key |
| Transparency.CallKeepsTrueStore | internal/app/agent/service/agent_service.go:399-471 | every call, on either path and whatever writes fail, leaves only true answers stored |
| Transparency.WrittenKeepsTruth | internal/app/agent/service/agent_service.go:450-466 | one write of one call keeps the store true, whatever others have written meanwhile |
| Transparency.CallWritesInTurn | internal/app/agent/service/agent_service.go:430-468 | a call left alone has the effect of its single writes one after the other |
| Transparency.RunsKeepTrueStore | internal/app/agent/service/agent_service.go:429-468 | from an empty store, the single writes of any calls in any order, and any keys lost, leave only true answers stored |
| StoredAnswers.StoredExactly | internal/app/agent/service/agent_service.go:586-634 | after any run a key is stored exactly when some event stored it last, with that event's value and its time in whole seconds |
| StoredAnswers.FoundExactly | internal/app/agent/service/agent_service.go:537-583 | main result: after any run a lookup misses exactly when the read fails or nothing is stored, and otherwise finds the answer stored last, or nil once that is older than its TTL |
| StoredAnswers.NextCallFinds | internal/app/agent/service/agent_service.go:450-466 | main result: what a call stores, the next call for the same chain, method and params finds while it is not older than its TTL |
| Transparency.EveryRunIsTransparentExactly | internal/app/agent/service/agent_service.go:88-471 | main result: from an empty store, with single writes of any calls and lost keys falling between the lookups, a call agrees with the direct path exactly when its items are served |
| Transparency.StaleWindow | internal/app/agent/service/agent_service.go:499-508 | exactly when an entry is alive in Redis and stale: at the end of its life for a positive TTL, and from the next moment on for ever for any other |
| Texts.ValueOfDecimal | internal/app/agent/service/agent_service.go:526 | a decimal text denotes the number it was printed from |
| Texts.FrontIsUnique | internal/app/agent/service/agent_service.go:526 | a text is cut in one way only at the first character its front part cannot contain |
| TokenBucket.RedisHash.constructor | internal/app/shared/redis_scripts/balance.go:28 | a fresh key has neither field |
| TokenBucket.RedisHash.HSetNxBalance | internal/app/shared/redis_scripts/balance.go:28 | sets an absent balance and leaves a present one |
| TokenBucket.RedisHash.HIncrByBalance | internal/app/shared/redis_scripts/balance.go:34 | adds to the balance, counting an absent one as 0, and returns the sum |
| TokenBucket.RedisHash.Balance | internal/app/shared/redis_scripts/balance.go:19-38 | the command-by-command script has the effect and the answer of the one-step form used below |
| TokenBucket.RecoveryIsNonNegative | internal/app/shared/redis_scripts/balance.go:31-33 | the recovery is never negative, even when `last` is in the future |
| TokenBucket.RecoveryExactly | internal/app/shared/redis_scripts/balance.go:31-33 | nothing without a `last` or with one in the future, otherwise the time since it times the rate |
| TokenBucket.PassesExactly | internal/app/shared/redis_scripts/balance.go:33-37 | a call passes exactly when there is a token, held or recovered by then |
| TokenBucket.LeavesExactly | internal/app/shared/redis_scripts/balance.go:34-37 | a call takes one token of those held and recovered, leaves what the bucket holds of the rest, and does not touch `last` |
| TokenBucket.BucketLedger | internal/app/shared/redis_scripts/balance.go:28-37 | in every run balance = capacity - calls + recovery + credit - clipping, with no negative recovery or clipping, and a call leaves at most capacity - 1 |
| TokenBucket.ClipsExactly | internal/app/shared/redis_scripts/balance.go:35 | after any run a call loses tokens exactly when more are held and recovered than the capacity, and then leaves capacity - 1 |
| TokenBucket.GateExactly | internal/app/agent/controller/agent_controller.go:208 | main result: after any run a call passes exactly when capacity, recoveries and credits are more than the calls made and the tokens lost |
| TokenBucket.StepKeepsBound | internal/app/agent/controller/agent_controller.go:208 | no call, credit or time write can break the admission bound |
| TokenBucket.AdmissionBound | internal/app/agent/controller/agent_controller.go:208 | in every run the calls let through and the tokens still spendable are at most capacity plus recovery plus credit |
| TokenBucket.FirstCallsPass | internal/app/shared/redis_scripts/balance.go:34-37 | with neither recovery nor credit the k-th call leaves capacity - k, and exactly the first `capacity` calls pass |
| TokenBucket.SameTimeIsRecoveredByEachCall | internal/app/shared/redis_scripts/balance.go:31-36 | n calls at one moment recover the elapsed time n times, and `last` stays where it was |
| TokenBucket.LimitedExactly | internal/app/agent/service/tenant_service.go:145-150 | the gate can refuse anything exactly when capacity and rate are at least 1; below that the script answers 0 and touches nothing |
| TokenBucket.TruncateExactly | internal/app/agent/service/tenant_service.go:147-148 | the whole part of a number, with its sign |
| Refunds.PendingUpdate | internal/app/agent/service/tenant_service.go:234-241 | what is executed but not yet subtracted changes by one debounce's share when that debounce moves on |
| Refunds.StepConserves | internal/app/agent/service/tenant_service.go:199-243 | no single step of a call or a debounce creates or loses a refund |
| Refunds.RefundConservation | internal/app/agent/service/tenant_service.go:199-243 | over every interleaving Offset + credited = initial Offset + calls + executed but not yet subtracted + executed but reported as failed |
| Refunds.PendingIsCovered | internal/app/agent/service/tenant_service.go:229-243 | with one debounce at a time, what is pending is at most what that debounce read |
| Refunds.SerialIsCovered | internal/app/agent/service/tenant_service.go:229-243 | with one debounce at a time, Offset stays non-negative and covers what the debounce read |
| Refunds.SerialRefundsAreBounded | internal/app/agent/service/tenant_service.go:229-243 | with one debounce at a time Offset stays non-negative and credit is at most the refunds owed, but for executions reported as failed |
| Refunds.OneSettlementIsSerial | internal/app/agent/controller/agent_controller.go:134-142 | with at most one settlement of an App object no two debounces of it overlap, and its credit stays within the refunds owed |
| Refunds.FlushOvercredits | internal/app/agent/service/tenant_service.go:229-234 | the write of a positive offset leaves Redis overcredited exactly when Offset is by then less than what was read and what was received but not subtracted |
| Refunds.OvercreditedExactly | internal/app/agent/service/tenant_service.go:199-243 | main result: Redis is ever credited too much for one App object exactly when some debounce makes such a write |
| Refunds.OverlapCreditsTwice | internal/app/agent/service/tenant_service.go:199-220 | of the service alone: two refunds of one App object, whose debounces both read before either subtracts, are credited as four |
| TenantFlow.AppObject.constructor | internal/app/agent/service/tenant_service.go:162-174 | a request's own App object starts from a given value |
| TenantFlow.TenantService.constructor | internal/app/agent/service/tenant_service.go:159-184 | a proxy starts with the shared Redis key, nothing cached and no timer |
| TenantFlow.TenantService.Access | internal/app/agent/service/tenant_service.go:159-185 | a fresh App from the cache or from nothing, which is then cached, with the script's balance and effect |
| TenantFlow.TenantService.GetTenantApp | internal/app/agent/controller/agent_controller.go:189-217 | an App is returned exactly when the script's balance passes the gate; a refusal has taken its token too |
| TenantFlow.TenantService.Settle | internal/app/agent/controller/agent_controller.go:133-142 | a success or a failure upstream is charged, anything else is refunded, and a debounce is started exactly when no timer is found |
| TenantFlow.TenantService.Debounce | internal/app/agent/service/tenant_service.go:210-253 | what the pipeline writes, what is subtracted and cached after it was acknowledged, that nothing changes locally when it was not, and that the timer is gone either way |
| TenantFlow.PaidWithinRefunds | internal/app/agent/service/tenant_service.go:229-241 | credits never exceed refunds when no request is credited more than it is owed |
| TenantFlow.AccessKeepsInv | internal/app/agent/service/tenant_service.go:159-185 | an access, let through or refused, keeps the token balance sheet |
| TenantFlow.RequestStep | internal/app/agent/service/tenant_service.go:188-253 | a settlement or a debounce step gains the bucket at most what its request is then paid, and keeps the request's own account sound |
| TenantFlow.StepKeepsInv | internal/app/agent/service/tenant_service.go:159-253 | every step of every proxy keeps the balance sheet and the accounts |
| TenantFlow.RunKeepsInv | internal/app/agent/service/tenant_service.go:159-253 | every run from a fresh bucket keeps them |
| TenantFlow.NetAdmission | internal/app/agent/controller/agent_controller.go:128-142 | main result: in every interleaving the requests charged or being served are at most capacity plus recovery |
| TenantFlow.RefundLedger | internal/app/agent/service/tenant_service.go:199-253 | main result: in every run the refunds are those credited, those pending, those lost with a pipeline and those lost to a timer |
| TenantFlow.RefundCreditedExactly | internal/app/agent/service/tenant_service.go:199-243 | a request is credited, and then once, exactly when it was refunded and its own pipeline wrote; it is lost without a debounce exactly when its settlement found a timer |
| TenantFlow.SkippedBehindAnother | internal/app/agent/service/tenant_service.go:202-220 | a settlement finds a timer only while another request of the tenant is being debounced on the same proxy, and stays skipped for ever |
| TenantFlow.TimerLosesRefund | internal/app/agent/service/tenant_service.go:202-220 | for any capacity of two or more there is a run in which the second of two failed requests loses its refund |
| TenantFlow.AdmitsExactly | internal/app/agent/controller/agent_controller.go:195-216 | a request is let through exactly when its answer arrives and there is a token, from the cached App or a new one |
| TenantFlow.RefundedExactly | internal/app/agent/controller/agent_controller.go:133-142 | after any run a request is refunded exactly when its settlement found a status other than Success and Fail |
| TenantFlow.SettledForEver | internal/app/agent/service/tenant_service.go:188-207 | a settled request stays charged exactly for Success and Fail, and then keeps the time of its settlement |
| TenantFlow.LastExactly | internal/app/agent/service/tenant_service.go:225-227 | main result: after any run `last` is the time written by the latest pipeline that wrote one, and absent when none did |
| TenantFlow.ChargedTimeIsWritten | internal/app/agent/service/tenant_service.go:188-227 | the pipeline of a charged request makes the time of its settlement `last` |
| TenantFlow.PaymentReachesRedis | internal/app/agent/service/tenant_service.go:229-232 | a pipeline that writes its credit adds one token to the balance for a refunded request and none for a charged one |
| TenantFlow.CachesExactly | internal/app/agent/service/tenant_service.go:240-250 | what is cached after a debounce: a charged request's App as it is, a refunded one's emptied |
| Scoring.Widen | internal/core/endpoint/selector.go:162-179 | one endpoint moves all five running bounds, an accumulator of 0 counting as unset |
| Scoring.Bounds | internal/core/endpoint/selector.go:159-180 | the loop's maps are the running minimum and maximum of each attribute |
| Scoring.NormalizeEndpointValues | internal/core/endpoint/selector.go:155-199 | every endpoint has a row and every entry of it is the normalised value |
| Scoring.ScoreFavours | internal/core/endpoint/selector.go:183-225 | whatever the other endpoints are, an endpoint nowhere behind another in block number, durations, count and weight scores no less |
| Scoring.ScoreEffects | internal/core/endpoint/selector.go:211-221 | a point of block number counts 2, of weight 1, of count -1.1, all else alike |
| Scoring.DurationEffects | internal/core/endpoint/selector.go:215 | a point of the lesser duration counts -1 and the greater duration nothing |
| Scoring.ScoreBaseline | internal/core/endpoint/selector.go:209-225 | an endpoint at all the running minima scores 200, and no score is negative |
| Scoring.CalculateEndpointScores | internal/core/endpoint/selector.go:201-232 | every endpoint is scored and counted once in the total, in whatever order the map is visited |
| Scoring.TotalIsPositive | internal/core/endpoint/selector.go:280 | the total is positive exactly when some score is |
| Scoring.RunMaxIsMaximum | internal/core/endpoint/selector.go:167-178 | for non-negative values the running maximum is the true one |
| Scoring.RunMinExact | internal/core/endpoint/selector.go:170-175 | the running minimum is 0 when the last value is 0 and otherwise the least value after the last 0 |
| Scoring.MinimumExactly | internal/core/endpoint/selector.go:170-175 | the running minimum is the true one exactly when no value is 0 or the last one is |
| Scoring.NormalizedRange | internal/core/endpoint/selector.go:183-196 | a normalised value is at most 100, and negative exactly when the endpoint is below a running minimum that differs from the maximum |
| Scoring.NormalizedExactly | internal/core/endpoint/selector.go:186-194 | the running minimum is given 0, the maximum 100, the rest in proportion; nothing is told apart where they are equal |
| Scoring.TameIsNonNegative | internal/core/endpoint/selector.go:183-196 | where the minimum is the true one, normalised values are within [0, 100] |
| Scoring.ScoreRange | internal/core/endpoint/selector.go:201-232 | then scores are within [0, 500] |
| Scoring.ArrangingNeverFails | internal/core/endpoint/selector.go:277-282 | then an endpoint at the running minimum of the counts scores at least 100, so the total is positive; block numbers and weights alone need be well-formed |
| Scoring.UntameListFails | internal/core/endpoint/selector.go:280-282 | three endpoints with zeros among their block numbers and weights all score 0: arranging fails |
| Selector.BestIsPreorder | internal/core/endpoint/selector.go:235-270 | the comparator is reflexive, total and transitive; two endpoints are level exactly when all four criteria agree |
| Selector.SortedShape | internal/core/endpoint/selector.go:235-270 | in a sorted list healthy endpoints come first, P95-healthy ones first among them, scores never rise within a class, and update times never fall among equal scores |
| Selector.Insert | internal/core/endpoint/selector.go:284 | one insertion of the stand-in sort keeps the prefix sorted and permutes |
| Selector.SortBy | internal/core/endpoint/selector.go:284 | sorts in place by the comparator, a permutation |
| Selector.Arrange | internal/core/endpoint/selector.go:272-287 | fails exactly when a list of two or more has no positive score and then changes nothing; otherwise sorts in place by the true scores |
| Selector.FilterCounts | internal/core/endpoint/selector.go:83-85 | every endpoint of the wanted kinds is kept as often as it was there, no other at all |
| Selector.FilterInOrder | internal/core/endpoint/selector.go:83-85 | filtering keeps the order |
| Selector.CandidatesExactly | internal/core/endpoint/selector.go:80-124 | exactly the endpoints of wanted types if there are any; otherwise, for cheap methods, exactly the full nodes if there are any; otherwise all |
| Selector.Narrow | internal/core/endpoint/selector.go:80-124 | the candidates: a fresh array of the wanted types, else of full nodes for the listed methods, else the caller's own array |
| Selector.ChanceExactly | internal/core/endpoint/selector.go:133 | the truncated percentage is beaten by a draw exactly when the timeout reaches the draw's next whole share |
| Selector.ProbesExactly | internal/core/endpoint/selector.go:131-133 | a probe is due exactly for a healthy first endpoint, several rotating attempts and a draw below one for every three seconds of timeout |
| Selector.PromoteAt | internal/core/endpoint/selector.go:136 | the in-place splice returns the chosen endpoint before all the others in order, and shifts the shared array |
| Selector.Promote | internal/core/endpoint/selector.go:131-141 | promotes the first unhealthy endpoint exactly when a probe is due and there is one, and splices the shared array exactly then |
| Selector.Shuffle | internal/core/endpoint/selector.go:128 | any shuffle is a permutation |
| Selector.Order | internal/core/endpoint/selector.go:126-145 | the candidates are sorted in place and promoted, or shuffled exactly when they cannot be arranged; what the shared array then holds |
| Selector.Select | internal/core/endpoint/selector.go:72-146 | a non-empty permutation of the candidates for every non-empty input; when arranging succeeds, the promoted form of a list sorted by the true scores; and what the caller's own array then holds |
| Selector.PromotedPermutes | internal/core/endpoint/selector.go:136 | promotion loses and invents no endpoint |
| Selector.PromotedShape | internal/core/endpoint/selector.go:130-141 | at most one unhealthy endpoint precedes a healthy one: the first unhealthy of the arranged order, at index 0; all others keep their order |
| Selector.PromotesExactly | internal/core/endpoint/selector.go:131-141 | an unhealthy endpoint comes first exactly when there is one and a probe is due, or the order begins with one |
| Selector.SplicedExactly | internal/core/endpoint/selector.go:136 | the shared array keeps its endpoints exactly when none was promoted or only the last could be |
| RequestOptions.Attempts | internal/core/reqctx/reqctxs.go:351-363 | always between 1 and 30 |
| RequestOptions.AttemptsExactly | internal/core/reqctx/reqctxs.go:351-363 | a positive `attempts` counts, else a positive `maxRetryCount`, each up to 30, else 3 |
| RequestOptions.Timeout | internal/core/reqctx/reqctxs.go:365-377 | never above five minutes, even when the int64 duration wraps around |
| RequestOptions.TimeoutExactly | internal/core/reqctx/reqctxs.go:367-374 | the timeout is the argument capped at five minutes exactly when its duration fits in an int64 or wraps to one of at least five minutes; without an argument it is 30 seconds |
| RequestOptions.HugeTimeoutWraps | internal/core/reqctx/reqctxs.go:369 | one argument that becomes no time at all |
| Retry.SliceCases | internal/core/client.go:43-49 | the slice is the share from 500 ms per endpoint on, 500 ms below that, and the timeout itself below 500 ms |
| Retry.RotationFitsExactly | internal/core/client.go:43-49 | no slice exceeds the timeout; a rotation's slices sum to at most the timeout exactly when each share is at least 500 ms, there is one endpoint, or the timeout is not positive |
| Retry.Attempt | internal/core/client.go:54-90 | one turn calls the endpoint of the rotation, with the slice only when it is unhealthy, and records request and response exactly when a call is made |
| Retry.Request | internal/core/client.go:33-116 | the loop's verdict and everything it adds to the profile are those of the trace of its turns |
| Retry.TraceIsGood | internal/core/client.go:53-105 | every call before the last neither succeeded cleanly nor timed out, and the values kept are the last call's |
| Retry.CallsFit | internal/core/client.go:53 | no more calls than attempts |
| Retry.RetryTrace | internal/core/client.go:53-115 | main result: at most `attempts` calls, in order, none but the last clean or timed out, and the verdict is the last call's, or "unavailable" |
| Retry.ExhaustedExactly | internal/core/client.go:97-104 | every attempt makes a call and the loop runs out exactly when no turn lacks a client, is clean or times out |
| Retry.LeftExactly | internal/core/client.go:61-104 | the loop is left exactly when a turn was clean, timed out, or lacked the client of a lone endpoint |
| Retry.CalledExactly | internal/core/client.go:53-105 | main result: an attempt makes a call exactly when its endpoint has a client and no turn before ended the loop |
| Retry.ProfilesPairUp | internal/core/client.go:70-90 | the requests and responses added pair up by request id |
| Retry.RotationIsFair | internal/core/client.go:56 | after k turns of the loop each of l endpoints was met k / l times, the first k % l of them once more |
| Retry.EveryRoundMeetsAll | internal/core/client.go:56 | any l turns in a row meet every endpoint exactly once |
| Retry.ProfileGoesRound | internal/core/client.go:53-90 | while no turn ends the loop or lacks a client, the urls in the profile go round the endpoints in order |
| Retry.TurnsExactly | internal/core/client.go:54-87 | attempt i calls the endpoint next in turn, a healthy one with no limit of its own and an unhealthy one with the slice |
| Retry.SameStaysWithFirst | internal/core/client.go:34-36 | with the strategy `same` every attempt goes to the first endpoint |
| SessionKeys.LeqTotal | internal/core/endpoint/websocket_client.go:374 | string order is total and antisymmetric |
| SessionKeys.LeqTransitive | internal/core/endpoint/websocket_client.go:374 | string order is transitive |
| SessionKeys.SortSorts | internal/core/endpoint/websocket_client.go:72 | sorting ids gives a sorted permutation of them |
| SessionKeys.SortedIsUnique | internal/core/endpoint/websocket_client.go:72 | a list of ids has one sorted permutation |
| SessionKeys.ReplyOrderDoesNotMatter | internal/core/endpoint/websocket_client.go:68-74 | a reply whose ids are the request's in any order has the request's key |
| SessionKeys.SplitIdsCollide | internal/core/endpoint/websocket_client.go:375 | any two ids in order and their concatenation share their key, whatever the digest |
| SessionKeys.JoinedIdsCollide | internal/core/endpoint/websocket_client.go:375 | two different batches share their key whatever the digest |
| SessionKeys.KeyForgetsWidths | internal/core/endpoint/websocket_client.go:370-376 | with a digest without collisions, two lists bear the same ids exactly when their keys are equal and their sorted ids have the same widths |
| SessionKeys.PrefixFreeKeysAreExact | internal/core/endpoint/websocket_client.go:370-376 | a corollary: for non-empty ids none of which is a proper prefix of another, keys are equal exactly when the ids are the same up to order |
| SessionKeys.SingleIdKeysAreExact | internal/core/endpoint/websocket_client.go:370-376 | two single requests share a key exactly when they have one id, whatever its width |
| Sessions.StepRoutes | internal/core/endpoint/websocket_client.go:132-141 | every step keeps the sessions, the held batches and the received batches under their own keys |
| Sessions.OnlyOwnReplies | internal/core/endpoint/websocket_client.go:132-141 | main result: in every interleaving a request only receives a batch of its own key |
| Sessions.ReceivedIdsExactly | internal/core/endpoint/websocket_client.go:341-364 | with a digest without collisions, in every run, the batch received bears exactly the ids sent if and only if the sorted ids have the same widths |
| Sessions.ReceivedIdsAreOwn | internal/core/endpoint/websocket_client.go:341-364 | a corollary: so it does for single requests and for prefix-free ids |
| Sessions.RegisterKeepsExclusive | internal/core/endpoint/websocket_client.go:282-283 | registering under an unused key keeps every in-flight key on its own channel |
| Sessions.DeleteKeepsExclusive | internal/core/endpoint/websocket_client.go:286 | deleting one's key keeps every other in-flight key |
| Sessions.CloseKeepsExclusive | internal/core/endpoint/websocket_client.go:287-289 | the owner closes its own, still open channel |
| Sessions.StepKeepsExclusive | internal/core/endpoint/websocket_client.go:282-292 | while keys are distinct, every step keeps the sessions exclusive |
| Sessions.DistinctKeysAreExclusive | internal/core/endpoint/websocket_client.go:282-292 | main result: while in-flight keys are pairwise distinct, `sessions` is exactly the in-flight requests, and each channel is closed once, by its owner, when it is done |
| Sessions.ExclusiveExactly | internal/core/endpoint/websocket_client.go:282-292 | in-flight keys are distinct throughout a run exactly when the sessions are exclusive throughout it |
| SessionFates.DeadExactly | internal/core/endpoint/websocket_client.go:82-140 | in every run a reader is dead exactly when it once sent on a closed channel |
| SessionFates.DeadExactlyWhenTooLate | internal/core/endpoint/websocket_client.go:132-140 | main result: with distinct keys a reader is dead exactly when it once sent a batch, read for a request in flight, after that request was gone |
| SessionFates.StepKeepsStuck | internal/core/endpoint/websocket_client.go:132-147 | a reader blocked on an open channel that nobody receives from and nobody can close stays so at every step |
| SessionFates.HaltedExactly | internal/core/endpoint/websocket_client.go:88-149 | main result: at any moment of any run a reader takes no further step, whatever happens, exactly when it is dead or stuck |
| SessionFates.NeverReadsExactly | internal/core/endpoint/websocket_client.go:132-147 | main result: at any moment of any run a reader will not read again, whatever happens, exactly when it is dead or holds a batch for a request that does not wait on an open channel |
| SessionFates.DistinctKeysNeverStick | internal/core/endpoint/websocket_client.go:132-147 | while in-flight keys are distinct no reader is ever stuck |
| SessionFates.CrashedExactly | internal/core/endpoint/websocket_client.go:284-292 | main result: in every run a request closes a closed channel exactly when another one had loaded the same channel and closed it first |
| SessionFates.ReadForOwnExactly | internal/core/endpoint/websocket_client.go:132-140 | with distinct keys and an honest upstream, a batch goes to the request it answers exactly when that one is in flight as it is read |
| SessionFates.OwnAnswerExactly | internal/core/endpoint/websocket_client.go:341-364 | main result: so a request has received the answer to its own message exactly when it was read for it while its addressee was in flight |
| SessionFates.LateReplyGoesAstray | internal/core/endpoint/websocket_client.go:133-140 | a run with distinct keys and an honest upstream in which a late reply is received by the next request of its key |
| SessionFates.WaitingLeaves | internal/core/endpoint/websocket_client.go:341-367 | a waiting request may time out at any time, and leaves for a closed channel exactly when its own is |
| SessionFates.CleanupEnds | internal/core/endpoint/websocket_client.go:284-292 | in every run a cleanup leaves the key gone, its channel closed, and the request gone, or crashed exactly when that channel was closed before |
| SessionFates.ClashClosesAnother | internal/core/endpoint/websocket_client.go:283-289 | of two requests under one key the first to leave closes the channel of the other, which still waits |
| SessionFates.ClashCrashes | internal/core/endpoint/websocket_client.go:284-292 | a run in which two requests under one key load one channel and the second to close it crashes |
| SessionFates.ClashStrandsReader | internal/core/endpoint/websocket_client.go:133-147 | a run in which a reader is stuck: it holds a batch for the first of two requests under one key, which leaves |
| SessionFates.LateReplyKillsReader | internal/core/endpoint/websocket_client.go:82-140 | a reply loaded before its request gives up is sent on the closed channel, and the reader stops |
| Endpoints.Merge | internal/core/endpoint/provider.go:7-16 | the merged state is the fold of the states in order |
| Endpoints.DefinedExactly | internal/core/endpoint/provider.go:13 | an attribute is defined exactly when some state defines it |
| Endpoints.LastDefinitionWins | internal/core/endpoint/provider.go:8-13 | an attribute is that of the last state defining it |
| Endpoints.PairMerge | internal/app/agent/service/endpoint_service.go:86-88 | merging two endpoints lets the second override the first |
| Endpoints.Collect | utils/helpers/slice.go:6-21 | the map holds, under every id, the left fold of the elements of that id |
| Endpoints.Gather | utils/helpers/slice.go:23-29 | every element of the map, once, in whatever order |
| Endpoints.MergeSlicesBy | utils/helpers/slice.go:4-30 | one element per distinct id; the elements are exactly the left folds of the combiner over all elements of an id |
| Endpoints.FoldedExactly | utils/helpers/slice.go:9-21 | an id has a fold exactly when some element bears it |
| Endpoints.MergedElements | utils/helpers/slice.go:24-27 | as many elements as distinct ids, and exactly the folds |
| Endpoints.OrderDoesNotMatter | utils/helpers/slice.go:25-27 | whatever order the map is read in, the elements are the same |
| Endpoints.IdsCoincideExactly | internal/app/agent/service/endpoint_service.go:90-92 | two endpoints share an id exactly when the chain of one continues to that of the other with the digits before the other's URL |
| Endpoints.OverlapShape | internal/app/agent/service/endpoint_service.go:91 | such an overlap within one chain is one URL, and between chains needs a URL that begins with a digit |
| Endpoints.UniqueIdsAreExact | internal/app/agent/service/endpoint_service.go:90-92 | a corollary: when no URL begins with a digit, ids are equal exactly when chain and URL are |
| Endpoints.DigitUrlsCollide | internal/app/agent/service/endpoint_service.go:91 | two endpoints of different chains share an id |
| Endpoints.MergesAcrossExactly | internal/app/agent/service/endpoint_service.go:94-113 | a merge has one element for each chain and URL exactly when no endpoint overlaps one of another chain |
| Endpoints.FoldIsMerge | internal/app/agent/service/endpoint_service.go:112 | pairwise merging under one id is the merge of all its states at once |
| Endpoints.MergedAttributes | internal/app/agent/service/endpoint_service.go:94-113 | main result: each attribute of a merged endpoint comes from the last list element of its id that defines it |
| Endpoints.MergedKeepsId | internal/app/agent/service/endpoint_service.go:112 | a merge of endpoints with a chain keeps their common id, chain and URL |
| Endpoints.MergedUrlsAreDistinct | internal/app/agent/service/endpoint_service.go:112 | lists of one chain merge into endpoints of that chain with distinct URLs |
| EndpointCache.KnownExactly | internal/core/endpoint/cache.go:63 | a url is a key of the endpoint map exactly when an endpoint of it is listed |
| EndpointCache.OnlyOwnChain | internal/core/endpoint/cache.go:81-84 | a url is listed under exactly its own endpoint's chain |
| EndpointCache.PutNewViews | internal/core/endpoint/cache.go:79-86 | putting an unknown url keeps both maps views of the list with the endpoint appended |
| EndpointCache.PutKnownViews | internal/core/endpoint/cache.go:75-78 | putting a known url under another chain changes nothing that is read |
| EndpointCache.RemoveViews | internal/core/endpoint/cache.go:93-96 | removing a url keeps both maps views of the list without it |
| EndpointCache.PurgeViews | internal/core/endpoint/cache.go:103-109 | purging a chain keeps both maps views of the list without the chain |
| EndpointCache.Cache.constructor | internal/core/endpoint/cache.go:14-21 | a new cache is empty |
| EndpointCache.Cache.Chains | internal/core/endpoint/cache.go:23-34 | every key of the chain map, once |
| EndpointCache.Cache.GetAll | internal/core/endpoint/cache.go:36-57 | exactly the endpoints of the chain, in first-put order, none of them nil; found exactly when there is one |
| EndpointCache.Cache.Get | internal/core/endpoint/cache.go:59-68 | found exactly when an endpoint of the url is listed, and then that endpoint |
| EndpointCache.Cache.Put | internal/core/endpoint/cache.go:70-87 | appends an endpoint of an unknown url and changes nothing listed otherwise; which chains become keys |
| EndpointCache.Cache.Remove | internal/core/endpoint/cache.go:89-97 | drops the endpoint of the url, if any, and keeps the chain a key |
| EndpointCache.Cache.Purge | internal/core/endpoint/cache.go:99-111 | drops the chain's endpoints and its key, and counts them |
| EndpointCache.Load | internal/app/agent/service/endpoint_service.go:94-113 | the configured endpoints when the provider has nothing, otherwise the merge of both lists |
| EndpointCache.ServiceGetAll | internal/app/agent/service/endpoint_service.go:69-78 | the chain's endpoints, or, when there are none, what was loaded, which is then put |
| EndpointCache.ServicePurge | internal/app/agent/service/endpoint_service.go:80-84 | both maps end empty |
| EndpointCache.SecondGetAllExactly | internal/app/agent/service/endpoint_service.go:69-78 | main result: for a chain with nothing listed, a second `GetAll` that would load the same answers the same exactly when all loaded endpoints carry the chain under distinct urls not listed before, or none of the chain has a new url |
| EndpointCache.ListedExactly | internal/app/agent/service/endpoint_service.go:72-76 | what is then listed for the chain is what was loaded exactly in the first of these cases |
| EndpointCache.NothingListedExactly | internal/app/agent/service/endpoint_service.go:72-76 | nothing is listed for the chain exactly when no loaded endpoint of it has a url that is new at its turn |
| EndpointCache.SharedUrlIsLost | internal/core/endpoint/cache.go:74-78 | a url configured for two chains is lost to the second of them from its second `GetAll` on |
| EndpointCache.LoadedOnce | internal/app/agent/service/endpoint_service.go:69-113 | the merge of any configured and provided lists that carry the chain, under urls not listed, is listed as it is |
| EndpointCache.ReplayExactly | internal/core/endpoint/cache.go:70-111 | after any run urls are distinct, and an endpoint is listed exactly when some Put of it met an unknown url and no Remove or Purge dropped it since |
| EndpointCache.FirstPutOrder | internal/core/endpoint/cache.go:84 | the list is in the order of the Puts that count |

## Left out

- HTTP and WebSocket servers, dialing, reconnecting, ping loops, close handlers, AMQP, etcd, Postgres, Prometheus, logging and configuration are not modelled.
- JSON decoding and schema validation are not modelled: requests and replies are parsed values, a missing member counts as null, and a round trip through Redis is the identity. A number is the text that Go prints for it. Params are the value that Go encodes; the escapes it chooses are not modelled, only that a text determines its value.
- `helpers.Short` (MD5) is a function parameter; only the lemmas that say so take it to be free of collisions.
- Redis expiry is the loss of any keys at any time; which keys expire when is stated by `StaleWindow` only. How the Redis client rounds a TTL that is not whole milliseconds, and the one negative TTL it reads as an order to keep the old one, are not modelled.
- AgentService.Service.Call: runs on one snapshot of the store, because other calls do not interleave with a method; the interleaving of single Redis commands is in `EveryRunIsTransparentExactly`.
- Upstream answers are a fixed function of chain, method and params; what a cached answer is worth after the chain has moved on is not modelled.
- The clock is an input of every step, so time may stand still or go back.
- Floating point is exact `real` arithmetic, in scores, shares and probabilities; attributes are taken to be non-negative where a lemma says `Sane`. The script's Lua numbers are exact integers.
- Random draws and shuffles are arbitrary choices; nothing is said about probabilities. The library's sort and shuffle are replaced by an insertion sort and arbitrary swaps.
- The attributes of an endpoint are a snapshot taken for one selection; another goroutine changing them during it is not modelled.
- Endpoint cache operations are atomic, although `GetAll` takes its lock twice; endpoints keep their url and chain, and a nil URL is not modelled.
- The endpoint refresh from metrics in `internal/app/agent/service/endpoint_service.go` is not modelled.
- The local App cache (bigcache) keeps one entry per proxy that may be evicted at any time; the tenant's own data, invalid tokens and a change of capacity or rate are not modelled.
- The client-facing WebSocket handler is not modelled; it takes no token and settles nothing.
- A script call that fails before Redis is reached is not an event: it changes nothing.
- Profiles keep the Requests and Responses lists only, with their request ids and urls; the `Version` member of a response is not modelled.
- A panic while merging ends the call; what the server makes of it is not modelled.
- `internal/app/agent/service/cache.go` (`_CacheKey`, `_WithCache`) is not used by the modelled path.
- ArrangingNeverFails: gives a sufficient condition in terms of single attributes; the exact condition, some positive score, is that of `Selector.Arrange`.
- UniqueIdsAreExact: asks that no URL begins with a digit; the exact condition is that of `IdsCoincideExactly`.
- PrefixFreeKeysAreExact: asks for prefix-free ids; the exact condition is that of `KeyForgetsWidths`.
- ReceivedIdsAreOwn: asks for prefix-free or single ids; the exact condition is that of `ReceivedIdsExactly`.
- SecondGetAllExactly: takes the second load to be the first one again; a configuration or a provider that changes, or another order of the merged list, is not modelled there.
- CrashedExactly: after a crash the other requests of the model go on, while an unrecovered panic ends the whole process.
