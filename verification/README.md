# A verified model of oauth4os

oauth4os is an OAuth 2.0 proxy in front of OpenSearch, written in Go. Its logic is a set of lock-protected
state machines (token manager, authorization grants, caches, limiters), a policy engine with its own parser, and
some encoders. This project models them in Dafny and proves what they promise over whole runs.

`dafny verify dfyconfig.toml` checks everything.

## How the model is laid out

| files | what they model |
|---|---|
| `TokenModel`, `TokenRuns`, `TokenTheorems`, `TokenLifetimes`, `FamilyRevocation` | the token manager as values: one function per section under its lock, runs in which these sections interleave, the theorems about all runs, from mint to end of a token, and how long a family revocation lasts |
| `TokenManager`, `TokenHandlers`, `TokenAnswers` | the same manager as an object with heap records and maps, every method tied to the functions above; the two token-endpoint grants tied to the runs; what they answer and store for every input |
| `ScopeMapper`, `Introspection` | scopes to backend roles; introspection and its TTL cache in front of the manager |
| `Pkce`, `PkceFlow`, `Ciba`, `Device`, `DeviceRuns`, `DeviceTrace` | the three ticket protocols, as objects and as runs, and what their participants are answered, read off the trace |
| `ClientStore` | the persistent client list over a small file system with a crash possible between any two system calls |
| `Breaker`, `TokenBucket` | the timed controllers |
| `CedarEngine`, `CedarGlob`, `CedarParser`, `CedarConditions`, `CedarPrinter`, `CedarRoundTrip`, `CedarTail`, `CedarMeaning` | policy evaluation; what patterns match; the parser; a printer for the documented format and the round trip; what the parser leaves unread; what a written policy decides |
| `ResponseCache`, `LogRotation`, `Metrics`, `SigV4`, `SigV4Query` | the response cache, the rotating log writer, the lock-free summary, the AWS Signature Version 4 strings |
| `Text`, `Substrings`, `Options` | Go's string functions as the code uses them, and shared lemmas |

Conventions. One section of code under a lock is one atomic step, and so is one atomic operation. The clock is a
parameter; where the code reads it twice in one call (refresh, `TouchToken`, PKCE `Consent`, the limiter) so does the
model. Times are integers (nanoseconds), 0 being Go's zero time.
Generated identifiers are parameters that are assumed fresh. SHA-256 with base64url is an arbitrary function. A Go
string is a sequence of characters; where the code works on bytes (SigV4) every character is below 256. Handlers take
parsed parameters and return what decides the HTTP reply.

## Where the code differs from what one would expect

These are behaviours of the code as it is. Each names the member that states it, with the exact condition where the
expected property holds only sometimes.

- The refresh grant does not read `Revoked`, so an access-token revocation leaves the refresh token usable until
  `Cleanup` removes it (`RefreshIgnoresRevocation`, `RevokeThenCleanup`).
- The same holds for a refresh token revoked as RFC 7009 describes (`RevokedRefreshEndsWithCleanup`).
- `Cleanup` removes the refresh entry together with the expired access token, so a refresh token outlives its access
  token only until the next `Cleanup`, whatever its own lifetime (`RefreshSurvivesCleanupExactlyWhen`).
- Revoking a family does not last while a call of the client is between its two lock sections, or while one of its
  refresh tokens is still accepted (`RevocationLastsExactlyWhen`, `ReplayLastsExactlyWhen`); after `RevokeByClient`
  and `Cleanup` only a pending call can undo it (`RevokeAndCleanupLastsExactlyWhen`).
- `TouchToken` brings expired tokens back (`TouchRevivesExpiredOnly`); only revocation is permanent.
- A lookup that was on its way when a token was revoked can put an "active" answer into the introspection cache
  afterwards; the bound "inactive after one TTL" holds exactly when none is in flight
  (`RevocationReachesTheCacheExactlyWhen`, with a run that gets there: `StaleFlightIsReachable`).
- A limit of 0 requests per minute is read as "no limit seen yet" (`LowestAppliesExactlyWhen`).
- An unreadable client file next to a readable backup is moved over that backup by the next Save; crash consistency
  holds exactly when a run does not start that way (`CrashConsistentExactlyWhen`).
- PKCE `Consent` reads the clock twice, once for the expiry test and once for the code; codes are exchanged within
  twenty minutes of the request exactly when these readings are never apart (`TwentyMinutesExactlyWhen`).
- Two overlapping device polls can both issue (`OverlappingPollsBothIssue`, `OverlapIsReachable`,
  `IssuesTwiceOnlyIfOverlapping`), and a denial stored while a poll is under way stops it exactly when the poll has
  not yet passed its check (`DenialStopsExactlyWhen`).
- A summary's maximum starts at 0, so it is exact exactly when some duration is not negative
  (`QuiescentSeriesAreExact`).
- A matching `in` ends a condition list (`ConjunctionExactlyWhen`).
- A pattern is documented to match any sequence for each star. With one star it may match with the two halves
  overlapping, and with more it never matches; `GlobMeansStarsExactlyWhen` says when it means what it says.
- A second `when` or `unless` block replaces the first of its kind (`RepeatedBlockReplaces`,
  `RepeatedBlockKeepsAllExactlyWhen`).
- The parser stops without an error at text that starts with neither keyword, so a misspelt `unless` drops its
  restriction (`TailIsDropped`, `MisspeltUnlessIsDropped`); `ReadToEndExactlyWhen` says which accepted texts are read
  to the end.
- The breaker with a threshold below 1 closes after every success (`ThresholdMustBePositive`).
- `Set` on a full cache evicts even when it replaces a key that is present, so a live entry can be lost with no more
  keys than there is room for (`ReplacingLosesAnother`); `SetLosesNothingExactlyWhen` is the exact condition.

## Model

| member | source | states |
|---|---|---|
| `TokenTheorems.RedeemedAtMostOnce` | internal/token/manager.go:233-276 | Over every run, once an event redeems a refresh token every later attempt on it, whatever happened in between (`Cleanup` included), is answered as a reuse and grants nothing |
| `TokenTheorems.ReplayRevokesTheClient` | internal/token/manager.go:235-241 | Replaying any token redeemed earlier in the run, by any authenticated client: nothing is granted or minted, in that very step every stored token of the client it was issued to is revoked, and no other token changes |
| `FamilyRevocation.RevocationLastsExactlyWhen` | internal/token/manager.go:235-241 | Once all stored tokens of a client are revoked, they stay revoked in every continuation in which the client starts no client_credentials or direct grant, if and only if no call of the client is between its two lock sections and none of its refresh tokens would still be accepted |
| `FamilyRevocation.ReplayLastsExactlyWhen` | internal/token/manager.go:235-241 | After a replay every stored token of the client is revoked, and that lasts if and only if the client had no call pending and no refresh token that would be accepted when the replay came |
| `FamilyRevocation.RevokeAndCleanupLastsExactlyWhen` | internal/token/manager.go:390-442 | After `RevokeByClient` and a `Cleanup` the revocation lasts if and only if no call of the client is pending |
| `TokenTheorems.LineageIsChain` | internal/token/manager.go:270-294 | Two grants of one refresh lineage are always one above the other in mint order: a lineage never branches |
| `TokenTheorems.AtMostOneUnrevokedPerLineage` | internal/token/manager.go:270-294 | In every reachable state, two stored unrevoked tokens of one lineage are the same token |
| `TokenTheorems.PendingLineageIsRevoked` | internal/token/manager.go:270-294 | Between the consuming and the minting section of a refresh, every stored token of the lineage being rotated is revoked |
| `TokenTheorems.ChainHandsDown` | internal/token/manager.go:274-294 | Along a rotation chain of any length client and family start are unchanged and scopes never grow |
| `TokenTheorems.ScopesAttenuate` | internal/token/manager.go:278-294 | In every run the scopes of a token are a subset of those of every ancestor in its refresh chain |
| `TokenTheorems.ScopesWithinRegistration` | internal/token/manager.go:190-205 | Every token whose lineage starts with client_credentials stays within the scopes registered when the root was validated, if that list was not empty |
| `TokenTheorems.ValidationReadsRegistration` | internal/token/manager.go:527-547 | A client_credentials call gets as far as minting exactly when the client exists and the scopes are within its registration (or that is empty), and what is recorded is that registration |
| `TokenTheorems.AbsoluteLifetime` | internal/token/manager.go:255-276 | Every accepted refresh comes no later than the creation of the root of its lineage plus `refreshMaxLife`, however many rotations lie between, and no later than the presented token's own expiry |
| `TokenTheorems.RevocationIsPermanent` | internal/token/manager.go:123-156 | A token issued and revoked (or already removed) stays so through every continuation, `TouchToken` and minting included, and is never `IsValid` again at any time |
| `TokenTheorems.RunExtends` | internal/token/manager.go:233-343 | The ledger of grants, the redemptions and the issued identifiers only grow, and no used refresh token is ever forgotten |
| `TokenTheorems.ReachableInv` | internal/token/manager.go:233-343 | Every reachable state satisfies index coherence and the lineage invariant, under every interleaving of the lock sections |
| `TokenLifetimes.HonestRefreshExactlyWhen` | internal/token/manager.go:233-344 | In any run, a refresh token that its client has not presented and no sweep has taken since its mint is accepted exactly for that client, up to the mint plus the lifetime configured at the mint, and up to the creation of the root of its lineage (for a root, the mint itself) plus the maximum life configured now |
| `TokenLifetimes.LedgerLifetimes` | internal/token/manager.go:310-330 | Every grant of a run was minted by an event of it, and its refresh token expires at the time of that event plus the lifetime that the trace had configured by then, 30 days if it had not |
| `TokenLifetimes.MintsExactlyWhen` | internal/token/manager.go:278-344 | A waiting call mints exactly when its identifiers are new and, for a refresh, the scopes asked for had been granted; every field of the new token follows, the expiry one hour after the mint |
| `TokenLifetimes.LivesExactlyWhen` | internal/token/manager.go:122-602 | A token stays stored and unrevoked through a continuation if and only if no event of it ends the token: a revocation naming it, its refresh token or its client, its own refresh, a replay of a token of its client, a refresh of an over-aged family of its client, or a sweep after its expiry |
| `TokenLifetimes.ValidExactlyWhen` | internal/token/manager.go:122-134 | Until it is touched, a minted token is valid exactly before one hour has passed since the mint and as long as no event has ended it |
| `TokenAnswers.RefreshIssuesExactlyWhen` | internal/token/manager.go:217-304 | A refresh gives tokens if and only if the client is known, the secret is its, some stored token carries the live refresh token, is the client's and is in time in both respects, and every scope asked for was granted |
| `TokenAnswers.RefreshMakes` | internal/token/manager.go:270-344 | What it then makes, field by field: scopes, one hour, the configured lifetime, the family start kept, the old token revoked and its refresh token spent, nothing else changed |
| `TokenAnswers.WideningSpendsTheToken` | internal/token/manager.go:278-292 | A request for a scope that was not granted is answered with `invalid_scope` and has spent the refresh token |
| `TokenAnswers.RefreshRefuses` | internal/token/manager.go:226-267 | Without an acceptable token: `invalid_client` and no change for an unknown client or a wrong secret, else `invalid_grant` |
| `TokenAnswers.RefusalRevokesExactly` | internal/token/manager.go:235-267 | Such a refusal revokes exactly the tokens of the client that had spent the presented token before, or of the caller when its family is past the maximum life, or none; and forgets the caller's own late refresh token |
| `TokenAnswers.CredentialsAnswers` | internal/token/manager.go:173-215 | The client_credentials grant: the reply for every input, the scopes defaulting to the registered ones, every field of the new token, and no change on a refusal |
| `TokenRuns.StepKeepsInv` | internal/token/manager.go:233-343 | Each lock section (register, consume, mint, the four revocations, touch, cleanup) keeps the whole invariant |
| `TokenRuns.RunKeepsInv` | internal/token/manager.go:233-343 | The invariant survives every sequence of lock sections from any state that has it |
| `TokenModel.ConsumeKeepsCoherence` | internal/token/manager.go:233-276 | The consuming section keeps the four maps coherent on each of its six outcomes: live refresh entries point to stored tokens that carry them, stored tokens are in their client's family, live and used are disjoint |
| `TokenModel.StoreKeepsCoherence` | internal/token/manager.go:337-341 | Storing a minted token with fresh identifiers keeps the four maps coherent |
| `TokenModel.CleanupKeepsCoherence` | internal/token/manager.go:429-442 | Removing the dead tokens and the refresh entries they carry keeps the four maps coherent |
| `TokenModel.TouchKeepsCoherence` | internal/token/manager.go:138-156 | The sliding window changes nothing that coherence depends on |
| `TokenModel.RedeemsExactlyWhen` | internal/token/manager.go:233-276 | A refresh is accepted exactly when the token is live, owned by the caller, not past its own expiry and its family is not past the maximum life |
| `TokenModel.FamilyIsTheClient` | internal/token/manager.go:382-388 | Revoking a family revokes every stored token of that client and changes no other token |
| `TokenModel.FamilyListsActive` | internal/token/manager.go:391-402 | The unrevoked tokens found through the family list are exactly the client's, each once, and none is left unrevoked |
| `TokenModel.RevokeThenCleanup` | internal/token/manager.go:391-442 | Revoking a client and then cleaning up leaves it no stored token and no live refresh entry, and leaves every live token of other clients alone |
| `TokenModel.CleanupMatchesStats` | internal/token/manager.go:429-468 | `Cleanup` removes exactly as many tokens as `Stats` counts as revoked plus expired, and afterwards both counts are zero |
| `TokenModel.RefreshSurvivesCleanupExactlyWhen` | internal/token/manager.go:429-442 | After `Cleanup` a refresh token is accepted if and only if it was accepted before and the access token issued with it was neither revoked nor expired, however long the refresh token had left |
| `TokenModel.CleanupKeepsValidity` | internal/token/manager.go:429-442 | `Cleanup` changes no answer of `IsValid` from then on |
| `TokenModel.RevokedRefreshEndsWithCleanup` | internal/token/manager.go:585-597 | Revoking a refresh token leaves it exactly as acceptable as before; after the next `Cleanup` it is never accepted |
| `TokenModel.RefreshIgnoresRevocation` | internal/token/manager.go:249-274 | Two states that differ only in `Revoked` and `ExpiresAt` accept the same refreshes |
| `TokenModel.TouchRevivesExpiredOnly` | internal/token/manager.go:138-156 | Touching a token at or past expiry makes it valid again exactly when it is not revoked (save for a one-nanosecond window at the very instant of expiry) |
| `TokenManager.Manager.constructor` | internal/token/manager.go:62-73 | A new manager is empty and coherent, with the default lifetimes |
| `TokenManager.Manager.RegisterClient` | internal/token/manager.go:88-93 | Replaces the client's registration and nothing else |
| `TokenManager.Manager.AuthenticateClient` | internal/token/manager.go:513-525 | Succeeds exactly when the client is known and the secret given equals its secret |
| `TokenManager.Manager.ValidateScopes` | internal/token/manager.go:527-547 | The loop over a set of allowed scopes accepts exactly the requests within the registration, or any request when nothing is registered |
| `TokenManager.Manager.IsValidToken` | internal/token/manager.go:122-134 | Valid exactly when stored, not revoked and before expiry |
| `TokenManager.Manager.ValidateRedirectURI` | internal/token/manager.go:106-120 | The loop accepts exactly the redirects that a known client has registered |
| `TokenManager.Manager.RevokeFamily` | internal/token/manager.go:381-388 | Marks the records of the family list in place; the abstract state is the family revocation of the model |
| `TokenManager.Manager.RevokeByClient` | internal/token/manager.go:390-402 | As the family revocation, and the returned count is the number of the client's tokens that were not revoked |
| `TokenManager.Manager.RevokeToken` | internal/token/manager.go:549-558 | Revokes that token and no other, and does nothing for an unknown one |
| `TokenManager.Manager.RevokeRFC7009` | internal/token/manager.go:560-602 | Fails only for a named client that is unknown or whose secret is another, without a change; otherwise exactly the token so named and, unless the hint excludes it, the one carrying the value as refresh token are revoked |
| `TokenManager.Manager.TouchToken` | internal/token/manager.go:136-156 | Moves the expiry in place exactly when less than half the window is left at the first clock reading and the token is not revoked; the new expiry counts from the second reading |
| `TokenManager.Manager.Cleanup` | internal/token/manager.go:428-442 | The deleting loop keeps exactly the tokens that are neither revoked nor past their expiry, drops the refresh entries of the others, and returns how many these are |
| `TokenManager.Manager.Stats` | internal/token/manager.go:444-468 | The counting loop returns the sizes of the sets of active, revoked and expired tokens |
| `TokenManager.Manager.CreateTokenWithFamily` | internal/token/manager.go:310-344 | The new token lives one hour and its refresh token `refreshTTL` from now, it keeps an inherited family start or begins one, enters the three indexes and keeps coherence |
| `TokenManager.Manager.ConsumeRefresh` | internal/token/manager.go:233-276 | The section under the lock, with its in-place changes and its two clock readings, is the consuming step of the model on every branch |
| `TokenManager.Manager.Narrow` | internal/token/manager.go:278-292 | A scope request is granted exactly when every requested scope was granted before |
| `TokenManager.Manager.HandleRefreshToken` | internal/token/manager.go:217-304 | The whole refresh grant: state and reply for each failure and for success; a refused narrowing has already spent the refresh token |
| `TokenManager.Manager.HandleClientCredentials` | internal/token/manager.go:173-215 | The whole client_credentials grant, with the default to the registered scopes |
| `TokenHandlers.RefreshIsRedeemThenMint` | internal/token/manager.go:217-304 | A refresh grant run without interruption is the consuming step followed by the minting step of the run model: same manager state, a ledger entry exactly when tokens are returned, with the scopes returned |
| `TokenHandlers.CredentialsIsValidateThenMint` | internal/token/manager.go:173-215 | A client_credentials grant run without interruption is the validating step followed by the minting step of the run model |
| `TokenHandlers.DirectIsBeginThenMint` | internal/token/manager.go:509-511 | A token minted for another flow carries the client and scopes it was asked for and starts a family of its own |
| `ScopeMapper.Mapper.MapForIssuer` | internal/scope/mapper.go:33-39 | The result holds exactly the roles some requested scope has in the issuer's own mapping, or in the global one when it has none |
| `ScopeMapper.FirstsInOrder` | internal/scope/mapper.go:41-55 | Of any two roles in the result, the first one occurs before the second in what the scopes lead to |
| `ScopeMapper.AllRolesInOrder` | internal/scope/mapper.go:44-46 | What a list of scopes leads to is what its parts lead to, in order |
| `ScopeMapper.RolesOfOne` | internal/scope/mapper.go:44-46 | A scope that is mapped leads to its roles in configuration order, any other to none |
| `ScopeMapper.Mapper.Resolve` | internal/scope/mapper.go:41-55 | The two loops with a seen-set compute the first occurrences of all roles in order |
| `ScopeMapper.Mapper.AddNew` | internal/scope/mapper.go:46-51 | The inner loop appends the roles not seen before and keeps list and seen-set in step |
| `ScopeMapper.Mapper.constructor` | internal/scope/mapper.go:17-26 | Only tenants that map something are kept |
| `ScopeMapper.RolesNeverGrow` | internal/scope/mapper.go:41-55 | For a fixed mapping, along a refresh chain of any length every role a token resolves to is one its ancestors resolved to |
| `Introspection.AdapterAgreesWithIsValid` | internal/introspect/handler.go:93-107 | Introspection answers active exactly when `IsValid` does, or at the very instant of expiry |
| `Introspection.CachedLookup.Introspect` | internal/introspect/handler.go:93-144 | An entry younger than the ttl answers without a change; otherwise the answer has the scopes, client, expiry and issue time of the stored token if that is neither revoked nor past its expiry, is inactive if not, and is remembered with the time of the store |
| `Introspection.CachedLookup.constructor` | internal/introspect/handler.go:123-128 | A time to live that is not positive becomes thirty seconds |
| `Introspection.OneCallAlone` | internal/introspect/handler.go:130-144 | A call run without interruption is a hit, or a read followed by its store, of the interleaved machine |
| `Introspection.AnswersWereRead` | internal/introspect/handler.go:93-144 | Every answer of every run, cached or not, describes field by field what the manager held when an earlier call read it, and is given less than one ttl after that call stored it |
| `Introspection.RevocationReachesTheCacheExactlyWhen` | internal/introspect/handler.go:130-144 | After a revocation at time r, in every continuation and whatever was cached, all answers from r + ttl on are inactive if and only if no lookup that read the token as active is still in flight at r |
| `Introspection.StaleFlightIsReachable` | internal/introspect/handler.go:130-144 | From the empty manager and cache a run of four events leads to a revoked token for which the bound of one ttl does not hold |
| `Introspection.RevokedIsInactiveAfterTtl` | internal/introspect/handler.go:130-144 | With nothing in flight at the revocation, every answer from r + ttl on is inactive and the token is never `IsValid`, in every continuation |
| `Pkce.Handler.Authorize` | internal/pkce/handler.go:60-97 | Stores a pending consent exactly when client and redirect are given, the redirect is registered and the method is S256 or absent |
| `PkceFlow.AuthorizeAcceptsExactlyWhen` | internal/pkce/handler.go:68-94 | In any run, a request with a fresh consent id enters the pending consents if and only if client and redirect are not empty, the redirect is registered or nothing validates it, and the method is absent or S256 |
| `PkceFlow.HonestFlowIssuesExactlyWhen` | internal/pkce/handler.go:60-192 | A request so accepted, approved within ten minutes and turned into a code calls the issuer at its exchange, for its client and scopes, if and only if the exchange comes within ten minutes with the same redirect and a verifier for the challenge, whatever any number of other events come in between |
| `PkceFlow.CallsComeFromFlows` | internal/pkce/handler.go:60-192 | Every issuer call of every run comes from four events in order: an accepted request, its approval within ten minutes, the making of the code by that same call, and the exchange of that code within ten minutes; client, scopes, redirect and challenge are those of the request |
| `PkceFlow.ConsentIsTakeThenStore` | internal/pkce/handler.go:100-141 | Consent run alone is its two sections in a row |
| `Pkce.Handler.Consent` | internal/pkce/handler.go:100-141 | The pending consent is taken in every case; a code carrying its client, scopes, challenge and redirect is stored exactly when it is known, in time and approved |
| `Pkce.Handler.Exchange` | internal/pkce/handler.go:144-201 | The code is taken in every case where one was presented, and the outcome is decided in the order expiry, redirect, verifier |
| `Pkce.Handler.Cleanup` | internal/pkce/handler.go:203-212 | The deleting loop keeps exactly the codes not older than ten minutes |
| `Pkce.RunKeepsInv` | internal/pkce/handler.go:60-201 | Under every interleaving, each accepted request is in one place only: pending, between the two sections of Consent, or turned into one code |
| `Pkce.CleanupIsInvisible` | internal/pkce/handler.go:203-212 | Removing old codes changes neither whether nor for what a later exchange issues |
| `Pkce.IssuerCallsAreJustified` | internal/pkce/handler.go:143-201 | In every run issuer calls map injectively to codes, approvals and Authorize requests; each uses that request's client and scopes, the redirect presented is the request's and was among those registered for the client when it was validated, and there was no challenge or a non-empty verifier hashes to it (section 4.6 of RFC 7636) |
| `Pkce.IssuedWithinTwentyMinutes` | internal/pkce/handler.go:112-171 | Every issuer call comes within twenty minutes of its Authorize request plus the time between Consent's two clock readings |
| `Pkce.TwentyMinutesExactlyWhen` | internal/pkce/handler.go:112-137 | Runs whose Consents let at most `gap` pass between their two readings all issue within twenty minutes if and only if `gap` is zero |
| `Pkce.BurnedForever` | internal/pkce/handler.go:155-165 | A generated code that is no longer stored never issues again, whatever happens |
| `Pkce.ExchangeBurnsTheCode` | internal/pkce/handler.go:155-171 | After an exchange of a code, successful or failed, no later exchange of it issues, in every continuation (section 4.1.2 of RFC 6749) |
| `Pkce.HonestExchangeIssues` | internal/pkce/handler.go:150-192 | An exchange issues exactly when the code is stored and in time, the redirect is the same and the verifier fits the challenge |
| `Ciba.Handler.Initiate` | internal/ciba/handler.go:49-78 | Stores an undecided request for five minutes exactly when client and login hint are given |
| `Ciba.Handler.Poll` | internal/ciba/handler.go:81-114 | Each of the four outcomes with its effect on the stored requests: a denial and an issue remove the request |
| `Ciba.Handler.Approve` | internal/ciba/handler.go:117-138 | Sets one flag of the stored record in place and changes no other request |
| `Ciba.IssuedOnceAndOnlyIfApproved` | internal/ciba/handler.go:81-138 | In every interleaving each request issues at most once, only after a stored approval and before expiry, for the client and scopes it was initiated with, and never when a denial is stored before or after |
| `Ciba.DenialIsFinal` | internal/ciba/handler.go:92-97 | Once a denial is stored no later poll issues, whatever else is decided in between |
| `Ciba.ApprovedIssuesNext` | internal/ciba/handler.go:87-105 | A stored request issues at the next poll exactly when it was approved, not denied and is in time, and is then gone |
| `Ciba.PollTellsTheTrace` | internal/ciba/handler.go:49-138 | After any events a poll answers what the trace says: expired without such a request, after five minutes or once an earlier poll in time found a decision; denied if any decision since was a denial; pending if there was none; else tokens for the client and scopes requested |
| `Device.Handler.RequestCode` | internal/device/handler.go:66-105 | A non-empty client gets one new record under both indexes |
| `Device.Handler.Approve` | internal/device/handler.go:156-182 | The decision written through the user-code index is the one seen through the device-code index |
| `Device.Handler.PollToken` | internal/device/handler.go:108-146 | A poll run alone: each outcome, and an issue removes the record from both indexes |
| `Device.Handler.Cleanup` | internal/device/handler.go:185-194 | The deleting loop removes exactly the expired records from both indexes |
| `Device.CleanedUserCodes` | internal/device/handler.go:185-194 | Of the user codes, cleanup keeps exactly those whose device code it keeps |
| `Device.CleanupIsInvisible` | internal/device/handler.go:185-194 | Removing expired codes changes no answer of a later poll |
| `DeviceRuns.DeviceCodeIssuesOnce` | internal/device/handler.go:108-182 | With handlers run one at a time: both indexes always hold the same records, and a device code issues at most once, only after approval, in time, and never when a denial is ever stored (section 3.5 of RFC 8628) |
| `DeviceRuns.IndexesAlwaysAgree` | internal/device/handler.go:116-138 | However polls overlap, the two indexes hold the same records |
| `DeviceRuns.IssuesTwiceOnlyIfOverlapping` | internal/device/handler.go:116-138 | Two polls that both issue for one device code overlapped: neither had deleted before the other fetched |
| `DeviceRuns.OverlappingPollsBothIssue` | internal/device/handler.go:116-138 | From every state with an approved live code, two overlapping polls do both issue |
| `DeviceRuns.OverlapIsReachable` | internal/device/handler.go:116-138 | A run from the empty handler in which two polls both issue for one approved code |
| `DeviceRuns.IssuingCallSaw` | internal/device/handler.go:116-138 | However polls overlap, a call that issues had at one step read its code as in time and not denied, and at a later step as approved |
| `DeviceRuns.DenialStopsExactlyWhen` | internal/device/handler.go:116-182 | A denial stored while a call is under way keeps it from ever issuing if and only if it has not yet passed its check for a denial, or was refused there |
| `DeviceRuns.UninterruptedPoll` | internal/device/handler.go:108-146 | The four steps of a poll taken in a row are the handler's poll |
| `DeviceTrace.PollTellsTheTrace` | internal/device/handler.go:66-194 | With handlers run one at a time, a poll answers what the trace says: expired for a code never requested, after ten minutes, once swept or once issued; denied if any decision was a denial; pending if there was none; else tokens for the client and scopes requested |
| `DeviceTrace.StepsAreTheHandlers` | internal/device/handler.go:66-194 | The machine's request, decision and sweep are the handler's, seen through the two indexes |
| `ClientStore.CrashConsistentExactlyWhen` | internal/token/store.go:21-82 | From a given disk, at every crash point of every sequence of Saves (failed calls, torn temporaries and restarts included) recovery yields the last committed list, if and only if the disk does not start with an unreadable file beside a readable backup |
| `ClientStore.CommittedIsLastCompletedOrInterrupted` | internal/token/store.go:58-82 | The recovered list is never from a Save that returned an error, never older than the last Save that returned success, and if it is from a later one then that Save is in progress or was cut short by a crash |
| `ClientStore.SuccessIsRecovered` | internal/token/store.go:77-81 | What a successful Save wrote is what recovery yields in every continuation until a later Save commits |
| `ClientStore.StepKeepsInv` | internal/token/store.go:58-82 | Every system call of Save, every failure of one and every crash keeps recovery at the last committed list |
| `ClientStore.SnapshotRoundTrip` | internal/token/store.go:35-37 | Registering what a snapshot lists, in any order, restores the registry exactly |
| `ClientStore.Store.constructor` | internal/token/store.go:21-39 | Start-up registers the clients of the file, else of its backup, else none |
| `ClientStore.Store.Clients` | internal/token/manager.go:95-104 | The snapshot lists every registered client once |
| `ClientStore.Store.Save` | internal/token/store.go:58-82 | An uninterrupted Save is the corresponding sequence of system calls; it succeeds exactly when write and rename do, and then recovery restores the registry; a failed one leaves recovery as it was, unless an unreadable file hides a readable backup |
| `Breaker.ClosedExactlyBelowThreshold` | internal/circuit/breaker.go:37-69 | After any trace of requests and late reports the circuit is closed exactly when the trailing run of 5xx reports is below the threshold |
| `Breaker.ThresholdMustBePositive` | internal/circuit/breaker.go:30-34 | After a success that characterisation holds if and only if the threshold is at least 1 |
| `Breaker.AdmitsExactlyWhen` | internal/circuit/breaker.go:37-69 | After any trace, and for any threshold, a request is let through if and only if the failures since the last success are none or fewer than the threshold, or no request was let through since the last failure and one cooldown has passed since it |
| `Breaker.SuccessLetsAllThrough` | internal/circuit/breaker.go:65-68 | After a success, such as the probe's, every request is let through until the next report |
| `Breaker.FailuresShutOut` | internal/circuit/breaker.go:59-64 | As many 5xx in a row as the threshold deny every request within one cooldown of the last of them |
| `Breaker.ProbesAreSpaced` | internal/circuit/breaker.go:37-69 | In any trace, with no success recorded since the trip, the k-th admitted request comes at least k cooldowns after the tripping failure, late failures included |
| `Breaker.OpenPeriodsAddUp` | internal/circuit/breaker.go:44-49 | k admissions after a trip the circuit last opened no earlier than k cooldowns after it |
| `Breaker.ProbeIsAlone` | internal/circuit/breaker.go:49-51 | While a probe is out and nothing is reported, no request is admitted |
| `Breaker.CircuitBreaker.AllowRequest` | internal/circuit/breaker.go:37-53 | The decision and the state change of each mode |
| `Breaker.CircuitBreaker.RecordStatus` | internal/circuit/breaker.go:56-69 | Counting, tripping and closing as in the traces |
| `TokenBucket.WindowBound` | internal/ratelimit/limiter.go:21-36 | In every window [s, t] of every run a bucket admits at most capacity + rate * (t - s) requests |
| `TokenBucket.AdmitsExactlyWhen` | internal/ratelimit/limiter.go:21-36 | A bucket opened full admits a request if and only if no window that begins with an earlier request, or with this one, would then exceed the capacity plus the refill since its beginning |
| `TokenBucket.ClientIsAdmittedExactlyWhen` | internal/ratelimit/limiter.go:80-120 | The same for a client of the limiter, whatever other clients do: the capacity is the limit resolved for its first request, refilled within a minute |
| `TokenBucket.OpensFull` | internal/ratelimit/limiter.go:111-120 | A client's bucket opens with as many tokens as the limit of its first request, and refills a sixtieth of it per second |
| `TokenBucket.TokensStayInBounds` | internal/ratelimit/limiter.go:21-36 | Over every run tokens stay between 0 and the capacity |
| `TokenBucket.AdmittedSplits` | internal/ratelimit/limiter.go:21-36 | Admissions counted over a run are those of its two parts, so the window count is that of the run |
| `TokenBucket.WaitIsEnoughExactlyWhen` | internal/ratelimit/limiter.go:38-45 | After a denial with no other request, a wait leads to admission exactly when it refills one token |
| `TokenBucket.RetryAfterIsTight` | internal/ratelimit/limiter.go:38-45 | Waiting `retryAfter` seconds is always enough; any wait shorter than `retryAfter` - 1 is always denied |
| `TokenBucket.LowestAppliesExactlyWhen` | internal/ratelimit/limiter.go:95-109 | The default applies when no scope has a limit; otherwise the lowest applies if and only if it is not 0 |
| `TokenBucket.Bucket.AllowRequest` | internal/ratelimit/limiter.go:21-36 | Refill, cap and take as in the runs |
| `TokenBucket.Bucket.WaitHint` | internal/ratelimit/limiter.go:38-45 | The hint of the runs, 60 when nothing refills |
| `TokenBucket.Limiter.ResolveRPM` | internal/ratelimit/limiter.go:95-109 | The scanning loop computes the resolved limit |
| `TokenBucket.Limiter.GetBucket` | internal/ratelimit/limiter.go:111-120 | A client keeps the bucket of its first request, a new one starts full with the rate then resolved, and no other bucket changes |
| `TokenBucket.Limiter.AllowClient` | internal/ratelimit/limiter.go:80-85 | The client's own bucket is opened if need be and charged; every other client's bucket is unchanged, and no two clients ever share one |
| `TokenBucket.ClientsAreApart` | internal/ratelimit/limiter.go:80-120 | After any sequence of requests of any clients, each client's bucket is what its own requests alone make of it |
| `Metrics.QuiescentSeriesAreExact` | internal/metrics/metrics.go:98-131 | For any interleaving of atomic operations, whenever no call is in progress an admitted series holds count, sum and minimum of exactly the durations observed on it, and their maximum if and only if one of them is not negative |
| `Metrics.CardinalityIsCapped` | internal/metrics/metrics.go:103-116 | At every moment of every interleaving there are at most 1000 series |
| `Metrics.DroppedOnlyWhenFull` | internal/metrics/metrics.go:103-116 | A call drops its duration only for a series that does not exist, and only beside a thousand others |
| `Metrics.RunKeepsInv` | internal/metrics/metrics.go:98-131 | At every moment each series holds exactly what the finished parts of the calls amount to, and a call that dropped its duration saw a full summary |
| `Metrics.SummaryData.Take` | internal/metrics/metrics.go:117-130 | The additions and the two retry loops, undisturbed, take one duration into the data |
| `Metrics.Summary.ObserveDuration` | internal/metrics/metrics.go:98-131 | One undisturbed call admits the series unless the summary is full and changes no other series |
| `Metrics.UndisturbedCall` | internal/metrics/metrics.go:98-131 | A call of the interleaved machine that nothing disturbs finishes within eight operations with the effect of the object's call |
| `CedarEngine.Engine.Evaluate` | internal/cedar/engine.go:77-112 | The early-exit loop allows exactly when some permit applies and no forbid does, and names the first forbid, else the first permit |
| `CedarMeaning.WrittenConditionMeans` | internal/cedar/engine.go:77-340 | A written permit with one condition, parsed and evaluated, allows exactly the requests whose value for the field satisfies it (`when`) or does not (`unless`); the value is the principal's or resource's attribute after the dot, the action, or for an undotted field the first of action, principal and resource |
| `CedarMeaning.OneConditionVerdict` | internal/cedar/engine.go:77-211 | The verdict on one condition, in a permit, in an exception and in a forbid beside a permit of everything |
| `CedarMeaning.HoldsExactlyWhen` | internal/cedar/engine.go:156-211 | A condition holds if and only if the value its field names equals, differs from, has as a part, or is an item, trimmed, of the comma-separated list |
| `CedarMeaning.EveryFieldReads` | internal/cedar/engine.go:187-211 | Every field, dotted or not, names a value |
| `CedarMeaning.TargetMeansStarsExactlyWhen` | internal/cedar/engine.go:143-154 | A written target matches all values as its stars mean if and only if it is not empty, has at most one star, and the halves around it cannot overlap |
| `CedarMeaning.WrittenTargetsMean` | internal/cedar/engine.go:77-300 | A written permit with such targets, parsed and evaluated, allows exactly the requests whose principal's `sub`, whose action and whose resource's `index` match them |
| `CedarEngine.OrderIsIrrelevant` | internal/cedar/engine.go:77-112 | Permuting the policies never changes the verdict |
| `CedarEngine.AddingPolicies` | internal/cedar/engine.go:124-128 | A new forbid takes away exactly the requests it applies to; a new permit adds exactly those it applies to and nothing forbids |
| `CedarEngine.AddRemoveRestoresExactlyWhen` | internal/cedar/engine.go:124-141 | Adding a policy and removing its id restores the policies if and only if every policy from the first with that id on equals the added one, as when the id is unused |
| `CedarEngine.Engine.AddPolicy` | internal/cedar/engine.go:124-128 | Appends the policy |
| `CedarEngine.Engine.RemovePolicy` | internal/cedar/engine.go:131-141 | Removes the first policy with the id and answers whether there was one |
| `CedarEngine.EvalConditions` | internal/cedar/engine.go:156-185 | The loop holds exactly when every condition up to and including the first `in` holds |
| `CedarEngine.InList` | internal/cedar/engine.go:174-178 | Membership in the comma-separated list, items trimmed |
| `CedarEngine.ConjunctionExactlyWhen` | internal/cedar/engine.go:172-179 | For all fields and values, conditions with given operators mean their conjunction if and only if no reachable `in` has a condition after it |
| `CedarEngine.OneStar` | internal/cedar/engine.go:214-227 | A one-star pattern matches exactly the values with its first half as prefix and its second as suffix |
| `CedarEngine.GlobIsWildcardExactlyWhen` | internal/cedar/engine.go:214-227 | For all values, a one-star pattern means "first half, anything, second half" if and only if no end of the first half begins the second |
| `CedarGlob.GlobMeansStarsExactlyWhen` | internal/cedar/engine.go:213-227 | For every pattern: it matches against all values as its stars mean, each standing for any text, if and only if it has at most one star and the halves around it cannot overlap |
| `CedarGlob.MoreStarsNeverMatch` | internal/cedar/engine.go:221-225 | A pattern with two or more stars matches no value |
| `CedarParser.ParsePolicy` | internal/cedar/engine.go:230-290 | The consuming loop ends, because every block shortens the text, and computes the specified result or error |
| `CedarParser.ParseConditionBlock` | internal/cedar/engine.go:302-327 | The block parser computes the specified conditions and rest, or the first error |
| `CedarParser.ParseBlock` | internal/cedar/engine.go:302-327 | What is left after a block is strictly shorter than the text it was taken from |
| `CedarConditions.ConditionRoundTripExactlyWhen` | internal/cedar/engine.go:329-340 | Printing a condition and parsing it gives it back if and only if its field is trimmed, its value has no quote at either end, the field has no occurrence of the operator and neither has one of an operator tried before it |
| `CedarPrinter.MatchRoundTripExactlyWhen` | internal/cedar/engine.go:292-300 | Printing a target and parsing it gives it back if and only if it is in the form the parser produces |
| `CedarPrinter.ReadAllExactlyWhen` | internal/cedar/engine.go:313-326 | All conditions of a block come back if and only if each is printable |
| `CedarRoundTrip.PrintedParses` | internal/cedar/engine.go:230-290 | For every policy that keeps clear of the delimiters, whatever solid text follows it, parsing the printed text finds the same effect and targets, reads each condition by itself and goes on with what follows |
| `CedarRoundTrip.ParsedIsDelimited` | internal/cedar/engine.go:230-290 | Everything the parser accepts, from any text, keeps clear of the delimiters |
| `CedarRoundTrip.RoundTripExactlyWhen` | internal/cedar/engine.go:230-290 | Parsing a printed policy gives the same policy if and only if the policy is printable: clear of the delimiters and operators of the grammar |
| `CedarRoundTrip.RepeatedBlockReplaces` | internal/cedar/engine.go:268-286 | A second `when` block replaces the conditions of the first, and a second `unless` block those of its first |
| `CedarRoundTrip.RepeatedBlockKeepsAllExactlyWhen` | internal/cedar/engine.go:268-286 | Of two blocks of one kind all conditions are kept, in order, if and only if the first block is empty |
| `CedarTail.ReadToEndExactlyWhen` | internal/cedar/engine.go:264-287 | The loop over the blocks reads an accepted text to the end, but for a closing semicolon, if and only if the text is a list of when and unless blocks and then nothing or that semicolon |
| `CedarTail.TailIsDropped` | internal/cedar/engine.go:284-289 | A printed policy followed by any solid text that starts with neither keyword parses as if that text were not there |
| `CedarTail.MisspeltUnlessIsDropped` | internal/cedar/engine.go:284-289 | A permit restricted by a misspelt `unless` parses as the unrestricted permit, whatever its block says |
| `ResponseCache.CacheIsFaithful` | internal/cache/cache.go:43-75 | Over every run the size never exceeds `maxSize`, a stored entry is its key's latest Set, and a key is absent only if every kept key expires no earlier than its last Set did |
| `ResponseCache.GetIsLatestAndLive` | internal/cache/cache.go:43-51 | `Get` returns the latest Set of the key, within its time to live, or nothing |
| `ResponseCache.SetLosesNothingExactlyWhen` | internal/cache/cache.go:54-75 | Whichever oldest entry is chosen to make room, a Set keeps every other entry if and only if there is room or the key replaced is itself the one that expires strictly first |
| `ResponseCache.NothingIsLostWithRoom` | internal/cache/cache.go:54-75 | In a run whose Sets all meet that condition, every key whose last Set is alive is answered with it: nothing is evicted or reaped early |
| `ResponseCache.FewSetsAreRoomy` | internal/cache/cache.go:54-75 | Every run with at most `maxSize` Sets is such a run |
| `ResponseCache.ReplacingLosesAnother` | internal/cache/cache.go:54-75 | A run of three Sets on two keys, in a cache for two, after which a live entry is no longer answered |
| `ResponseCache.ReapIsInvisible` | internal/cache/cache.go:86-95 | A reap pass never changes any present or future answer: the cache with and without it can follow each other step for step, in both directions |
| `ResponseCache.Cache.Lookup` | internal/cache/cache.go:43-51 | An entry is returned until its expiry, that instant included |
| `ResponseCache.Cache.Set` | internal/cache/cache.go:54-75 | When full, evicts before it stores, even when the key is present: an entry that expires first, or any entry when the one under the empty key, which the scan takes for "none yet", expires strictly first |
| `ResponseCache.Cache.ReapPass` | internal/cache/cache.go:86-95 | The deleting loop removes exactly the expired entries |
| `LogRotation.RotationIsSound` | internal/accesslog/rotate.go:45-70 | Over any sequence of writes, the backups and the current file read in order are a suffix of everything ever written, at most `maxFiles` backups exist, `size` is the current length, and every file is within `maxBytes`, a single write, or one found on opening |
| `LogRotation.RotationDropsOldestOnly` | internal/accesslog/rotate.go:56-70 | A rotation loses exactly the oldest backup, and only when another takes its place |
| `LogRotation.RotatedAt` | internal/accesslog/rotate.go:58-64 | After a rotation backup j is what backup j - 1 was |
| `LogRotation.RotatingWriter.WriteBytes` | internal/accesslog/rotate.go:45-54 | One write, with the rotation it may cause, on the directory |
| `LogRotation.WriteRotatesExactlyWhen` | internal/accesslog/rotate.go:45-70 | A write that fits within `maxBytes` goes to the end of the current file and leaves the backups alone; one that does not finds a new file, every kept file having moved up by one |
| `LogRotation.FitsWithoutRotation` | internal/accesslog/rotate.go:45-54 | As long as all that is written fits, it is in the current file and nothing is rotated |
| `LogRotation.RotatingWriter.Rotate` | internal/accesslog/rotate.go:56-70 | The descending loop of renames has the effect described by the model |
| `SigV4.UriEncode` | internal/sigv4/transport.go:228-240 | The loop over bytes computes the percent encoding |
| `SigV4.DecodeEncode` | internal/sigv4/transport.go:228-240 | Percent decoding gives back every byte string, whichever way slashes were treated (section 2.1 of RFC 3986) |
| `SigV4.EncodeInjective` | internal/sigv4/transport.go:228-240 | Two strings have the same encoding if and only if they are equal |
| `SigV4.EncodedAlphabet` | internal/sigv4/transport.go:228-240 | Only unreserved characters, percent signs and, when kept, slashes come out |
| `SigV4.EachByteIsWritten` | internal/sigv4/transport.go:228-240 | Wherever it stands, an unreserved character (section 2.3 of RFC 3986) and a slash that is kept are written as they are, every other byte as a percent sign and two upper-case hexadecimal digits |
| `SigV4.CanonicalURI` | internal/sigv4/transport.go:163-174 | Splitting on "/", encoding the segments and rejoining equals encoding the whole non-empty path with slashes kept; the empty path gives "/" |
| `SigV4.CanonicalPathDetermines` | internal/sigv4/transport.go:163-174 | Two paths have the same canonical form if and only if they are equal, the empty path standing for "/" |
| `SigV4Query.CanonicalQueryString` | internal/sigv4/transport.go:176-195 | The sorting loops over the map write every parameter, in order, encoded |
| `SigV4Query.CanonicalQueryDetermines` | internal/sigv4/transport.go:176-195 | Two requests have the same canonical query string if and only if they have the same multiset of parameters, whatever order the map is walked in |
| `SigV4Query.TwoParametersAreWritten` | internal/sigv4/transport.go:176-195 | Two parameters are written in byte order of key and then value, encoded, with "=" after the key and "&" between them |
| `SigV4Query.LeIsBytewise` | internal/sigv4/transport.go:181-187 | The order is that of the first byte that differs, a string coming after its beginnings |
| `Text.SplitWords` | internal/pkce/handler.go:380-395 | The index loop returns the maximal runs of characters other than the space |
| `Text.WordsOfSpread` | internal/pkce/handler.go:380-395 | However many spaces stand before, between and after words, exactly these words are found, in order |
| `Text.WordsOfJoined` | internal/ciba/handler.go:140-155 | A list of words joined with single spaces and split again is the same list |

## Left out

- HTTP parsing, headers, JSON and HTML bodies, redirects, and the wiring in `cmd/proxy`.
- JWT signing and key rotation, DPoP and mTLS binding, constant-time comparison, randomness: identifiers are fresh, secrets are compared by equality.
- `internal/session`, `internal/apikey`, `internal/tokenbind`, `internal/histogram`, `internal/audit`, `internal/analytics`, `internal/loadshed`, the SDKs, the CLI and the test tooling: their invariants would only add easy members.
- The background goroutines: one cleanup or reap pass is an explicit event or method.
- The metrics counter: the summary's double-checked insert with a single atomic addition in place of the rest.
- The list and lookup endpoints that only copy state out (`ListTokens`, `ListClients`, `ListActiveTokens`, `GetToken`, `RetryAfter` of the breaker, bucket status).
- TokenBucket.Bucket.AllowRequest: computes over the reals, so the rounding of float64 is not captured.
- TokenBucket.Bucket.WaitHint: computes over the reals, so the rounding of float64 is not captured.
- TokenBucket.Limiter.GetBucket: the load and the later load-or-store of one call are one step; two first requests of a client that race differ only in which of the two full buckets is kept.
- Metrics.QuiescentSeriesAreExact: counts and sums are unbounded, so wrap-around of the int64 sums is not captured.
- LogRotation.RotatingWriter.WriteBytes: no I/O errors, so short writes and the returned error are not captured, and the number of backups kept is not negative.
- LogRotation.RotatingWriter.Rotate: reopening the file always succeeds, so the fallback to standard error is not captured.
- LogRotation.RotatingWriter.constructor: the directory holds no backup numbered beyond the configured number of backups.
- ClientStore.SnapshotRoundTrip: decoding a completely written file is assumed to give what was encoded; the JSON text itself is not modelled.
- TokenManager.Manager.RevokeRFC7009: where the credentials come from (Basic header or form) is decided before the call.
- ResponseCache.CacheIsFaithful: the evictions of a run take an oldest entry, as `Cache.Set` does unless an entry under the empty key expires first; the proxy's keys (cmd/proxy/main.go:1530) are never empty.
- Device.Handler.RequestCode: the two generated codes are fresh among the stored ones; a collision of the short user codes is not modelled.
- CedarEngine.Engine.RemovePolicy: works on a value, so the sharing of one backing array between the engine and the slice given to `NewEngine` is not captured.
- CedarParser.ParsePolicy: an error returns no policy, where the code also returns the part it had filled in.
- SigV4Query.CanonicalQueryString: parsing the raw query into keys and values is not modelled, and neither are the signed headers, the hashes and the derived key.
