# latch-api, modelled in Dafny

This project models the stateful core of latch-api, the Go backend of a Stellar smart-account
wallet, and proves what its services promise over every input and every run.

Each component has its state, its steps as functions, whole runs as sequences of events, and
theorems about every run. Components that update state in place in Go are also classes whose
methods are proved equal to those steps. Times are integers in milliseconds. A Redis key is alive
strictly before its expiry.

| module | component |
|---|---|
| `Assets`, `Strkey`, `Text`, `Codecs` | asset identities, provider descriptors, hex and base64url |
| `Wrappers`, `Sets`, `Redis` | shared definitions |
| `Provider` | sorting provider records into priced, absent and uncertain |
| `ResolvePool` | the worker pool that resolves contract addresses |
| `PriceLookup`, `PriceBook`, `PriceService` | price lookup behind a positive and negative cache |
| `RateLimit`, `SharedLimit` | the fixed-window limiter, and limiters that share a key |
| `Otp`, `WalletNonce`, `RefreshTokens` | one-time codes, single-use nonces, token rotation |
| `SignerScan` | reading an account's WebAuthn keys rule by rule; passkey origins |
| `Cosign` | the co-signing queue and its sweeper |
| `Notifications`, `Rfc3339` | the keyset-paged feed and the text of its cursor |
| `Deployment` | one network per deployment, agreed at startup |
| `Relayer` | retrying inside one time budget |

Library code that latch-api calls enters as function values with stated laws: the strkey codec
(`Strkey.Lawful`), the address derivation and the float parser of a price (`PriceLookup.Library`),
and the token hash (`RefreshTokens.Sound`). Clocks, random values, provider replies and the
scheduler are parameters or events, so theorems hold for all of them.

## Findings

- A limiter keeps to its limit in every window-long interval if and only if the limit is at most one
  (`RateLimit.LimitHeldIff`). The exact maximum is `2 * limit - 1`, for limits of at least one and
  windows of at least two milliseconds (`RateLimit.SlidingBound`, `RateLimit.BoundAttained`).
- Limiters with different windows that share a key weaken each other: with m short windows in the
  long one the exact maximum is `(m + 1) * (limit - 1) + 1` (`SharedLimit.SharedBound`,
  `SharedLimit.SharedBoundAttained`). The recovery limiter, three requests a day, can admit 51 in a day,
  because requests for sign-in codes open the key they share for an hour at a time
  (`SharedLimit.RecoveryRequestsInADay`).
- The notification feed is complete if and only if no two notifications of a subject share a
  timestamp (`Notifications.FeedCompleteIffTimesDistinct`). The cursor compares with `<`, so of two
  rows with one timestamp the second can be skipped.
- A cursor's text parses back if and only if its year is between 0 and 9999 and its offset is a
  whole number of minutes (`Rfc3339.CursorRoundTrip`).
- The key scan has read every live rule if and only if all their ids are below
  `min(count + 8, 64)` (`SignerScan.ScanIsComplete`); `SignerScan.WideGapIsMissed` is a concrete
  account outside it.
- A one-time-code key is some counter key if and only if the identifier, lower-cased, starts with
  `attempts:` (`Otp.KeysCollideIff`).
- Sweeps spare what a listing shows, at every point of every run, if and only if the configured
  retention is not negative (`Cosign.SparesIffRetentionNotNegative`).

## Model

| member | source | states |
|---|---|---|
| `Assets.Canonicalize` | internal/service/stellar_prices.go:46-90 | an accepted identity is in canonical form, a predicate that does not mention the normalisation |
| `Assets.CanonicalIsFixed` | internal/service/stellar_prices.go:46-79 | canonicalisation returns an identity unchanged if and only if it is canonical |
| `Assets.CanonicalizeIdempotent` | internal/service/stellar_prices.go:46-79 | canonicalising an accepted result again changes nothing |
| `Assets.CanonicalizeIgnoresBlanks` | internal/service/stellar_prices.go:46-52 | blanks around the fields make no difference |
| `Assets.CanonicalizeIgnoresCase` | internal/service/stellar_prices.go:46-52 | neither does the case of a kind, an issuer or a contract; the code is taken as it is |
| `Assets.AcceptedAsIs` | internal/service/stellar_prices.go:53-90 | exactly which native, classic and contract identities are accepted, in terms of characters and decoded payloads |
| `Assets.CanonicalIDInjective` | internal/service/stellar_prices.go:94-105 | two canonical identities share an id if and only if they are equal |
| `Assets.CanonicalIDSpelled` | internal/service/stellar_prices.go:94-105 | the parts of a canonical id of each kind |
| `Assets.ParseDescriptor` | internal/service/stellar_sac.go:42-65 | whatever parses is a canonical native or classic asset |
| `Assets.PrintThenParse` | internal/service/stellar_expert.go:156-180 | every canonical native or classic asset has a provider id, and parsing it gives the asset back |
| `Assets.ProviderIDSpelled` | internal/service/stellar_expert.go:156-180 | XLM for the native asset; code, issuer and a closing 1 for codes of up to four characters, 2 for longer ones |
| `Assets.DescriptorIff` | internal/service/stellar_sac.go:42-65 | a classic descriptor parses, and to that asset, exactly when it closes with the digit its code calls for |
| `Assets.ParseThenPrint` | internal/service/stellar_sac.go:42-65 | for every descriptor that parses, printing the result gives the descriptor back if and only if it was normalised |
| `Assets.ProviderIDInjective` | internal/service/stellar_expert.go:156-180 | two priceable assets share a provider id if and only if they are equal |
| `Codecs.HexRoundTrip` | internal/service/wallet_auth_service.go:79-87 | hex decoding undoes hex encoding on every byte string |
| `Codecs.HexNormalForm` | internal/service/wallet_auth_service.go:116-121 | encoding a decoded hex text gives its lower-case spelling |
| `Codecs.HexSpelled` | internal/service/wallet_nonce.go:69-80 | each byte is its two lower-case digits, high one first (section 8 of RFC 4648) |
| `Codecs.HexAccepts` | internal/service/deploy_proof.go:119-143 | what decodes is exactly pairs of hex digits of either case |
| `Codecs.Base64RoundTrip` | internal/service/wallet_auth_service.go:79-87 | unpadded base64url decoding undoes encoding on every byte string |
| `Codecs.Base64Spelled` | internal/service/wallet_auth_service.go:79-87 | three bytes are the four digits of their 24 bits; a shorter end is padded with zero bits (section 5 of RFC 4648) |
| `Codecs.Digit64Spelled` | internal/service/wallet_auth_service.go:79-87 | the sixty-four digits |
| `Codecs.Base64Accepts` | internal/service/wallet_auth_service.go:116-121 | what decodes, line breaks aside, is exactly digits in whole quanta or two or three more |
| `Codecs.BreaksIgnored` | internal/service/wallet_auth_service.go:116-121 | a line break anywhere in the text makes no difference |
| `Provider.BuildRequested` | internal/service/stellar_expert.go:72-84 | fails exactly on an asset the provider cannot name; otherwise maps each provider id to an asset that has it |
| `Provider.PricedAsUnique` | internal/service/stellar_expert.go:111-145 | records give one provider id at most one price |
| `Provider.VerdictSpelled` | internal/service/stellar_expert.go:111-153 | the verdict in terms of the records: priced exactly when one record names the asset, no other does and its price is good; absent exactly when every record is readable and none names it |
| `Provider.ScanRecords` | internal/service/stellar_expert.go:111-145 | an id is priced exactly when one record names it, validly; the exact conditions for seen ids, for unreadable identities and for no complaint |
| `Provider.Omissions` | internal/service/stellar_expert.go:146-152 | exactly the requested ids no record named |
| `Provider.FetchUSDPrices` | internal/service/stellar_expert.go:66-154 | each asset's batch verdict is the declarative one; priced and absent are disjoint; there is no error exactly when nothing was asked, or the reply is readable and they cover every asset |
| `ResolvePool.RunKeeps` | internal/service/stellar_prices.go:239-284 | in every interleaving queued, in-flight and finished contracts are the input multiset, and every step shrinks a bounded measure |
| `ResolvePool.NeverBlocks` | internal/service/stellar_prices.go:239-284 | a busy worker always finds room on the results channel |
| `ResolvePool.Progress` | internal/service/stellar_prices.go:239-284 | a pool that is not finished always has a step to take |
| `ResolvePool.EveryRunCompletes` | internal/service/stellar_prices.go:239-284 | a finished run answered each contract as often as it was given, in at most 3n + 6 steps |
| `ResolvePool.PoolSize` | internal/service/stellar_prices.go:244-261 | five workers, or as many as contracts if fewer, in every run |
| `ResolvePool.AllAtOnce` | internal/service/stellar_prices.go:244-261 | a run in which all of them are at work at once |
| `ResolvePool.Resolve` | internal/service/stellar_prices.go:239-284 | under any scheduler the pool ends with every contract answered by its own resolution |
| `PriceService.SortConserves` | internal/service/stellar_prices.go:266-284 | each contract ends in exactly one of resolved, unsupported and errors |
| `PriceService.SortMembers` | internal/service/stellar_prices.go:266-284 | and in the one its answer calls for |
| `PriceLookup.ResolveSAC` | internal/service/stellar_sac.go:19-40 | resolved exactly to the described asset whose derived address is the contract asked about; left open exactly when the provider fails or nothing can be derived |
| `PriceLookup.ContractVerdict` | internal/service/stellar_prices.go:176-227 | the verdict on a contract for each description the provider can give |
| `PriceLookup.DirectVerdict` | internal/service/stellar_prices.go:208-227 | the verdict on a native or classic asset is the records' verdict on its provider id, and open when the fetch fails |
| `PriceLookup.ValidEntryIff` | internal/service/stellar_prices.go:335-344 | the cached values that are used |
| `PriceLookup.WrittenEntryValid` | internal/service/stellar_prices.go:335-365 | every entry written passes the check made on reading |
| `PriceLookup.AnswerKeys` | internal/service/stellar_prices.go:158-230 | the lookup succeeds exactly when every input is valid, and the answer's keys are the canonical ids of the inputs |
| `PriceLookup.CacheTransparent` | internal/service/stellar_prices.go:158-230 | if each lookup's own reply quotes the misses it asked about, every lookup after every interleaved history returns the quotes of all its assets: cache cold, partly warm, warm or unreachable |
| `PriceBook.OnlyVerdict` | internal/service/stellar_expert.go:111-153 | a reply cut down to the assets asked about gives each of them the same verdict |
| `PriceBook.BookTransparent` | internal/service/stellar_prices.go:158-230 | against a provider with one book that answers each query with only the records asked for, every lookup returns what the whole book says |
| `PriceLookup.LiveEntryIsFresh` | internal/service/stellar_prices.go:193-227 | in every run a live entry was written less than 60 s ago by a lookup, found with its beginning and its end, whose provider gave exactly that settled verdict |
| `PriceLookup.AnswerIsFresh` | internal/service/stellar_prices.go:158-230 | over every run, what a lookup says of an asset is its own reply's verdict, or what some lookup was told and wrote less than 60 s before |
| `PriceLookup.StoredAnswers` | internal/service/stellar_prices.go:286-365 | a verdict once stored answers every reachable lookup for 60 s, whatever the provider says by then, unless stored again |
| `PriceLookup.LookupIsTwoEvents` | internal/service/stellar_prices.go:158-230 | an undisturbed lookup is its two run events, which ties the method below to the run theorems |
| `PriceService.Price` | internal/service/stellar_prices.go:176-229 | prices and cache entries for the missing identities are the declarative verdicts, never an uncertain one; there is an error exactly when one is uncertain or a reply asked for has an unreadable identity |
| `PriceService.StellarPriceService.ReadCache` | internal/service/stellar_prices.go:286-333 | splits the identities into usable entries and misses, exactly |
| `PriceService.StellarPriceService.LookupUSD` | internal/service/stellar_prices.go:158-230 | the answer and the new cache as functions of what was read, and exactly when it reports an error; hits keep their entries, and a cache that could not be read is not written |
| `RateLimit.SlidingBound` | internal/middleware/ratelimit.go:122-138 | however INCR and EXPIRE commands interleave, a window-long interval admits at most 2 * limit - 1 requests |
| `RateLimit.BoundAttained` | internal/middleware/ratelimit.go:122-138 | for every limit of at least one and window of at least two milliseconds some run reaches that number |
| `RateLimit.LimitHeldIff` | internal/middleware/ratelimit.go:122-138 | the limit itself holds in every interval of every run if and only if it is at most one |
| `SharedLimit.SharedBound` | cmd/server/router.go:203-204 | the most one limiter admits in its own window on a key it shares with shorter windows |
| `SharedLimit.SharedBoundAttained` | cmd/server/router.go:203-204 | for every limit and every whole number of short windows some run of two limiters reaches it |
| `SharedLimit.RecoveryRequestsInADay` | cmd/server/router.go:203-204 | the two email limiters: some run admits 51 recovery requests in a day, and no run more |
| `RateLimit.LifetimeBound` | cmd/server/router.go:203-204 | limiters sharing a key each admit at most their own limit in one key lifetime |
| `RateLimit.ExpiryFixed` | internal/middleware/ratelimit.go:122-138 | traffic never pushes a set expiry back |
| `RateLimit.WindowRolls` | internal/middleware/ratelimit.go:122-138 | the first request at or after the expiry opens a window and is admitted if and only if the limit is at least one |
| `RateLimit.KeySeparates` | internal/middleware/ratelimit.go:26-102 | requests share a key if and only if they share a budget |
| `RateLimit.RateLimiter.Check` | internal/middleware/ratelimit.go:122-138 | one undisturbed request takes the run's INCR and EXPIRE steps on its key and leaves every other key alone |
| `Otp.KeysCollideIff` | internal/service/otp.go:100-106 | exactly which code keys are counter keys |
| `Otp.CodeIsBounded` | internal/service/otp.go:31-92 | over every run a code is compared at most five times, accepted at most once, and its counter outlives it |
| `Otp.AcceptedIff` | internal/service/otp.go:53-92 | a guess is accepted exactly when it is the code issued last to that identifier, whatever the case of its letters, less than ten minutes old, not accepted before and compared fewer than five times |
| `Otp.OTPService.Generate` | internal/service/otp.go:31-48 | the Generate step of the runs |
| `Otp.OTPService.Verify` | internal/service/otp.go:53-92 | the Verify step and its outcome |
| `WalletNonce.KeyTypeRecovered` | internal/service/walletsig.go:43-67 | the key type inferred from a wallet is the one its sign-in was accepted with, and the only one |
| `WalletNonce.ResolveNetwork` | internal/deploynet/deploynet.go:64-84 | a request is only ever resolved to the deployment's network; before one is set, to testnet or mainnet, and never as a mismatch |
| `WalletNonce.ResolveNetworkIff` | internal/deploynet/deploynet.go:64-84 | exactly which names are an error, which a mismatch, and what is served before a network is set |
| `WalletNonce.ResolveIsStable` | internal/deploynet/deploynet.go:64-84 | naming the network a request resolved to resolves to it again |
| `WalletNonce.BindingInjective` | internal/service/wallet_nonce.go:99-101 | bindings are equal if and only if flow, key, key type and network are |
| `WalletNonce.AcceptedPurposes` | internal/service/deploy_proof.go:119-143 | exactly who is given a nonce in each flow, key references by the bytes they decode to |
| `WalletNonce.RedeemedIff` | internal/service/wallet_nonce.go:69-101 | a redemption succeeds exactly when that nonce was issued for the same flow, key, key type and network, has not run out, and nothing used it up since, a mismatch included |
| `WalletNonce.RedeemedOnce` | internal/service/wallet_nonce.go:84-97 | under every interleaving a nonce is redeemed at most once |
| `WalletNonce.ChallengeRoundTrip` | internal/service/wallet_auth_service.go:79-121 | the text handed out by Challenge leads SignIn back to the stored key |
| `WalletNonce.WalletNonceService.Challenge` | internal/service/deploy_proof.go:67-74 | a flow's challenge issues a bound nonce, or changes nothing if its check fails |
| `WalletNonce.WalletNonceService.Redeem` | internal/service/wallet_nonce.go:84-97 | the redemption step and its outcome behind a flow's check |
| `WalletNonce.WalletNonceService.ChallengeSignIn` | internal/service/wallet_auth_service.go:71-88 | exactly when a sign-in challenge is given, for which network, and that its text names the stored nonce |
| `WalletNonce.WalletNonceService.SignInNonce` | internal/service/wallet_auth_service.go:108-121 | exactly when sign-in redeems its nonce, and what the store is afterwards |
| `RefreshTokens.OneLiveTokenPerLineage` | internal/service/auth_service.go:98-170 | over every run two unrevoked tokens never descend from one sign-in |
| `RefreshTokens.RevokedForever` | internal/db/generated/refresh_tokens.sql.go:85-89 | a revoked token stays revoked |
| `RefreshTokens.RotatesOnce` | internal/service/auth_service.go:98-175 | a token rotates at most once, and not after revocation |
| `RefreshTokens.SucceedsIff` | internal/service/auth_service.go:80-175 | exactly when each call succeeds, by what happened before: a token is good from the event that handed it out until its lifetime is over, unless rotated or revoked |
| `RefreshTokens.IssuedRotates` | internal/service/auth_service.go:203-229 | the token of a sign-in rotates exactly until it expires, unless used or revoked |
| `RefreshTokens.SuccessorRotates` | internal/service/auth_service.go:98-170 | a token handed out by a rotation rotates in its turn exactly until it expires, unless used or revoked |
| `RefreshTokens.ClaimsNeverChange` | internal/service/auth_service.go:98-170 | each rotation mints the subject, scope and key type of the sign-in its lineage began with |
| `RefreshTokens.AuthService.IssuePair` | internal/service/auth_service.go:80-90 | the issue step and the claims of the first access token |
| `RefreshTokens.AuthService.RotateRefreshToken` | internal/service/auth_service.go:98-170 | the rotation step; a rotation that returns nothing changes nothing |
| `RefreshTokens.AuthService.RevokeRefreshToken` | internal/service/auth_service.go:173-175 | the revocation step |
| `SignerScan.KeysFromRule` | internal/service/webauthn_signin.go:170-205 | exactly the keys the rule registers |
| `SignerScan.WebAuthnSignerKeys` | internal/service/webauthn_signin.go:65-110 | when it fails and how; otherwise the distinct keys of the live rules read, all of them; it stops 8 past the count, at 64, or once all are found |
| `SignerScan.ScanIsComplete` | internal/service/webauthn_signin.go:80-99 | with exactly count live rules, all are read if and only if their ids are below 64 and less than 8 past the count |
| `SignerScan.CompleteScanFindsAll` | internal/service/webauthn_signin.go:80-110 | a key is found if and only if some live rule of the account registers it |
| `SignerScan.SignerKeysOfAccount` | internal/service/webauthn_signin.go:65-110 | the scan of such an account returns exactly its registered keys, each once |
| `SignerScan.PointOfIff` | internal/service/webauthn_signin.go:184-200 | a key is the 65 bytes, the first of them 4, that head the data of an External signer |
| `SignerScan.RegistersIff` | internal/service/webauthn_signin.go:170-200 | listed under "signers" in the rule |
| `SignerScan.WideGapIsMissed` | internal/service/webauthn_signin.go:80-99 | an account whose only signer is not found |
| `SignerScan.HttpsFormSeparates` | internal/service/webauthn_signin.go:302-307 | two origins are identified if and only if equal or a bare host and its https URL |
| `SignerScan.OriginAllowed` | internal/service/webauthn_signin.go:288-298 | an origin is allowed if and only if it is not empty and some listed origin is the same in that sense |
| `Cosign.SettledForever` | internal/service/cosign_service.go:141-165 | a request out of pending never changes while it exists |
| `Cosign.LeavesPendingOnce` | internal/db/generated/cosign.sql.go:191-195 | under every interleaving of reads, statements and sweeps a request leaves pending at most once |
| `Cosign.LeavesHow` | internal/db/generated/cosign.sql.go:191-195 | only the write of a caller submitting or cancelling it takes a request out of pending, and leaves it as that caller asked |
| `Cosign.SubmitEffect` | internal/service/cosign_service.go:141-153 | what a call of MarkSubmitted does to the tables, in any interleaving: submitted with the hash given, exactly if found by its read and still pending at its write |
| `Cosign.CancelEffect` | internal/service/cosign_service.go:156-165 | the same for Cancel |
| `Cosign.SignEffect` | internal/service/cosign_service.go:120-138 | the same for AddSignature: a signer's first entry is stored as given |
| `Cosign.CreateIsListed` | internal/service/cosign_service.go:76-107 | a new request is listed in its queue for exactly 23 hours, and no other request changes |
| `Cosign.HashNeverChanges` | internal/service/cosign_service.go:141-153 | a recorded submission hash never changes |
| `Cosign.NoOrphans` | internal/db/generated/cleanup.sql.go:23-26 | no signature outlives its request |
| `Cosign.FirstEntryKept` | internal/db/generated/cosign.sql.go:91-95 | a signer's first auth entry is kept exactly as long as its request |
| `Cosign.SweepTakes` | internal/db/generated/cleanup.sql.go:13-17 | exactly the requests that expired longer ago than the retention, and their signatures |
| `Cosign.SweepSparesListed` | internal/service/cleanup_service.go:44-55 | a sweep changes nothing a listing then or later would show |
| `Cosign.SparesIffRetentionNotNegative` | internal/service/cleanup_service.go:44-55 | the exact retentions for which sweeps are safe at every point of every run |
| `Cosign.NegativeRetentionTakesListed` | internal/service/cleanup_service.go:44-55 | for every negative retention a run of one create and one sweep that takes a listed request |
| `Cosign.SweepBoundsTable` | internal/service/cosign_service.go:76-89 | survivors of a sweep are at most retention plus 23 hours old, and no more than the recent creates |
| `Cosign.Assemble` | internal/service/cosign_service.go:185-214 | the signature count is the number of distinct signers |
| `Cosign.Unexpired` | internal/db/generated/cleanup.sql.go:13-17 | exactly the requests not yet past the cutoff, and the number removed |
| `Cosign.CosignService.Create` | internal/service/cosign_service.go:76-89 | the create step, refused on a repeated id |
| `Cosign.CosignService.Perform` | internal/service/cosign_service.go:120-182 | sign, submit or cancel alone is its read event and then its write event; the error each gives |
| `Cosign.CosignService.Sweep` | internal/service/cleanup_service.go:44-55 | the sweep step with its cascade, and the number of requests removed |
| `Notifications.WalkEnumeratesFeed` | internal/service/notification_service.go:153-222 | with distinct times, following next_cursor ends and yields every notification present at the start once, newest first, for any page sizes and any newer arrivals |
| `Notifications.FeedCompleteIffTimesDistinct` | internal/db/generated/notifications.sql.go:111-118 | every complete walk yields the whole feed if and only if times are distinct |
| `Notifications.NotificationService.Query` | internal/db/generated/notifications.sql.go:111-118 | the newest eligible rows, none left out in favour of an older one |
| `Notifications.NotificationService.List` | internal/service/notification_service.go:153-222 | refuses a cursor it cannot read; otherwise a page of at most the asked-for one to fifty rows, and the text of a next cursor exactly when it is full |
| `Notifications.CursorReturns` | internal/service/notification_service.go:153-222 | the text of a next cursor is read back as that cursor exactly when its instant survives printing and parsing |
| `Notifications.NotificationService.MarkRead` | internal/service/notification_service.go:243-271 | marks only the subject's own unread row and never moves a row in the feed |
| `Rfc3339.CursorRoundTrip` | internal/service/notification_service.go:153-222 | the printed cursor parses back to the same timestamp exactly under the stated condition (section 5.6 of RFC 3339) |
| `Rfc3339.DateTimePrinted` | internal/service/notification_service.go:217-220 | which characters of a cursor spell which field, and the marks between them |
| `Rfc3339.FractionPrinted` | internal/service/notification_service.go:217-220 | the fraction: none for zero, otherwise as many of nine digits as needed |
| `Rfc3339.ZonePrinted` | internal/service/notification_service.go:217-220 | the zone: Z, or sign, hours and minutes |
| `Rfc3339.ParsedFields` | internal/service/notification_service.go:158-165 | what parses is a time that exists, with each field read from its place |
| `Deployment.StampsNeverChange` | internal/deployment/deployment.go:74-129 | in every run of every number of servers a stamp, once set, never changes |
| `Deployment.ServersAgree` | cmd/server/main.go:59-88 | two serving servers that share a database or a Redis serve one network |
| `Deployment.WrongDatabaseUntouched` | internal/deployment/deployment.go:92-112 | a server started on another network's database never serves and never writes to a store |
| `Deployment.ServingWasConfirmed` | internal/deployment/deployment.go:132-154 | in every run a serving server's last step was its RPC confirming its network |
| `Deployment.StartupServes` | cmd/server/main.go:59-88 | a server with nothing foreign in its way serves after eight steps, seven on a new database, and has stamped both stores |
| `Deployment.Infrastructure.CheckDatabase` | internal/deployment/deployment.go:92-112 | passes exactly when there is no foreign stamp to see |
| `Deployment.Infrastructure.StampDatabase` | internal/deployment/deployment.go:74-87 | the first stamp wins, and it passes exactly when that is its own |
| `Deployment.Infrastructure.StampRedis` | internal/deployment/deployment.go:117-129 | the same for Redis |
| `Deployment.Infrastructure.CheckRPC` | internal/deployment/deployment.go:132-154 | of at most three tries the first answer decides, unless the startup is cancelled in a pause before it |
| `Deployment.Infrastructure.Startup` | cmd/server/main.go:59-88 | a server alone serves exactly when no stamp is foreign and the RPC agrees; a foreign database is left as it was |
| `Relayer.Send` | internal/service/relayer_service.go:126-159 | returns the first response that is not 502, 503 or 504, or the last failure once a pause would reach the budget or the caller's deadline; every pause begun is due to end before both, and their lengths add up to less than the budget |
| `Relayer.BootIsCovered` | internal/service/relayer_service.go:110-125 | a relayer that boots with one attempt and one pause to spare: the deciding attempt started after the boot and has the relayer's own answer, however the attempts fall |
| `Relayer.EndsByDeadline` | internal/service/relayer_service.go:126-159 | with punctual timers and attempts bounded by the deadline the call ends by it |
| `Relayer.BudgetIsUsed` | internal/service/relayer_service.go:104-159 | the bound on attempts is exact against a router that refuses at once |

## Left out

- Failures of Redis and Postgres calls, except where the code has its own branch for them (the unreachable price cache, failed startup). The limiter admits a request when Redis fails; that path is not modelled.
- Concurrent calls of one-time-code Verify and concurrent rotations of one refresh token: each call is one step. Database isolation levels are not part of this model.
- `INCR` on numeric text: a counter key that holds a code is treated as an error. It needs an identifier starting with `attempts:`, which the run theorems exclude and `Otp.KeysCollideIff` characterises.
- Case mapping beyond ASCII. White space is Unicode's.
- Uniqueness of random nonces, tokens and request ids is part of `Valid` in the run models or of the guard on an insert.
- The prefix shared by all nonce keys and by all price-cache keys: the stores are modelled without it.
- Signature verification, strkey checksums, the address derivation, JSON, JWT signing and token hashing, which enter as functions with laws or not at all.
- The order of the error list of `Provider.ScanRecords` and the texts of errors. Whether there is one is exact.
- The HTTP exchanges of the price provider and of the Soroban RPC: only what they come to. `FetchContractAsset` status handling is one three-way reply.
- The database constraint that a stamp is testnet or mainnet: networks are any texts, which is more general.
- `Relayer.EndsByDeadline` asks for punctual timers; the other relayer results allow any lag. Callers' handling of the relayer's answer is not modelled.
- `Notifications` reads and writes cursors through functions, and `Rfc3339.CursorRoundTrip` says for which timestamps the printed form reads back; the calendar arithmetic from an instant to its date is not modelled, and user ids are taken as already parsed. Go's general time parser, which Parse falls back to for other spellings, is not modelled.
- Push dispatch and de-duplication in Notify, which depend on the push service; MarkAllRead and unread counts, which are single statements over the same rows as MarkRead.
- The wallet-content-key and membership sweeps of CleanupService, which delete on an age cutoff like the cosign sweep but have nothing that lists the same rows; the order of a cosign listing; and Get, which is the read that AddSignature, MarkSubmitted and Cancel start with.
- Registering and removing passkey credentials, backups, recovery, contacts, the web app and the HTTP handlers: thin layers over a store.
