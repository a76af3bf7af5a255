# Event credit pools — a Dafny model

This project models the core of a small Node.js service that runs **event
credit pools**. An organiser (the *creator*) creates a pool with a custody
wallet, a time window, a usage cap in credits and a whitelist of attendee
wallets. While the pool is open, a whitelisted wallet not yet recorded as
credited may ask for credits. It then receives a delegated approval over the whole cap, valid
until the pool ends. The creator can edit the pool, extend or cut the
whitelist, and top the custody wallet up. A separate e-mail waitlist accepts
each address once.

The persisted pool collection is a `map<PoolId, Pool>` (`Pools.Store`).
Every operation is a pure function from the old snapshot to
`Result<new snapshot, ErrorCode>`. Loading the file is reading the snapshot
and saving it is returning one. A refused request returns no snapshot, so
the stored one stays as it was.

One module per source file:

- `PoolManager`: `poolManager.js`.
- `CreditSharing`: `creditSharing.js`.
- `Share`: `share.js`.
- `MainServer`: the inline route logic of `mainServer.js`.
- `TopUp`: `topUp.js`.
- `Emails`: `emails.js`.

Support modules:

- `Results` and `Errors`: Option/Result and the service's error codes.
- `JsValues`: the JSON values whose dynamic type a guard inspects.
- `Lists`: de-duplication as `[...new Set(xs)]` does it, and removal by `filter`.
- `Decimal`: decimal strings as `BigInt#toString`, the winston-amount regular expression, `Number` and `parseFloat` read them.
- `Pools`: the record and the store invariants.
- `Service`: the store-writing requests as one state machine, with the invariants proved over any run. Usage bookkeeping has no caller in the service; its step stands for a caller that passes the record the access check has just returned.

Modelling conventions:

- Instants are integer milliseconds. The service compares ISO 8601 strings
  directly (`now < pool.startTime`). The model assumes canonical UTC strings
  of one length, as `toISOString` produces; for those, lexical order is time
  order.
- SHA-256 is a parameter `hash: string -> Digest`, where a `Digest` is a
  string of 64 characters, as `digest('hex')` gives.
- The 16 random bytes of a pool id are a parameter. The id is their
  lower-case hex encoding, and `PoolManager.HexRoundTrip` proves the encoding
  injective.
- The ledger SDK, the wallet manager and the Arweave gateway are *oracles*:
  each call's success value or its failure is passed in. A failure that
  reaches a handler's caller as it was raised (the wallet manager, the
  Arweave and top-up calls, and building the ledger client from the key
  in `share.js`) is an `ErrorCode` or an uncoded error, as raised. The key
  file and balance failures inside `share.js` survive only as text in a
  new error's message.
- An error raised without a code (`new Error(...)`) is `Thrown(message)`.
- `usageCap` is a `real`, an exact rational. `Math.round(cap * 1e12)` is
  `(cap * 1e12 + 0.5).Floor`.
- `handleCreditSharing` reads the clock twice. The model reads it once
  (`now`).

Behaviour kept as written and proved:

- `updatePoolUsage` compares a spend in winston with a cap in credits
  (`UsageCapComparesWinstonWithCredits`).
- `updatePoolUsage` never looks at `creditedWallets`
  (`UsageIgnoresCreditedWallets`).
- An edit may replace the whitelist by one that leaves out a credited
  wallet (`UpdatePoolMayDropCreditedWallet`). An edit may also lower the cap
  below recorded usage (`UpdatePoolMayLowerCapBelowUsage`). Hence
  `creditedWallets ⊆ whitelist` and `usage ≤ cap` are preserved by every
  request except an edit (`Service.RunWithoutEditsKeepsFullySound`). The
  quota and the duplicate-free `creditedWallets` invariant (no wallet
  appears twice in one pool's `creditedWallets`) hold over every run
  (`Service.RunKeepsSound`). This is not a once-per-wallet grant: a wallet
  can be granted twice by the same pool, as the next bullet shows.
- Revoking removes the wallet from `creditedWallets` too, without touching
  the ledger approval. Re-whitelisting that wallet makes it eligible for a
  second grant (`RevokeThenWhitelistAllowsSecondGrant`).
- At `now == endTime` the window check passes but the grant fails with
  POOL_ENDED; the same holds for the whole last second
  (`LastSecondFailsPoolEnded`).
- A winston amount with a decimal point skips the balance check, because
  `BigInt < "1.5"` is false (`FractionalAmountSkipsBalanceCheck`).
- `createPool` and `updatePool` store a supplied whitelist as it is, so a
  duplicate-free whitelist is not an invariant of the store
  (`UpdatePoolMayStoreDuplicates`); only the whitelist route de-duplicates.
- `updatePoolUsage` writes back whatever pool object its caller hands it,
  under whatever id. A stale copy erases a grant
  (`UpdatePoolUsageMayForgetCredit`), and another pool's record moves to
  that id and adds to its creator's count (`UpdatePoolUsageMayMovePool`).
  The invariants over runs hold for the spend step because it passes the
  record just returned by the access check.

## Model

| member | source | states |
|---|---|---|
| PoolManager.UpdatePool | poolManager.js:95-120 | POOL_NOT_FOUND iff the id is unknown; then a cap present but not a positive number → INVALID_USAGE_CAP; then start ≥ end after the patch → INVALID_TIME_RANGE. Success iff all pass. Only record `id` changes. Each supplied field wins and each absent one keeps its value. All other fields are equal. |
| PoolManager.CapPatchAccepted | poolManager.js:107-110 | a supplied cap must be a number above 0; an absent one is accepted. Definition only, used by the INVALID_USAGE_CAP ensures of `UpdatePool` |
| PoolManager.ApplyPatch | poolManager.js:104-112 | each supplied time, whitelist or numeric cap replaces the stored field. Definition only; `ApplyPatchIdempotent` characterises it |
| PoolManager.ApplyPatchIdempotent | poolManager.js:104-112 | copying the same fields in twice equals copying them once, and a patch supplying nothing leaves the record as it was |
| PoolManager.UpdatePoolIdempotent | poolManager.js:104-118 | re-applying an accepted patch yields the same store |
| PoolManager.EmptyPatchIsNoOp | poolManager.js:104-118 | an empty patch on a well-formed pool rewrites the same store |
| PoolManager.UpdatePoolKeepsQuota | poolManager.js:104-112 | edits never change a creator, so the 3-per-creator quota is preserved |
| PoolManager.UpdatePoolKeepsCreditedWhitelisted | poolManager.js:106 | an edit that keeps every credited wallet in the whitelist preserves credited ⊆ whitelist |
| PoolManager.UpdatePoolMayDropCreditedWallet | poolManager.js:106 | counterexample: an edit can replace the whitelist and leave a credited wallet out |
| PoolManager.UpdatePoolMayLowerCapBelowUsage | poolManager.js:107-112 | counterexample: an edit can lower the cap below a wallet's recorded usage |
| PoolManager.UpdatePoolMayStoreDuplicates | poolManager.js:106 | counterexample: an edit stores a whitelist with a repeated address as it is |
| PoolManager.HexEncode | poolManager.js:144 | the id of 16 bytes is 32 lower-case hex characters |
| PoolManager.HexRoundTrip | poolManager.js:144 | decoding the hex id gives back the bytes, so distinct bytes give distinct ids |
| PoolManager.GetPoolById | poolManager.js:52-59 | the stored record for a known id; POOL_NOT_FOUND iff the id is unknown |
| PoolManager.CreatePool | poolManager.js:122-171 | a missing field → MISSING_FIELDS; a creator with ≥ 3 pools → POOL_LIMIT_EXCEEDED; then WALLET_GENERATION_FAILED, then the address derivation's own error, then WALLET_SAVE_FAILED. Success iff all pass. The id is the hex encoding of the random bytes. Keys = old keys + id, and other records are unchanged. The new record has the given fields, no usage, no credited wallets and no history. |
| PoolManager.HasRequiredFields | poolManager.js:124-127 | every field is present and truthy, with a cap of 0 counting as absent. Definition only, used by the MISSING_FIELDS ensures of `CreatePool` |
| PoolManager.CreatePoolKeepsQuota | poolManager.js:129-134 | creation never takes a creator past three pools |
| PoolManager.CreatePoolAddsOneRecord | poolManager.js:157-168 | with an unused id the store grows by exactly one record |
| PoolManager.CreatedIdsDiffer | poolManager.js:144 | pools created from different random bytes get different ids |
| Pools.InsertKeepsQuota | poolManager.js:129-134 | storing a record whose creator owns fewer than three pools keeps the quota, whether the id is new or taken |
| PoolManager.ValidateEventPoolAccess | poolManager.js:173-190 | INVALID_POOL_ID, then POOL_NOT_ACTIVE outside [start, end], then WALLET_NOT_WHITELISTED. Otherwise it returns the stored pool. |
| PoolManager.AccessWindowIsClosed | poolManager.js:180-183 | open at both ends of the window, closed one millisecond outside either end |
| PoolManager.UpdatePoolUsage | poolManager.js:192-203 | succeeds iff old usage (or 0) + spent ≤ cap, else USAGE_CAP_EXCEEDED. The written usage map is the handed pool's map with that wallet's entry set to old + spent, and no other key added; the rest of the handed pool is written back as given. Usage ≤ cap is preserved. |
| PoolManager.UpdatePoolUsageKeepsInvariants | poolManager.js:192-203 | recording usage on the stored pool keeps every store invariant |
| PoolManager.UsageCapComparesWinstonWithCredits | poolManager.js:194-195 | a 5-credit cap already refuses a spend of 6 winston |
| PoolManager.UsageIgnoresCreditedWallets | poolManager.js:192-203 | the outcome does not depend on `creditedWallets` |
| PoolManager.UpdatePoolUsageMayForgetCredit | poolManager.js:192-202 | counterexample: a stale pool object handed in erases a recorded grant |
| PoolManager.UpdatePoolUsageMayMovePool | poolManager.js:192-202 | counterexample: a pool handed in under another pool's id adds to its creator's count |
| Pools.SameCreatorKeepsQuota | poolManager.js:129-134 | replacing a record by one with the same creator keeps the quota |
| CreditSharing.HandleCreditSharing | creditSharing.js:6-83 | MISSING_FIELDS, POOL_NOT_FOUND, POOL_NOT_ACTIVE, WALLET_NOT_WHITELISTED, ALREADY_CREDITED, the key load, then POOL_ENDED, in that order and with no change. The helper receives the winston cap and the remaining seconds. The wallet is appended to `creditedWallets` iff the reply is the success message; otherwise the store is unchanged. |
| CreditSharing.SecondsUntilEnd | creditSharing.js:54-55 | the remaining time rounded down to whole seconds |
| CreditSharing.ApprovedWinc | creditSharing.js:61-63 | the cap in winston, rounded to the nearest unit with halves up |
| CreditSharing.ApprovedWincExamples | creditSharing.js:62-63 | 5 credits → 5000000000000 winston; ±half a winston rounds up |
| CreditSharing.SecondsUntilEndPositive | creditSharing.js:55-58 | POOL_ENDED is avoided iff at least one full second remains |
| CreditSharing.LastSecondFailsPoolEnded | creditSharing.js:22-58 | in the last second, `now == endTime` included, the grant fails POOL_ENDED |
| CreditSharing.GuardsAgreeWithAccessCheck | creditSharing.js:15-31 | the grant's window and whitelist guards agree with the pool manager's access check; an unknown pool is POOL_NOT_FOUND there, and that code otherwise comes only from the wallet manager |
| CreditSharing.AmountCheckNeedsPositiveCap | creditSharing.js:61-71 | a cap worth less than one winston is refused by the helper's amount check; otherwise the request is well formed |
| CreditSharing.ClientFailureRaisedAsIs | creditSharing.js:66-71 | for a well-formed request, a failure to build the ledger client from the key (share.js line 32, outside every handler) leaves the engine exactly as raised: uncoded, without the balance prefix, and nothing recorded |
| CreditSharing.BalanceDecidesGrant | creditSharing.js:66-80 | for a well-formed request the balance check passes iff the balance covers the whole cap in winston; a smaller balance is reported as insufficient; past it the wallet is recorded iff the ledger approves |
| CreditSharing.GrantIsIdempotent | creditSharing.js:33-36 | after a success, the same wallet never succeeds again, and gets ALREADY_CREDITED while the pool is open |
| CreditSharing.TwoWalletsBothCredited | creditSharing.js:74-80 | successive grants to two wallets both stay recorded, in order |
| CreditSharing.GrantKeepsInvariants | creditSharing.js:28-80 | a grant keeps the quota, credited ⊆ whitelist, duplicate-free `creditedWallets` and usage ≤ cap |
| CreditSharing.WorkedExample | creditSharing.js:6-83 | a one-day 5-credit pool at midday approves 5000000000000 winston for 43200 s, records the wallet, then refuses it |
| Share.ShareCredits | share.js:14-61 | key file, address, amount and expiry are checked in that order; then a failure to build the ledger client is raised as it is, without a prefix; then a failed or short balance raises "Could not check balance: …". Success iff all pass. The ledger's verdict never raises: the success message, or the failure message with its error. |
| Share.IsValidAddress | share.js:4-7 | a non-empty string. Definition only |
| Share.IsPositiveWinc | share.js:9-12 | the amount pattern plus a positive value. Definition only; `PositiveWincIffNonZeroDigit` characterises it |
| Share.ExpiryAccepted | share.js:28-30 | absent, or a positive whole number. Definition only; `ExpiryExamples` pins sample values |
| Share.ExpiryExamples | share.js:28-30 | absent and 60 are accepted; 1.5, 0, -5, the string "60" and null are refused |
| Share.BalanceBelow | share.js:41 | `BigInt(balance) < winc`. Definition only; `RenderedAmountBalanceBelow` and `FractionalAmountSkipsBalanceCheck` characterise it |
| Share.PositiveWincIffNonZeroDigit | share.js:9-12 | a winston amount is accepted iff it matches the regular expression and has a non-zero digit |
| Share.PositiveWincExamples | share.js:9-12 | "0", "5.", "-1" and "" are refused; ".5" and "12" are accepted |
| Share.RenderedAmountAccepted | share.js:25-27 | the rendering of an integer passes the amount check iff the integer is positive |
| Share.RenderedAmountBalanceBelow | share.js:41 | for a rendered integer, the balance comparison is integer comparison |
| Share.FractionalAmountSkipsBalanceCheck | share.js:41 | for every amount with a decimal point and every balance, the balance is never found insufficient, so an otherwise accepted request reaches the approval |
| Decimal.NatToDecimalRoundTrip | share.js:41 | reading back the decimal rendering of n gives n |
| Decimal.IntToDecimal | creditSharing.js:63-64 | `BigInt` rendered in decimal with a minus sign for negatives. Definition only; `IntToDecimalAmount` and `NatToDecimalRoundTrip` characterise it |
| Decimal.AmountPositiveIffNonZeroDigit | share.js:11 | an amount-shaped string denotes a positive number iff one of its digits is non-zero |
| Decimal.IntToDecimalAmount | share.js:11 | an integer's rendering has the amount shape iff it is ≥ 0, and then denotes it |
| Decimal.ParseFloatOfAmount | topUp.js:21 | `parseFloat` of an amount-shaped string is its exact value |
| Decimal.ParseFloatOfNegatedAmount | topUp.js:21 | a leading minus negates that value |
| Decimal.ParseFloatString | topUp.js:21 | `parseFloat` of a string: sign, digits, optional fraction, NaN without a digit. Definition only; `ParseFloatOfAmount` and `ParseFloatOfNegatedAmount` characterise it |
| MainServer.ApiKeyGate | mainServer.js:59-69 | the gate passes iff the path is public or the key equals the constant; otherwise INVALID_API_KEY |
| MainServer.OnlyThreePathsAreOpen | mainServer.js:59-62 | exactly /health, /pools and /support-link pass with any key |
| MainServer.IsPublicPath | mainServer.js:59 | the three paths served without a key. Definition only; `OnlyThreePathsAreOpen` characterises it |
| MainServer.ListPools | mainServer.js:73-83 | no creator → MISSING_CREATOR_ADDRESS; otherwise exactly that creator's records, unchanged |
| MainServer.ListPoolsBounded | mainServer.js:73-83 | under the quota a listing has at most three entries |
| MainServer.ListingsAreDisjoint | mainServer.js:73-83 | two different creators get disjoint listings |
| MainServer.CheckOwner | mainServer.js:157-166 | POOL_NOT_FOUND, then UNAUTHORIZED, then INVALID_PASSWORD; success iff the creator matches and the password digest matches |
| MainServer.IsOwner | mainServer.js:160-166 | the creator matches and the password's digest equals the stored one. Definition only; `CheckOwner` succeeds exactly when it holds |
| MainServer.EditPool | mainServer.js:147-173 | MISSING_PASSWORD, then the owner checks' code; once both pass, the result is the pool manager's edit, its error code included |
| MainServer.EditKeepsOwner | mainServer.js:147-173 | an edit leaves the owner checks' verdict unchanged for every caller |
| MainServer.AddToWhitelist | mainServer.js:176-207 | MISSING_PASSWORD, INVALID_ADDRESSES, then the owner checks. The new whitelist is `Dedup(old + added)`: exactly the old and the new addresses, each once at its first occurrence, with a duplicate-free old list as its prefix. Nothing else changes. |
| Lists.Dedup | mainServer.js:200 | `[...new Set(xs)]`: the same members, no duplicates |
| Lists.DedupKeepsFirstOccurrenceOrder | mainServer.js:200 | each address is kept at its first occurrence, in order |
| Lists.SpreadSet | mainServer.js:200 | the insertion loop of a `Set` computes `Dedup` |
| MainServer.AddToWhitelistIdempotent | mainServer.js:200 | adding the same addresses twice equals adding them once |
| MainServer.AddToWhitelistKeepsInvariants | mainServer.js:200-201 | whitelisting keeps every store invariant |
| MainServer.Revoke | mainServer.js:210-244 | MISSING_PASSWORD, MISSING_WALLET_ADDRESS, then the owner checks. The whitelist and, when present, `creditedWallets` become `Without(old, wallet)`: the other entries in order with their copies. Nothing else changes. |
| Lists.Without | mainServer.js:234 | `filter(a => a !== w)`: exactly the other elements, each with as many copies as before; a list without `w` is returned as it is |
| Lists.WithoutDistributes | mainServer.js:234 | filtering a concatenation concatenates the filtered parts in order; a one-element list keeps its element iff it differs |
| Lists.Filter | mainServer.js:234 | the loop of `Array.prototype.filter` computes `Without` |
| MainServer.RevokeIdempotent | mainServer.js:234-237 | revoking twice equals revoking once |
| MainServer.RevokeKeepsInvariants | mainServer.js:234-237 | revoke keeps credited ⊆ whitelist, duplicate-free `creditedWallets`, the quota and usage ≤ cap |
| MainServer.RevokeThenWhitelistAllowsSecondGrant | mainServer.js:234-237 | a revoked and re-whitelisted wallet is no longer recorded as credited |
| MainServer.CreatePoolRoute | mainServer.js:247-261 | no password → MISSING_PASSWORD. Otherwise the pool manager receives the password's digest, which is what gets stored. |
| MainServer.CreatedPoolOpensWithItsPassword | mainServer.js:252-256 | the creator passes the owner checks with the creation password; any password of another digest gets INVALID_PASSWORD |
| MainServer.SetSupportLink | mainServer.js:285-297 | accepted iff the link is a non-empty string, else INVALID_LINK |
| TopUp.AttemptTopUp | topUp.js:15-77 | MISSING_PARAMETERS, INVALID_AMOUNT, POOL_NOT_FOUND, UNAUTHORIZED, INVALID_PASSWORD, the key failure, the balance failure, INSUFFICIENT_BALANCE, the purchase failure, each pinned in that order, a collaborator's failure as it was raised. Success iff all pass. It appends exactly one entry (the amount and `now`) to the history. Nothing else changes. |
| TopUp.ParametersPresent | topUp.js:18-20 | all four parameters are truthy. Definition only, used by the MISSING_PARAMETERS ensures of `AttemptTopUp` |
| TopUp.ParseFloat | topUp.js:21 | `parseFloat`: a number reads as itself, a string through `ParseFloatString`, anything else is NaN. Definition only; `AmountExamples` pins sample values |
| TopUp.AmountAccepted | topUp.js:21-24 | the amount parses to a number above 0. Definition only; `DecimalAmountAccepted` and `NegativeAmountRefused` characterise it |
| TopUp.WithDefaultCode | topUp.js:80-83 | a coded failure keeps its code; an uncoded one becomes TOP_UP_FAILED |
| TopUp.HandleTopUp | topUp.js:15-85 | a coded failure leaves with its code and an uncoded one as TOP_UP_FAILED, so no failure leaves without a code; success is the attempt's |
| TopUp.DecimalAmountAccepted | topUp.js:21-24 | a numeric string passes the amount check iff it has a non-zero digit |
| TopUp.NegativeAmountRefused | topUp.js:22-24 | a negative numeric string fails INVALID_AMOUNT |
| TopUp.AmountExamples | topUp.js:21-24 | "0.0" is refused, "0.5" accepted |
| TopUp.TopUpAppendsOnly | topUp.js:69-75 | the history gains one entry at the end; earlier entries are unchanged |
| TopUp.TopUpNeedsOwner | topUp.js:32-41 | a wrong creator or password never tops up |
| TopUp.TopUpKeepsInvariants | topUp.js:69-75 | a top-up keeps every store invariant |
| Emails.AddEmail | emails.js:44-57 | EMAIL_EXISTS iff already present. Otherwise the address is appended at the end with the join message. No duplicates is preserved. |
| Emails.JoinAllIsDedup | emails.js:44-57 | joining one request after another yields the de-duplicated concatenation |
| Emails.JoinAllKeepsListDuplicateFree | emails.js:48-54 | any request sequence keeps the list duplicate-free, holding old and requested addresses, with the old list as prefix |
| Service.StepKeepsSound | poolManager.js:129-134 | every modelled request keeps the quota and duplicate-free `creditedWallets`, the spend step passing the record the access check returned |
| Service.RunKeepsSound | poolManager.js:129-134 | every run of requests keeps the quota and duplicate-free `creditedWallets` |
| Service.RunWithoutEditsKeepsFullySound | creditSharing.js:28-36 | runs without edits also keep credited ⊆ whitelist and usage ≤ cap |

## Left out

- File I/O: `loadPools`/`savePools`, `loadEmails`/`saveEmails`, directory creation and the support file are abstracted as the snapshot passed in and returned. Their own failure codes (LOAD_POOLS_FAILED, SAVE_POOLS_FAILED, LOAD_EMAILS_FAILED, SAVE_EMAILS_FAILED, SUPPORT_LINK_READ_FAILED/WRITE_FAILED) are not modelled.
- Express wiring, CORS, HTTP status codes, logging, the 404 catch-all, start-up and signal handlers: plumbing with no state.
- `getPoolBalance`, `getPoolArBalance` and the `/pool/:id/balance` and `/pool/:id/wallet` routes: network reads and floating-point conversions that change no pool.
- `walletManager.js` is not part of this model. Key loading, wallet generation, `jwkToAddress` and the key-file write appear only as success-or-error outcomes; a rejected address derivation leaves `createPool` with the rejection's own error (`WalletProvision.AddressFailed`).
- The ledger SDK (`getBalance`, `shareCredits`, `topUpWithTokens`) and the Arweave gateway are oracles. `winstonToAr`/`arToWinston` are abstracted: the AR balance is given as a number.
- Floating point: NaN, the infinities and IEEE rounding are not modelled. Numbers are exact rationals, so `usageCap * 1e12` carries no rounding error.
- INVALID_DATE (creditSharing.js:50-52) cannot arise: instants are integers.
- `createPool`'s `JSON.parse` of a whitelist given as a string, and `Number(usageCap)` of a non-number. The request arrives already parsed.
- MainServer.AddToWhitelist: the array elements are taken to be strings; JSON values of other types in `addresses` are not modelled.
- TopUp.ParseFloat: `parseFloat` of an array is NaN here; JavaScript reads an array through its string form.
- Decimal.ParseFloatString: exponents, leading white space and "Infinity" are not read, so `parseFloat` of such a string is modelled only up to those forms.
- Concurrency: the service has no locking; requests are modelled one after another.
- `test.js`: an interactive script against the live ledger, with no logic of its own.
- Keys inherited from `Object.prototype`: the store is a plain object read with `pools[id]`, so an id such as `constructor` or `toString` finds an inherited function rather than nothing. The owner routes then answer UNAUTHORIZED or INVALID_PASSWORD, a top-up UNAUTHORIZED, and a grant fails with a TypeError. The model's store is a map with only the stored ids, so these ids are unknown (POOL_NOT_FOUND, INVALID_POOL_ID).
- PoolManager.UpdatePool: a `whitelist` in the edit body is taken to be an array. `updatePool` stores any truthy value; a string whitelist would later make `includes` a substring test, make the whitelist route spread it into characters, and make `filter` throw. This is not modelled.
