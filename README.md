# Telegram mini-app marketplace: payment settlement core

This project models the Telegram mini-app backend that sells phone-number
accounts and rents Telegram usernames for TON. It also models the wallet
balance line of the frontend. All of it is Dafny.

- A buyer signs a TON transfer in their wallet and posts the signed blob (the
  BOC). The backend broadcasts the blob and records a PENDING order or
  rental.
- A background task then polls the ledger for a payment of the expected value
  to the merchant wallet. It confirms the record (for an account, it also
  takes one unit out of stock) or fails it.
- Every user request carries Telegram WebApp init data. Its HMAC signature
  and age are checked. Admin routes also require the user to be on the admin
  list.

Modules, one per source file, plus shared ones:

- `Ton` (`backend/src/services/ton.ts`): the broadcast identifier, the
  tolerance, the window, the per-transaction match, and the 15-attempt
  polling loop.
- `Accounts` (`backend/src/routes/accounts.ts`): the in-stock list, create,
  update, delete, the buy flow with its settlement, and the order poll.
- `Usernames` (`backend/src/routes/usernames.ts`): the list with derived
  occupancy, `@` normalisation, create, update, delete, the rent flow with
  period expiry, and the rental poll.
- `Admin` (`backend/src/routes/admin.ts`): the joined order and rental lists,
  the stats counters, revenue, and adding an admin.
- `Auth` (`backend/src/middleware/auth.ts`): the data-check string,
  `parseInitData`, and the `requireInitData` and `requireAdmin` gates.
- `Wallet` (`frontend/src/components/WalletButton.tsx`): nano-to-`"W.DD TON"`
  formatting and the balance state.
- `Store` holds the persisted tables, as the class `Db`. Each table is a
  `map` from id to record with an autoincrement counter that starts at 1. The
  admin table is a set of Telegram ids.
- `Tables` holds listing, filtering, newest-first sorting, counting and
  summing over a table.
- `Decimal` holds `String(n)`, `padStart`, and fixed-width digits.
- `Auth.ParseInt` models `parseInt`.
- `Wrappers` and `Http` hold `Option` and the status/body response.

The route handlers that change the store are module-level methods that take
the store `db: Db` and modify it. Each states the reply and the whole new
state for every branch, keeps `Db.Valid()` (ids below the counters, plus the
three unique constraints), and says which tables it leaves untouched. `Buy`
and `Rent` also report, as a ghost result, whether the blob was broadcast.
Every rejection before the broadcast leaves it unsent.

The background task of a buy or a rent is a separate method, run later on the
PENDING record the request created: `Accounts.SettleOrder` and
`Usernames.SettleRental`. Each makes the one terminal transition, to
CONFIRMED or FAILED. The only exception is the aborted confirmation described
below.

The ledger, the broadcast and the clocks are inputs:

- each polling attempt's response is an element of `polls`;
- the broadcast's fate is a `BroadcastOutcome`;
- `Date.now()` is a `nowMs`, `verifyStartMs` or `confirmMs` parameter.
  Within one buy or rent request, one `nowMs` stands for several readings of
  the clock: the occupancy check's `new Date()`, the `Date.now()` in the
  identifier, and the database's `createdAt`. In the code the identifier is
  read after the broadcast returns, which can be up to 15 seconds later.

HMAC-SHA-256, `decodeURIComponent` with `URLSearchParams`, and `JSON.parse`
of the `user` field are the three functions of `Auth.Collaborators`.

The model follows the code as written, including these consequences of it:

- Verification never looks at the transaction hash.
  - `sendBocAndGetHash` always returns `pending_<ms>`, and the `txHash`
    argument of `verifyTonTransaction` is never read. A match is made on
    time window and amount alone, so one payment can confirm several orders.
  - It makes 15 attempts with a tolerance of `expectedNano / 50`.
- Because `sendBocAndGetHash` never throws, the "Failed to broadcast
  transaction" branches (400) of buy and rent can never be taken.
- A `txHash` is checked for duplicates only in its own table. Two requests
  broadcast in the same millisecond get the same identifier, and the second
  gets 409.
- A confirmed buy whose account was deleted meanwhile rolls the whole
  `$transaction` back, so the order stays PENDING. The rejected promise is
  not caught inside the `setImmediate` callback. It is an unhandled
  rejection, which on Node.js 15 and later ends the process. The model keeps
  only the store's side of this: nothing is written.
- The balance request of the wallet button is not cancelled when the wallet
  disconnects. A reply that resolves after the disconnect still sets the
  balance, and replies are applied in arrival order, so an older request can
  overwrite a newer balance (`Wallet.LateReplyAfterDisconnect`,
  `Wallet.StaleReplyOverwrites`).
- Express is taken to be version 5, which passes the rejected promise of an
  `async` middleware to the error handler. A `decodeURIComponent` that throws
  inside `requireAdmin` therefore gets the same 500 as in `requireInitData`.
- The admin update route and the username update route answer 404 for any
  database error. For usernames this includes a new name that another
  listing already has. That new name is stored as given, without `@`
  normalisation.

## Model

| member | source | states |
|---|---|---|
| Ton.SendBocAndGetHash | backend/src/services/ton.ts:6-15 | whatever the broadcast outcome, the identifier is `pending_` followed by decimal digits; nothing throws |
| Ton.FallbackIdDeterminedByClock | backend/src/services/ton.ts:12-14 | two broadcasts get equal identifiers iff they return in the same millisecond, whatever their blobs and outcomes |
| Ton.ExpectedNano | backend/src/services/ton.ts:23 | the expected nano value is the nearest integer to value × 10^9, halves rounded up |
| Ton.ExpectedNanoLaws | backend/src/services/ton.ts:23 | a whole TON amount converts exactly to amount × 10^9; the conversion is monotone |
| Ton.Tolerance | backend/src/services/ton.ts:24 | BigInt division by 50 truncating toward zero, characterised for both signs |
| Ton.ToleranceBounds | backend/src/services/ton.ts:24 | the tolerance is at most 2% of the expected value, 0 below 50 nano, and at least 1 from 50 nano up |
| Ton.StartTime | backend/src/services/ton.ts:25 | the window start is the clock floored to seconds, minus 120 |
| Ton.CheckTxMeaning | backend/src/services/ton.ts:41-46 | a transaction is accepted iff it is inside the window and its value (0 when missing) is within the tolerance on either side; an unparsable value inside the window throws; one outside the window is rejected before its value is read |
| Ton.Scan | backend/src/services/ton.ts:41-46 | `find` yields the first transaction the callback does not reject, or rejects when the callback rejects every one |
| Ton.VerdictMeaning | backend/src/services/ton.ts:27-53 | verified iff one of the first 15 attempts got an `ok` response whose first non-rejected transaction matches |
| Ton.LaterPollsIgnored | backend/src/services/ton.ts:27 | responses after the fifteenth never change the verdict |
| Ton.StaleLedgerNeverVerifies | backend/src/services/ton.ts:25-42 | if every transaction is older than the window, verification fails |
| Ton.ToleranceExample | backend/src/services/ton.ts:23-46 | expecting 10 TON, a 10.05 TON payment verifies and a 10.50 TON one never does |
| Ton.VerifyTonTransaction | backend/src/services/ton.ts:17-54 | the loop's result equals the verdict; it stops at the first matching attempt; earlier attempts did not match; an unverified result made all 15 attempts |
| Tables.Filter | backend/src/routes/accounts.ts:11 | the rows kept are exactly the rows that satisfy the filter |
| Tables.SortNewestFirst | backend/src/routes/accounts.ts:12 | `orderBy: { createdAt: 'desc' }` yields a permutation of the rows with non-increasing timestamps |
| Tables.FilterDistinctIds | backend/src/routes/accounts.ts:10-13 | filtering rows whose ids are distinct keeps them distinct |
| Tables.ReorderedDistinctIds | backend/src/routes/accounts.ts:12 | reordering the rows of one table keeps every record once |
| Tables.CountRows | backend/src/routes/admin.ts:27-32 | counting the listed rows that satisfy a condition gives the number of ids in the table whose record satisfies it |
| Tables.TableRowsLength | backend/src/routes/admin.ts:28 | listing a table yields exactly as many rows as it has records |
| Tables.SumWhereUpdate | backend/src/routes/admin.ts:34-41 | replacing one record changes a conditional sum by the difference of the old and new shares |
| Tables.SumWhereInsert | backend/src/routes/admin.ts:34-41 | inserting under the next id adds exactly that record's share |
| Tables.SumWhereNonnegative | backend/src/routes/admin.ts:34-41 | a sum over non-negative amounts is non-negative |
| Decimal.NatToStringRoundTrip | frontend/src/components/WalletButton.tsx:28 | reading back the decimal string of `n` gives `n` |
| Decimal.IntToStringInjective | backend/src/routes/accounts.ts:94 | `String(id)` of two integers is equal iff the integers are equal |
| Decimal.PadStartIsFixedWidth | frontend/src/components/WalletButton.tsx:29 | a number below 10^w padded with zeros to width w is its w-digit fixed-width numeral |
| Decimal.FixedWidthPrefix | frontend/src/components/WalletButton.tsx:29 | the first a digits of an (a+b)-digit numeral are the a-digit numeral of the number divided by 10^b |
| Decimal.TwoDigitsValue | frontend/src/components/WalletButton.tsx:29 | a two-digit fixed-width numeral reads back as its number |
| Auth.GetFindsFirst | backend/src/middleware/auth.ts:26 | `params.get` finds a value iff the key occurs, and returns the value at its first occurrence |
| Auth.DeleteKeepsOthers | backend/src/middleware/auth.ts:29 | `params.delete(key)` keeps exactly the entries with other keys |
| Auth.GetAfterDelete | backend/src/middleware/auth.ts:29-53 | deleting `hash` does not change what `get` returns for any other key |
| Auth.SortByKey | backend/src/middleware/auth.ts:32-33 | the entries are sorted by key and are a permutation of the input |
| Auth.SortByKeyStable | backend/src/middleware/auth.ts:32-33 | parameters with the same key keep their relative order |
| Auth.CheckedEntries | backend/src/middleware/auth.ts:29-35 | the signed entries are exactly the parameters whose key is not `hash`, sorted by key |
| Auth.DataCheckStringIgnoresHash | backend/src/middleware/auth.ts:29-35 | inserting a `hash` parameter anywhere does not change the data-check string |
| Auth.ParseIntRoundTrip | backend/src/middleware/auth.ts:50 | `parseInt` of `String(n)` is `n` |
| Auth.ParseInitData | backend/src/middleware/auth.ts:23-65 | init data is accepted iff a non-empty hash is present, the MAC of the data-check string equals it, `auth_date` is not more than an hour old, and the user field decodes; the result carries that hash, date and user |
| Auth.NoHashNoInitData | backend/src/middleware/auth.ts:26-27 | without a `hash` parameter nothing is accepted |
| Auth.MissingAuthDateIsStale | backend/src/middleware/auth.ts:50-51 | a missing `auth_date` reads as 0 and is stale for any clock later than an hour after the epoch |
| Auth.TmaPayload | backend/src/middleware/auth.ts:70-74 | a payload exists iff the header starts with `tma `, and the header is `tma ` followed by the payload |
| Auth.RequireInitData | backend/src/middleware/auth.ts:68-82 | the request is authenticated iff the header has the `tma ` prefix, its payload decodes, and the init data is accepted with a user; otherwise 401, or the error handler's 500 `Internal server error` when decoding throws |
| Auth.RequireAdmin | backend/src/middleware/auth.ts:85-97 | the request passes iff `requireInitData` passes and `String(user.id)` is an admin; otherwise it gets 403, or the 401/500 of `requireInitData` |
| Accounts.ListAccounts | backend/src/routes/accounts.ts:9-15 | the list holds exactly the accounts with `quantity > 0`, each once, newest first |
| Accounts.CreateAccount | backend/src/routes/accounts.ts:18-27 | 400 and no change unless the three names are non-empty and both numbers are present; otherwise the new account under the next id, and only the accounts table changes |
| Accounts.PatchAccount | backend/src/routes/accounts.ts:36-43 | every field present in the body is replaced and every absent one is kept |
| Accounts.PatchAccountLaws | backend/src/routes/accounts.ts:36-43 | an empty body changes nothing, and applying the same body twice equals applying it once |
| Accounts.UpdateAccount | backend/src/routes/accounts.ts:30-48 | 404 and no change for an unknown id; otherwise the patched account is stored and returned, and nothing else changes |
| Accounts.DeleteAccount | backend/src/routes/accounts.ts:51-59 | 404 and no change for an unknown id; otherwise exactly that account is removed |
| Accounts.Buy | backend/src/routes/accounts.ts:62-122 | in source order: 400 without wallet and blob, 400 when the account is absent or has `quantity < 1`, 409 when the returned identifier is already in the orders table, all with no change; the blob is broadcast iff the first two checks pass; otherwise a new PENDING order with the account's current price and `String(user.id)`, whose id the reply carries and which its buyer can then poll |
| Accounts.SettleOrder | backend/src/routes/accounts.ts:104-119 | on a PENDING order, the result is the verdict for the order's amount; verified means CONFIRMED and quantity down by exactly 1 in one step (no change at all if the account is gone); otherwise FAILED with stock untouched |
| Accounts.RecordVerdict | backend/src/routes/accounts.ts:111-118 | on a PENDING order, the verdict's branch: CONFIRMED plus one unit of stock taken together, the whole step dropped when the account is gone, or FAILED alone; no other table changes |
| Accounts.GetOrder | backend/src/routes/accounts.ts:125-133 | the order is returned iff it exists and its `telegramId` is `String(user.id)`; otherwise 404 |
| Accounts.OrderPollOwnerScoped | backend/src/routes/accounts.ts:128-131 | two different users can never both read the same order |
| Usernames.FirstActive | backend/src/routes/usernames.ts:13-19 | `take: 1` yields an active rental when there is one, and nothing only when no rental is active |
| Usernames.CurrentRentalOf | backend/src/routes/usernames.ts:13-27 | a current rental is reported iff the username is occupied, with the period and expiry of a confirmed unexpired rental of it |
| Usernames.View | backend/src/routes/usernames.ts:24-29 | `occupied` is true iff some CONFIRMED rental of the listing has `expiresAt > now`, and `currentRental` is present exactly then |
| Usernames.ListUsernames | backend/src/routes/usernames.ts:9-32 | every listing appears once, newest first, each with its occupancy at the given time |
| Usernames.Normalize | backend/src/routes/usernames.ts:43 | the result starts with `@`; it is the input iff the input already started with `@`, else `@` + input |
| Usernames.NormalizeLaws | backend/src/routes/usernames.ts:43 | normalising is idempotent, and `x` and `@x` normalise to the same name |
| Usernames.CreateUsername | backend/src/routes/usernames.ts:35-53 | 400 on a missing field, 409 when the normalised name exists, both with no change; otherwise the listing under the next id with the normalised name |
| Usernames.PatchUsername | backend/src/routes/usernames.ts:62-67 | the fields present in the body are replaced, the name without normalisation; the others are kept |
| Usernames.UpdateUsername | backend/src/routes/usernames.ts:56-73 | 404 with no change for an unknown id or a name another listing has; otherwise the patched listing is stored |
| Usernames.DeleteUsername | backend/src/routes/usernames.ts:76-84 | 404 and no change for an unknown id; otherwise exactly that listing is removed |
| Usernames.ParsePeriod | backend/src/routes/usernames.ts:96 | a period is recognised iff the text is `DAY`, `WEEK` or `MONTH`, and it is the one named |
| Usernames.PeriodNameRoundTrip | backend/src/routes/usernames.ts:96 | each period's name parses back to it |
| Usernames.PeriodLengths | backend/src/routes/usernames.ts:154-158 | the three durations are one day, seven days and thirty days in milliseconds |
| Usernames.ConfirmRental | backend/src/routes/usernames.ts:152-163 | confirmation sets CONFIRMED, `startsAt` = now and `expiresAt` = now + period, and changes nothing else; the rental is then active exactly before the expiry |
| Usernames.ConfirmationOccupies | backend/src/routes/usernames.ts:152-163 | after confirmation the username is occupied for the whole period |
| Usernames.Rent | backend/src/routes/usernames.ts:87-173 | in source order: 400 on missing fields, 400 on a bad period, 404 for an unknown listing, 409 when occupied, and 409 when the identifier is already in the rentals table, all with no change; the blob is broadcast iff the first four checks pass; otherwise a PENDING rental priced at the listing's price for the period, without dates, that its renter can poll |
| Usernames.SettleRental | backend/src/routes/usernames.ts:145-170 | on a PENDING rental without dates, the result is the verdict for the rental's amount; verified means CONFIRMED from `confirmMs` for the period, with the username occupied throughout; otherwise FAILED with neither date set |
| Usernames.GetRental | backend/src/routes/usernames.ts:176-184 | the rental is returned iff it exists and belongs to `String(user.id)`; otherwise 404 |
| Usernames.RentalPollOwnerScoped | backend/src/routes/usernames.ts:179-182 | two different users can never both read the same rental |
| Admin.Lookup | backend/src/routes/admin.ts:10 | the related record is present iff its id is in the table, and is that record |
| Admin.JoinOrdersLaws | backend/src/routes/admin.ts:9-12 | each listed order comes with its own account; every order gives an entry; the order is kept |
| Admin.JoinRentalsLaws | backend/src/routes/admin.ts:18-21 | each listed rental comes with its own username; every rental gives an entry; the order is kept |
| Admin.AdminOrders | backend/src/routes/admin.ts:8-14 | every order exactly once, newest first, each joined with its account |
| Admin.AdminRentals | backend/src/routes/admin.ts:17-23 | every rental exactly once, newest first, each joined with its username |
| Admin.ConfirmedOrdersCounted | backend/src/routes/admin.ts:29 | counting the CONFIRMED rows gives the number of CONFIRMED orders |
| Admin.ConfirmedRentalsCounted | backend/src/routes/admin.ts:31 | counting the CONFIRMED rows gives the number of CONFIRMED rentals |
| Admin.GetStats | backend/src/routes/admin.ts:26-51 | totals are the table sizes and confirmed counts the CONFIRMED records, so confirmed ≤ total; revenue sums the confirmed orders and rentals |
| Admin.SettleOrderRevenue | backend/src/routes/admin.ts:34-37 | confirming a pending order adds exactly its amount to revenue; failing it adds nothing |
| Admin.SettleRentalRevenue | backend/src/routes/admin.ts:38-41 | confirming a pending rental adds exactly its amount to revenue; failing it adds nothing |
| Admin.PendingRecordsAddNothing | backend/src/routes/admin.ts:34-41 | a new PENDING order or rental leaves the revenue as it was |
| Admin.RevenueNonnegative | backend/src/routes/admin.ts:47-48 | with no negative amount the revenue is not negative (an empty sum counts as 0) |
| Admin.AdminId | backend/src/routes/admin.ts:58 | `String(telegramId)` is the string itself or the decimal numeral of the number |
| Admin.AdminIdLaws | backend/src/routes/admin.ts:58 | a number and its decimal string are the same admin; different numbers are different admins |
| Admin.AddAdmin | backend/src/routes/admin.ts:54-63 | 400 for a falsy id, 409 for an existing one, both with no change; otherwise exactly that id is added |
| Admin.AddedAdminPassesGate | backend/src/routes/admin.ts:58 | once an authenticated user's numeric id is added, that user passes `requireAdmin` |
| Wallet.FormatBalanceParts | frontend/src/components/WalletButton.tsx:28-30 | the text is the integer quotient by 10^9, a dot, exactly two digits for the hundredths of the remainder, and ` TON` |
| Wallet.FormatBalanceTruncates | frontend/src/components/WalletButton.tsx:28-30 | read back, the text shows the balance truncated to hundredths: shown ≤ balance < shown + 0.01 TON |
| Wallet.FormatBalanceDistinguishesCents | frontend/src/components/WalletButton.tsx:28-30 | two balances give the same text iff they have the same whole number of hundredths |
| Wallet.ApplyReply | frontend/src/components/WalletButton.tsx:25-32 | an `ok` reply shows its formatted balance; a not-`ok` reply keeps the old value; a failed request or an unparsable result clears it |
| Wallet.NextBalance | frontend/src/components/WalletButton.tsx:13-33 | the effect clears the balance while disconnected and otherwise only starts a request; a reply is applied when it arrives, whatever the connection is by then, and is the only way a value gets set |
| Wallet.BalanceAlwaysFormatted | frontend/src/components/WalletButton.tsx:13-33 | across any sequence of effect runs and replies, the shown balance is null or the formatting of some balance |
| Wallet.LateReplyAfterDisconnect | frontend/src/components/WalletButton.tsx:13-33 | the balance is null right after a disconnect, but a request started before it still sets a balance when it resolves |
| Wallet.StaleReplyOverwrites | frontend/src/components/WalletButton.tsx:21-32 | an older request that resolves last overwrites the newer balance |

## Left out

- The network is not modelled: the axios calls to `sendBoc` and
  `getTransactions`, and the frontend `fetch`. Their results are inputs, each
  attempt's response an element of `polls`. The 10- and 15-second timeouts
  only decide which input is seen.
- Ton.VerifyTonTransaction: the request's `expectedDestination` and `limit: 10`
  are not modelled. `polls` is taken to be the ledger's answer for the
  merchant wallet, and a result of any length is scanned.
- Timers and concurrency are not modelled: the `setImmediate` background
  task, the 5-second sleeps, and requests running at the same time. The
  settlement is a separate method and each call runs on its own. Call
  sequences that mirror the check-then-write gaps are still admitted. Two
  `Accounts.Buy` calls for the last unit both succeed, because stock is
  checked at request time and decremented only on settlement. Both orders
  can then be confirmed, which leaves a negative quantity. Likewise, two
  `Usernames.Rent` calls made before either settles can both be confirmed.
  Nothing in `Store.Db.Valid` excludes either outcome.
- Floating point is not modelled. Prices and amounts are exact `real`
  numbers, so `Math.round(expectedValueTon * 1e9)` has no IEEE-754 rounding
  error, and neither does the revenue sum.
- Number coercion is not modelled. `Number(...)` of a non-numeric body value
  (NaN) and a non-integer quantity or route id are left out. Quantities and
  ids are integers.
- Accounts.UpdateAccount: a body field sent as `null` is treated like an
  absent field. In the code, `Number(null)` stores 0 and a `null` string is
  refused by the database (404).
- Usernames.UpdateUsername: the same treatment of `null` fields.
- The database schema is not part of this model. So are its referential
  constraints and cascades: a delete succeeds even when orders or rentals
  refer to the record.
- The columns the database fills in are not modelled, beyond ids and
  `createdAt`.
- The admin table is a set of Telegram id strings. The admin record's own id
  and timestamp are not modelled, and `AddAdmin` replies with the stored id.
- `take: 1` without an `orderBy` leaves the choice to the database. The model
  takes the active rental with the lowest id.
- HMAC-SHA-256 and the secret derived from the bot token are the abstract
  `mac` function.
- `decodeURIComponent` followed by `URLSearchParams` is the abstract
  `decodePayload` (`None` when it throws), and `JSON.parse` of `user` is
  `decodeUser`.
- Auth.SortByKey: `localeCompare` is modelled as code-unit order. It is
  locale-dependent in the code.
- Auth.RequireInitData: the Telegram user's fields other than `id` are not
  modelled.
- Auth.RequireAdmin: under Express 4 a decoding failure inside `requireAdmin`
  is an unhandled rejection and the request gets no reply. The model gives
  the Express 5 answer, the error handler's 500.
- Wallet.NextBalance: a negative ledger balance is not modelled, and neither
  are React's rendering, the menu and the effect's dependency tracking. Which
  events happen, and in what order, is the input sequence. `BigInt` failing
  is the absent `result`.
- The React pages, the Express wiring, the seed script and the TonConnect
  hook are not part of this model.
