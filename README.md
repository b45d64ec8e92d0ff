# CryptoPay wallet ledger in Dafny

CryptoPay's backend keeps, per user, a wallet with three independent balances:
- `testingBalance`, a play-money bucket;
- `testBalance`, money moved through the payment gateway in test mode;
- `realBalance`, money moved through it in live mode.

Every change of a balance is recorded in an append-only transaction table of
CREDIT and DEBIT rows. This project models the wallet ledger of
`backend/src/index.js` as a sequential in-memory state machine and proves that
its handlers keep the ledger sound.

The model has three modules:

- `Text` (`text.dfy`) holds the pure string helpers:
  - `sanitizeInput`, which strips `<>{}`;
  - `validateUpiId`, the anchored regex `^[a-zA-Z0-9._-]+@[a-zA-Z0-9._-]+$`, written as a left-to-right matcher and proved equal to its declarative reading;
  - the `includes('@cryptopay')` test;
  - the alias signup generates: the email's text before its first `@`, `-`, eight hex digits and `@cryptopay`.
- `Ledger` (`ledger.dfy`) is the value-level ledger:
  - the `Wallet` record and the `Entry` row;
  - each wallet's net of credits minus debits;
  - the newest-first listing;
  - the two batch shapes, an internal transfer (two bucket updates and a DEBIT/CREDIT pair) and a one-sided credit or debit;
  - bucket totals across all wallets;
  - the two mode-to-bucket selections;
  - verify-payment's confirmation step.
- `Store` (`store.dfy`) is the class `PaymentApp`:
  - its fields are the user table, the unique indexes on email and alias, the wallet table, the merchant table and the transaction sequence;
  - it has one method per route handler;
  - `Valid()` is the store invariant. Ids are positive and every user has exactly one wallet. The indexes are exact. Merchants and entries belong to existing users, and every entry moves a positive amount. No bucket is negative. Every wallet's three balances together equal the credits minus the debits the log records for it.

The constructor establishes `Valid()` and every handler preserves it, so the
ledger/balance consistency holds after any sequence of operations.

Modelling conventions:
- Each handler's prisma `$transaction([...])` batch is one atomic assignment.
- The authenticated user id is a trusted parameter. Ids are counters from 1, and 0 stands for a missing id.
- Amounts are integers (minor units), and a missing amount is 0.
- The gateway's answers are parameters: the HMAC function, a payout's status and its payment id. So is the random alias suffix.
- A handler answers `Done`, `Failed(error)`, or `NoReply`. `NoReply` covers a rejected promise outside the handler's `try` and a request type the handler has no branch for.
- A caller with no wallet makes the source fail inside its `try`, and the model answers `Failed(Internal)`. Two different failures lead there. Transfer-testing (line 148), transfer-real (line 194) and verify-payment's TRANSFER (line 335) read a field of the `null` wallet. Add-testing-money (lines 114-127) and verify-payment's ADD_MONEY (lines 313-327) have a nested `connect` that finds no wallet, so the batch rejects.

## Model

| member | source | states |
|---|---|---|
| Text.SanitizeInput | backend/src/index.js:46-48 | the result has no `<`, `>`, `{`, `}`, is no longer than the input, and every other character occurs exactly as often as in the input |
| Text.SanitizeChar | backend/src/index.js:47 | a single markup character is removed, any other character is kept |
| Text.SanitizeConcat | backend/src/index.js:47 | sanitising distributes over concatenation, so kept characters stay in their original order |
| Text.SanitizeFixed | backend/src/index.js:46-48 | a string is unchanged by sanitising if and only if it has no markup character |
| Text.SanitizeIdempotent | backend/src/index.js:46-48 | sanitising twice equals sanitising once |
| Text.ValidateUpiId | backend/src/index.js:51-53 | the check accepts a string if and only if it is a non-empty run of `[A-Za-z0-9._-]`, one `@`, and another non-empty run of that class |
| Text.RunMatchesPattern | backend/src/index.js:52 | the left-to-right matcher that runs the regex accepts exactly the strings with such a split point |
| Text.ValidUpiIdIsSanitized | backend/src/index.js:188-191 | an id that passes the UPI-id check is unchanged by sanitising, so transfer-real looks up the id it validated |
| Text.Includes | backend/src/index.js:140 | `includes` holds if and only if the substring occurs at some index |
| Text.LocalPart | backend/src/index.js:64 | `email.split('@')[0]` is a prefix of the email with no `@`, followed by `@` when it is shorter than the email |
| Text.MakeAlias | backend/src/index.js:64 | no contract of its own. It is characterised by `Text.AliasHasDomain` (the alias contains `@cryptopay`) and `Text.AliasValidity` (when it passes the UPI-id check) |
| Text.AliasHasDomain | backend/src/index.js:64 | every generated alias contains `@cryptopay`, so transfer-testing's filter admits it |
| Text.NatText | backend/src/index.js:173 | the text of `${req.userId}` is a non-empty string of decimal digits, with no leading zero, that denotes the id |
| Text.NatTextInjective | backend/src/index.js:173 | two ids give the same text if and only if they are equal, so the "Received from user" description names its sender |
| Text.AliasValidity | backend/src/index.js:51-64 | with an 8-hex-digit suffix, a generated alias passes the UPI-id check if and only if the email's local part uses only `[A-Za-z0-9._-]` |
| Ledger.Wallet.Add | backend/src/index.js:126 | an increment (or a decrement, as a negative delta) moves exactly one bucket and the wallet total by delta, and leaves the other buckets alone |
| Ledger.NetAppend | backend/src/index.js:114-128 | appending an entry changes only its owner's net, by the signed amount |
| Ledger.NetOfStranger | backend/src/index.js:72 | a user with no entries in the log nets zero |
| Ledger.NewestFirst | backend/src/index.js:457-460 | the listing is never longer than the log. Its contents are stated by `Ledger.NewestFirstMembers` and its order by `Ledger.NewestFirstConcat` |
| Ledger.NewestFirstMembers | backend/src/index.js:457-460 | the listing for a user holds exactly that user's entries of the log |
| Ledger.NewestFirstOfStranger | backend/src/index.js:457-460 | a user with no entries gets an empty listing |
| Ledger.NewestFirstConcat | backend/src/index.js:459 | entries appended later are listed first: the listing of older+newer is the listing of newer followed by that of older |
| Ledger.Transfer | backend/src/index.js:149-157 | the sender's bucket drops by the amount and the recipient's rises by it; their other buckets, every other wallet and the set of wallets are unchanged; a self-transfer changes nothing |
| Ledger.OneSided | backend/src/index.js:124-127 | one bucket of one wallet moves by delta; its other buckets, every other wallet and the set of wallets are unchanged |
| Ledger.TransferKeepsNonNegative | backend/src/index.js:148-157 | a transfer the sender's bucket covers keeps every bucket of every wallet non-negative |
| Ledger.OneSidedKeepsNonNegative | backend/src/index.js:244-248 | a one-sided change that leaves its bucket non-negative keeps every bucket of every wallet non-negative |
| Ledger.ConsistentAddWallet | backend/src/index.js:72 | adding a zero wallet for a user with no entries keeps every balance equal to its net |
| Ledger.LedgerAfterTransfer | backend/src/index.js:149-176 | a transfer batch with its DEBIT row for the sender and CREDIT row for the recipient keeps every wallet's total equal to its net |
| Ledger.LedgerAfterOneSided | backend/src/index.js:114-128 | a one-sided bucket change with its matching entry keeps every wallet's total equal to its net |
| Ledger.TransferPreservesBucketTotals | backend/src/index.js:149-157 | a transfer leaves the sum of every bucket across all wallets unchanged |
| Ledger.OneSidedBucketTotal | backend/src/index.js:124-127 | a one-sided change moves its bucket's sum across all wallets by exactly delta |
| Ledger.BucketTotalUpdate | backend/src/index.js:124-127 | replacing one wallet changes a bucket's sum by that wallet's change in the bucket |
| Ledger.PayMerchantBucket | backend/src/index.js:397-401 | no contract of its own. `Ledger.PayMerchantModes` states which modes it accepts and which bucket each selects |
| Ledger.VerifyPaymentBucket | backend/src/index.js:311 | no contract of its own. `Ledger.VerifyPaymentModes` states that `test` selects the test bucket and every other mode the real bucket |
| Ledger.PayMerchantModes | backend/src/index.js:397-401 | pay-merchant accepts exactly `testing`, `test`, `live` and maps them to the testing, test and real buckets, agreeing with verify-payment on `test` and `live` |
| Ledger.VerifyPaymentModes | backend/src/index.js:311 | verify-payment maps `test` to the test bucket and every other mode to the real bucket, never to testing |
| Ledger.ConfirmAsWritten | backend/src/index.js:312-335 | as written, only a TRANSFER the caller's bucket does not cover is refused. An accepted ADD_MONEY raises the caller's bucket by the amount, and an accepted TRANSFER moves the amount from caller to recipient. Nothing else changes: not the set of wallets, not the other buckets of either wallet, not any other wallet. A TRANSFER to oneself changes nothing |
| Ledger.ConfirmAsWrittenTopUpGoesNegative | backend/src/index.js:313-327 | as written, an ADD_MONEY with an amount below minus the caller's balance (-5 on an empty bucket) is accepted. It leaves a non-negative ledger with that bucket below zero |
| Ledger.ConfirmAsWrittenSendGoesNegative | backend/src/index.js:335-343 | as written, a TRANSFER with a negative amount passes the balance test. It raises the sender's bucket, and once the amount is below minus the recipient's balance (-5 between empty wallets) the recipient's bucket ends below zero |
| Ledger.Confirm | backend/src/index.js:312-335 | a confirmation is accepted if and only if the amount is positive and, for a transfer, the caller's bucket covers it; an accepted one commits the as-written batch |
| Ledger.ConfirmKeepsNonNegative | backend/src/index.js:312-335 | an accepted confirmation keeps every bucket of every wallet non-negative |
| Store.IndexedInsert | backend/src/index.js:66-75 | inserting a user whose email and alias are both unused keeps the email and alias indexes exact |
| Store.SignupKeepsInvariant | backend/src/index.js:66-75 | inserting a new user with a zero wallet under the next id keeps the store invariant, and the new user has net zero and an empty listing |
| Store.OneSidedKeepsInvariant | backend/src/index.js:114-128 | a one-sided batch by an existing user with a positive amount that keeps its bucket non-negative keeps the store invariant |
| Store.PaymentApp.constructor | backend/src/index.js:12 | the empty store satisfies the invariant |
| Store.PaymentApp.IdentitiesUnique | backend/src/index.js:79-81 | in a valid store no two users share an email or an alias |
| Store.PaymentApp.CommitTransfer | backend/src/index.js:149-176 | the new wallets are the transfer of the old, the log gains exactly the DEBIT row and then the CREDIT row, every bucket total is unchanged and the invariant holds |
| Store.PaymentApp.CommitOneSided | backend/src/index.js:114-128 | the new wallets are the one-sided change of the old, the log gains exactly one row, the bucket total moves by the signed amount and the invariant holds |
| Store.PaymentApp.CreateUser | backend/src/index.js:66-75 | the user row and its zero wallet are added under the next id, both indexes gain the new keys, the invariant holds, and the user has no entries |
| Store.PaymentApp.Signup | backend/src/index.js:56-85 | a missing field gives MissingFields and a taken email or alias gives DuplicateIdentity, both with no change; success happens exactly otherwise and adds the user with the generated alias, the sanitised name and a zero wallet under the next id, and the next id rises by one |
| Store.PaymentApp.AddTestingMoney | backend/src/index.js:110-134 | a non-positive amount is refused with no change; otherwise the caller's testing bucket rises by exactly the amount, with one CREDIT row and nothing else changed |
| Store.PaymentApp.TransferTesting | backend/src/index.js:137-182 | the error answers are, in order, InvalidAmount, InvalidUpiId (no `@cryptopay`), RecipientNotFound, Internal (no caller wallet) and InsufficientBalance, each with no change; success happens exactly when every check passes and is the testing-bucket transfer with its DEBIT/CREDIT rows |
| Store.PaymentApp.TransferReal | backend/src/index.js:185-266 | the error answers are, in order, InvalidAmount, InvalidUpiId, Internal (no caller wallet), InsufficientBalance on the real bucket and PaymentNotCaptured (an external payout the gateway did not capture), each with no change. A known alias gets an internal transfer with two rows. Any other id is debited with one row carrying the payout id, and only when the payout is captured |
| Store.PaymentApp.PayOut | backend/src/index.js:233-259 | the payout to an outside id: a captured payout debits the caller's real bucket by the amount with one DEBIT row carrying the payout id, and lowers that bucket's total by the amount. Any other status is refused with PaymentNotCaptured and nothing written |
| Store.PaymentApp.SecretFor | backend/src/index.js:302 | no contract of its own. It is the secret `Store.PaymentApp.VerifyPayment`'s contract checks the signature with: the test secret for `test` and the live secret for every other mode |
| Store.PaymentApp.VerifyPayment | backend/src/index.js:299-372 | a wrong signature is refused with no change, and an unknown type changes nothing and gets no reply. After the signature check, ADD_MONEY answers Internal without a caller wallet and then InvalidAmount. TRANSFER answers, in order, RecipientRequired, RecipientNotFound, Internal, InvalidAmount and InsufficientBalance. Every such refusal is a `Failed` answer with no change. ADD_MONEY credits and TRANSFER moves exactly what `Confirm` accepts, with rows tagged with the payment id. An ADD_MONEY raises its bucket's total by the amount, and a TRANSFER never changes a bucket total. Refusing a non-positive amount with InvalidAmount is the correction under Findings, not what the source does |
| Store.PaymentApp.RegisterMerchant | backend/src/index.js:375-391 | a missing name or an unknown caller is refused with no change; otherwise a merchant owned by the caller with the sanitised name is added under the next merchant id, and that id rises by one |
| Store.PaymentApp.PayMerchant | backend/src/index.js:394-437 | the error answers are, in order, InvalidMerchantOrAmount, InvalidMode, MerchantNotFound and InsufficientBalance, each with no change. A caller without a wallet gets no reply, because the source reads it outside its `try`. Success happens exactly when the merchant exists, the mode is valid and the selected bucket covers the amount, and is that bucket's transfer to the merchant's owner with the two rows. No bucket total ever changes |
| Store.PaymentApp.Transactions | backend/src/index.js:455-466 | the listing holds exactly the caller's entries of the log, newest first |

## Left out

- Login, `/create-order`, `/wallet` and `/wallet/qr` are not modelled. They only read the store or call the gateway, QR and JWT libraries.
- The JWT middleware, bcrypt hashing, `dotenv` and `app.listen` are I/O and foreign libraries. The password is checked for presence and then dropped; no hash is stored.
- Razorpay's order creation, payout call and HMAC-SHA256 are foreign calls. The HMAC is a function parameter, and the payout's status and id are values passed in.
- In transfer-real, the `!razorpay` test on the live instance cannot fail. The instance is always constructed when the module loads (`backend/src/index.js:22-25`).
- `crypto.randomBytes` is replaced by a suffix parameter that must be eight hex digits.
- Amounts are unbounded integers. JavaScript numbers, `Math.round(amount * 100)` and floating point are not modelled.
- Concurrency is not modelled. The model is sequential, so the race between a balance read and its batch does not occur.
- A replayed verify-payment with the same payment id credits again. The source does not deduplicate, and the model claims no idempotency.
- Merchant registration has no uniqueness rule, because the schema that would impose one is not part of this model.
- Entries record the wallet, amount, kind, description and payment id. They do not record which bucket changed, their COMPLETED status or timestamps. Creation time is the log order. The source lists by `createdAt` alone and leaves the order of equal timestamps to the database. The model puts ties in reverse insertion order.
- Signup checks for a taken email or alias before inserting, where the source inserts and catches P2002. The outcome is the same: an error and no change. Other database errors are not modelled.
- Store.PaymentApp.TransferReal: its contract speaks of the sanitised id. That this equals the raw id is the separate lemma `Text.ValidUpiIdIsSanitized`.
- Store.PaymentApp.Transactions: order is not stated in its contract. It is the lemma `Ledger.NewestFirstConcat` about the function it returns.

## Findings

| source | as written | input that shows it | evidently intended | confidence | as-written member | corrected member |
|---|---|---|---|---|---|---|
| backend/src/index.js:312-335 | verify-payment never checks that `amount` is positive: ADD_MONEY credits any amount and TRANSFER only checks that the sender's bucket is not below it | a signed confirmation with `amount = -5` on an empty wallet: ADD_MONEY leaves the test bucket at -5, and TRANSFER takes 5 from the recipient, leaving its bucket at -5 | refuse a non-positive amount, as every other handler does (lines 112, 139, 187, 396) | not executed | Ledger.ConfirmAsWritten, Ledger.ConfirmAsWrittenTopUpGoesNegative, Ledger.ConfirmAsWrittenSendGoesNegative | Ledger.Confirm, Ledger.ConfirmKeepsNonNegative, Store.PaymentApp.VerifyPayment |
