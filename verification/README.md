# digicash: a verified model of the value system

digicash is Chaumian e-cash. A bank debits an account and blind-signs a coin; whoever holds the
coin deposits it once; several banks share a registry of spent serials and settle what they owe each
other; a wallet splits amounts into power-of-two coins. This project models the parts that decide
whether money is created, lost or spent twice, and proves what they promise over every run.

`dafny verify dfyconfig.toml` checks all of it.

## How it is built

| file | what it holds |
|---|---|
| `Bank.dfy` | the bank's tables, its transactions as functions, and the `Bank` class that performs them in place |
| `BankRuns.dfy` | requests interleaved transaction by transaction, with retries, crashes and restarts; the invariant of every run |
| `BankLedger.dfy` | the ledger equation, and exactly when a repeated refund breaks it |
| `BankProperties.dfy` | withdrawal idempotency, deposit answers, solvency |
| `Recovery.dfy` | startup recovery: convergence, idempotency, and exactly when it completes |
| `Registry.dfy`, `Netting.dfy` | the registry's tables, the `Registry` class, netting, and what holds over its runs |
| `MultiBank.dfy` | any number of banks and one registry, with the two-step deposit interrupted anywhere: each service's part is a run of that service, and value is conserved across them |
| `CoinSelection.dfy`, `Decomposition.dfy`, `WalletStore.dfy` | the wallet's coin arithmetic and its spend operation |
| `Replay.dfy` | the nonce store and the timestamp window |
| `Payload.dfy`, `Text.dfy` | the canonical signed payload, the headers, decimal and hex |
| `Common.dfy`, `Sums.dfy`, `Arith.dfy` | shared types, finite sums, Euclidean division |

A transaction is a function from tables to tables: it returns the committed tables, or the tables it
was given when it is rolled back. Unique keys and CHECK constraints are part of these functions. The
classes perform the same transactions in place on map fields and are proved equal to them; the run
theorems are about sequences of them. Integers are unbounded, and every `i64` column limit and every
saturating or wrapping `u64` operation is written out.

## Assumptions

- Each SQL transaction is atomic. The one exception modelled is the request-id lookup of a deposit,
  which may be stale (`stale` in `CommitDeposit`).
- Blind signing is a deterministic partial function of the denomination's key and the blinded message,
  as BlindSign is in section 4.3 of RFC 9474. A restart may change which denominations are served, not
  the key of a denomination.
- `DepositsNeverExceedIssued` and `Solvency` assume unforgeability: each deposited coin descends from an
  issued signature of its own. `Solvency` also assumes that no refund is repeated, which is exactly when
  the ledger equation holds (`LedgerRunExactly`). `LedgerEquation` gives a discipline that is enough for
  it: no two requests about to compensate the same withdrawal at once.
- Banks in `MultiBank` run the code modelled here and keep their signing keys. The submissions, and all
  other work of a bank or of the registry, may come at any time and in any order.
- The anti-replay results other than `CheckRefines`, `ReplayBoundSkewed` and `SkewAdmitsLiveNonce` assume
  that the clock readings reach the nonce store in order. A clock that does not run backwards is not
  enough: a request reads it once and gets to the store later. `ReplayBoundSkewed` gives the bound
  when readings are out of order by up to any given skew, and `SkewAdmitsLiveNonce` shows that one second
  is enough for a live nonce to be accepted again.
- Hash-map iteration order, the order of query rows and the order an unstable sort leaves ties in are
  parameters, and the results hold for all of them.

## Where the code and its documentation differ

- The withdrawal recovery comment says a pending withdrawal is never left stranded. It is, when its
  denomination is no longer served or its refund does not fit the account; `RecoveryCompletesExactly`
  gives the exact condition and `PendingCanStrand` an instance.
- The deposit request's id is documented as replaying a retry of the same coin. That holds for a bank on
  its own (`DepositDecidedByHistory`). With a registry the retry is refused (`RetryNotReplayed`). So a coin
  that the registry accepted and the bank then did not credit is never credited by anyone
  (`StrandedForever`). A step strands a coin exactly when it is an acceptance whose reply is lost, a
  commit that the bank refuses (an unknown account, a request id already used, a credit that does not fit),
  or an error or a crash of the bank that holds the acceptance (`StepStrandsExactly`). A mistyped
  payee account is enough (`MistypedAccountStrands`).
- A withdrawal that cannot be signed is to be refunded. The compensating transaction does not look
  at the record's state, so two requests for one withdrawal can both be refunded. The ledger equation
  then fails, and over every run it fails in no other way (`LedgerStepExactly`, `LedgerRunExactly`).
- A nonce is documented as refusing a repeat. A request stamped exactly 60 seconds ahead is accepted a
  second time exactly 120 seconds later (`ReplayExactly`, `ReplayHappens`).
- The canonical payload separates its fields by `|` without escaping. It binds the request as long as the
  numbers of `|` in the method and in the nonce are known (`PayloadBindsRequest`), and neither can be
  dropped (`MethodBarsCollide`, `NonceBarsCollide`). With the method's number known, it binds on a set of
  nonces exactly when no nonce of the set is another one preceded by text that ends in a digest and
  a timestamp (`BindsExactly`).

## Model
| member | source | states |
|---|---|---|
| `Decomposition.Decompose` | crates/digicash-wallet/src/wallet.rs:213-223 | for every amount: coins sum to it exactly, are denominations, strictly decrease except that 8192 may repeat, and no other collection of denominations with that sum has fewer coins |
| `Decomposition.DecomposeOver` | crates/digicash-wallet/src/wallet.rs:214-222 | the two nested loops compute the greedy change for any halving list of denominations |
| `Decomposition.ChangeExact` | crates/digicash-wallet/src/wallet.rs:210-212 | because 1 is a denomination, greedy change meets every amount exactly |
| `Decomposition.ChangeFewest` | crates/digicash-wallet/src/wallet.rs:213-223 | every collection of the denominations has at least as many coins as the greedy change of its total |
| `Decomposition.ChangeCanonical` | crates/digicash-wallet/src/wallet.rs:216-221 | in greedy change only the largest denomination repeats |
| `CoinSelection.SelectExact` | crates/digicash-wallet/src/wallet.rs:234-248 | a selection is a sub-collection of the held coins worth exactly the amount; on a divisibility chain there is one exactly when the amount can be paid at all, it has the fewest coins, and its denominations do not depend on how ties are sorted |
| `CoinSelection.SortUnstable` | crates/digicash-wallet/src/wallet.rs:235-235 | the sort promises only a descending permutation |
| `CoinSelection.GreedyMarks` | crates/digicash-wallet/src/wallet.rs:236-246 | on any coins whatever: a coin is taken if and only if it fits what the coins taken before it leave open and those have not already paid the amount |
| `CoinSelection.GreedyComplete` | crates/digicash-wallet/src/wallet.rs:232-248 | on a chain the greedy remainder is zero if and only if some sub-collection sums to the amount |
| `CoinSelection.GreedyFewest` | crates/digicash-wallet/src/wallet.rs:234-248 | on a chain no exact payment of a positive amount uses fewer coins |
| `CoinSelection.ReleaseExactly` | crates/digicash-wallet/src/wallet.rs:238-246 | the exchange step: among coins that all divide a goal and are worth at least it, some are worth exactly it |
| `CoinSelection.SelectionIndependentOfSort` | crates/digicash-wallet/src/wallet.rs:235-246 | any two descending arrangements of the same coins select the same denominations and leave the same remainder |
| `CoinSelection.CompleteExactlyForChains` | crates/digicash-wallet/src/wallet.rs:232-233 | greedy selection pays every payable amount from every supply in a set of denominations if and only if the set is a divisibility chain |
| `WalletStore.Wallet.ListCoins` | crates/digicash-wallet/src/store.rs:129-136 | lists each stored coin once, for the store's whole value |
| `WalletStore.Wallet.Spend` | crates/digicash-wallet/src/wallet.rs:147-166 | whatever the disk does: a bundle, once written, is distinct stored coins worth exactly the amount, the coins removed are its first ones, and nothing the store held is missing from both; success removes all of them, a removal or flush that fails is an error; without a bundle nothing changes, and the shortage reports the saturated total; the shortage is reported whenever no set of stored coins is worth the amount, and on a chain only then |
| `WalletStore.Wallet.RemoveAll` | crates/digicash-wallet/src/wallet.rs:162-164 | removes the bundle's serials and their value up to the first failing removal, and fails exactly when one fails |
| `WalletStore.SaturatingTotalIs` | crates/digicash-wallet/src/wallet.rs:149-152 | the saturating fold is the true total capped at the largest u64 |
| `Replay.NonceTable.Connect` | crates/digicash-bank/src/bank.rs:105-113 | a restart keeps the unexpired nonces and resets the counter, or fails exactly when the time is out of range |
| `Replay.NonceTable.Check` | crates/digicash-bank/src/bank.rs:262-285 | fresh exactly when the nonce is unknown or expired, and then recorded with its expiry; every 1024th check also deletes the expired ones; an expiry out of range is an error that changes nothing |
| `Replay.NonceTable.PurgeExpired` | crates/digicash-bank/src/bank.rs:288-295 | deletes exactly the nonces whose expiry is not after now, or fails exactly when the time is out of range |
| `Replay.NonceTable.Admit` | crates/digicash-bank/src/auth.rs:70-99 | accepts exactly an authentic request stamped at most 60 seconds from the clock either way whose nonce is not live; a request outside the window or not authentic records nothing |
| `Replay.CheckRefines` | crates/digicash-registry/src/registry.rs:328-361 | for any lifetime, a purged store answers as an unpurged log of accepted uses would: fresh if and only if no accepted use at time a has a + ttl after now |
| `Replay.AcceptedExactly` | crates/digicash-bank/src/auth.rs:70-99 | over every run, purges and restarts anywhere, acceptance is equivalent to: authentic, timestamp and clock at most 60 seconds apart, expiry in range, no accepted use of the nonce younger than 120 seconds |
| `Replay.ReplayBound` | crates/digicash-bank/src/auth.rs:70-99 | two acceptances of one timestamp and nonce force timestamp = first + 60 and second = first + 120, and there is no third |
| `Replay.ReplayExactly` | crates/digicash-bank/src/auth.rs:70-99 | replaying a request accepted once succeeds if and only if it was stamped 60 seconds ahead and returns exactly 120 seconds later |
| `Replay.ReplayHappens` | crates/digicash-bank/src/auth.rs:22-24 | a run in which that double acceptance occurs |
| `Replay.ReplayBoundSkewed` | crates/digicash-bank/src/auth.rs:69-99 | with clock readings out of order by at most a skew, a request accepted twice was stamped at least 60 seconds less the skew ahead and returned between 120 seconds less the skew and 120 seconds later; below 60 seconds of skew there is no third acceptance |
| `Replay.SkewAdmitsLiveNonce` | crates/digicash-bank/src/auth.rs:69-99 | a run with one second of skew in which a nonce is accepted again while it is still live |
| `Replay.PurgePaced` | crates/digicash-bank/src/bank.rs:279-283 | of any 1024 checks in a row, across the counter's wrap, one leaves no expired nonce in the store |
| `Text.ParsePrint` | crates/digicash-proto/src/auth.rs:51-55 | parsing inverts printing for every u64 |
| `Text.ParseExactly` | crates/digicash-proto/src/auth.rs:51-55 | a text parses to a number if and only if it is the number's decimal form behind any zeros and at most one plus sign, and the number is a u64 |
| `Text.PrintPositional` | crates/digicash-proto/src/auth.rs:37-37 | each printed digit is the digit of its power of ten, the most significant first and not zero |
| `Text.HexInjective` | crates/digicash-core/src/auth.rs:102-102 | hex determines the bytes |
| `Text.HexIs` | crates/digicash-core/src/auth.rs:102-102 | two lowercase digits a byte, the high half first |
| `Payload.UpperIs` | crates/digicash-core/src/auth.rs:105-105 | exactly the letters a to z move 32 down; length and every other character are kept |
| `Payload.PayloadLayout` | crates/digicash-core/src/auth.rs:103-110 | the five fields in their order between four bars; a method without lowercase letters appears as it is |
| `Payload.PayloadBindsRequest` | crates/digicash-core/src/auth.rs:94-111 | for any path, two requests whose methods and nonces agree in their number of separators share a payload if and only if upper-cased method, path, digest, timestamp and nonce agree |
| `Payload.NonceBarsCollide` | crates/digicash-core/src/auth.rs:103-110 | for every request, a nonce that reads as digest, timestamp and nonce gives a second, different request with the same payload |
| `Payload.MethodBarsCollide` | crates/digicash-core/src/auth.rs:103-110 | for every request, a bar in the method may be moved to the path, giving a second, different request with the same payload |
| `Payload.BindsExactly` | crates/digicash-core/src/auth.rs:94-111 | for any set of nonces and methods with equal bar counts: the payload determines the request if and only if no nonce of the set is another one preceded by text that ends in a digest and a timestamp |
| `Payload.HeadersRoundTrip` | crates/digicash-proto/src/auth.rs:34-74 | the pairs sent parse back to the same headers exactly when no text field is empty, otherwise the first empty one is reported |
| `Payload.HeadersDecided` | crates/digicash-proto/src/auth.rs:46-74 | for any lookup: parsing succeeds if and only if the four headers are given and the timestamp is a number, and otherwise names the first that fails and how |
| `Payload.ParsedHeadersPrint` | crates/digicash-proto/src/auth.rs:46-64 | any headers a server parses, from any lookup, print to pairs that parse to the same headers |
| `Netting.Net` | crates/digicash-registry/src/registry.rs:242-280 | for any walk of the map: the answer is the settlement of the receivables, ordered by the bank that owes and then the bank that is owed, with the rows written as its members, no self-claims and no i64 overflow |
| `Netting.SettlementUnique` | crates/digicash-registry/src/registry.rs:244-280 | a set of receivables has one settlement, so the answer does not depend on the iteration order |
| `Netting.SortedAscends` | crates/digicash-registry/src/registry.rs:276-279 | the answer's order is dictionary order: decided where two names first differ |
| `Netting.WholeWalkCovers` | crates/digicash-registry/src/registry.rs:244-259 | after a whole walk every pair with a positive net has its claim |
| `Netting.NettingConserves` | crates/digicash-registry/src/registry.rs:244-273 | under every antisymmetric valuation of pairs the claims weigh what the receivables weighed |
| `RegistryTables.Registry.SubmitSerial` | crates/digicash-registry/src/registry.rs:125-219 | refused exactly when the pair's cap is at most its receivable, else a double spend exactly when the serial is taken, else accepted unless the receivable would overflow; each with the rows it writes, and a refusal or error writes none |
| `RegistryTables.Registry.SettleAll` | crates/digicash-registry/src/registry.rs:226-281 | clears the receivables, appends the netted rows after the old claims and answers with the settlement of what was outstanding, in order |
| `RegistryTables.Registry.SetExposureCap` | crates/digicash-registry/src/registry.rs:284-302 | sets or replaces a pair's cap within range |
| `RegistryRuns.RunConserves` | crates/digicash-registry/src/registry.rs:184-281 | over every run each antisymmetric valuation of accepted coins equals that of receivables plus claims |
| `RegistryRuns.PositionConserved` | crates/digicash-registry/src/registry.rs:184-281 | for every bank and run: accepted as depositor less accepted as issuer equals the outstanding difference plus the claim ledger's |
| `RegistryRuns.RunReceived` | crates/digicash-registry/src/registry.rs:184-194 | over every run the value accepted from a bank is the face value of the serials filed under it as first depositor |
| `RegistryRuns.SettleTwice` | crates/digicash-registry/src/registry.rs:221-225 | settling again at once, in any order, claims nothing and changes nothing |
| `RegistryRuns.ExposureBound` | crates/digicash-registry/src/registry.rs:140-194 | while a cap is not lowered, the receivable stays 0 at cap 0 and otherwise at most cap - 1 plus the largest coin, over any run |
| `RegistryRuns.ExposureUnderCap` | crates/digicash-registry/src/registry.rs:284-302 | setting a cap while nothing is outstanding starts that bound |
| `RegistryRuns.AttributionHolds` | crates/digicash-registry/src/registry.rs:169-213 | for every serial: transcripts number one acceptance plus the double-spend answers, and the stored first depositor is the first of them |
| `RegistryRuns.DoubleSpendShowsAll` | crates/digicash-registry/src/registry.rs:195-213 | a double-spend answer lists all the serial's transcripts, oldest first and those of one moment in row order, the first and the current among them |
| `RegistryRuns.SubmissionDecidedByHistory` | crates/digicash-registry/src/registry.rs:151-194 | in every reachable state a submission is refused if and only if the value accepted for its pair since the last settlement has reached the cap, else a double spend if and only if the serial was accepted before, else accepted if and only if the total fits; no serial is accepted twice |
| `RegistryRuns.RunSinceSettlement` | crates/digicash-registry/src/registry.rs:184-194 | over every run a pair's receivable is the value accepted for it since the last settlement |
| `BankService.Bank.constructor` | crates/digicash-bank/src/bank.rs:95-114 | opening a bank runs one recovery pass over the unfinished records before anything else, and leaves none unfinished exactly when all can be recovered |
| `BankService.Bank.CreateAccount` | crates/digicash-bank/src/bank.rs:168-189 | opens an account and answers with its credit, or says that it exists or the amount is out of range and changes nothing |
| `BankService.Bank.DebitAndRecordPending` | crates/digicash-bank/src/bank.rs:457-498 | debits and records together or neither, with every error case |
| `BankService.Bank.CompensateDebit` | crates/digicash-bank/src/bank.rs:501-522 | credits and marks together, without regard to the record's state |
| `BankService.Bank.FinalizeWithdraw` | crates/digicash-bank/src/bank.rs:419-453 | signs and completes, or compensates |
| `BankService.Bank.ResumeWithdraw` | crates/digicash-bank/src/bank.rs:378-415 | continues a recorded withdrawal from its state; a signed one gives its signature and is completed, one without signature is malformed, a compensated one has failed |
| `BankService.Bank.WithdrawCoin` | crates/digicash-bank/src/bank.rs:353-376 | performs the whole withdrawal call, whose answers `FirstCallDecided` and `RecordedCallDecided` decide |
| `BankService.Bank.RecoverWithdrawals` | crates/digicash-bank/src/bank.rs:120-164 | one pass over the unfinished rows in the order given; on well-formed tables it leaves none unfinished if and only if every pending denomination is served and every account has room for its refunds |
| `BankService.Bank.CommitDeposit` | crates/digicash-bank/src/bank.rs:611-673 | the deposit transaction with its early rollbacks and unique keys |
| `BankService.Bank.DepositCoin` | crates/digicash-bank/src/bank.rs:566-609 | the checks in order, the registry's veto, then by the state before the call: the same coin under a known id is accepted again, another coin is an id reuse, a spent coin a double spend, a missing account is refused, and otherwise the coin is credited unless it does not fit; nothing else changes the tables |
| `BankRuns.RunInv` | crates/digicash-bank/src/bank.rs:353-673 | the invariant of every run: balances in range, records agreeing with the signer, requests in flight agreeing with their records, counts of debits and refunds, replies, and the two deposit indexes |
| `BankLedger.RunAccounted` | crates/digicash-bank/src/bank.rs:457-522 | unconditionally, for every group of accounts: balances = openings - debits + all refunds ever paid + deposits |
| `BankLedger.LedgerExactly` | crates/digicash-bank/src/bank.rs:501-522 | the ledger equation holds in a reachable state if and only if no withdrawal of positive value was refunded twice |
| `BankLedger.LedgerStepExactly` | crates/digicash-bank/src/bank.rs:501-522 | from a reachable state in which the equation holds, a step breaks it if and only if it compensates, for a positive served amount that fits, a withdrawal of the group that is already compensated |
| `BankLedger.LedgerRunExactly` | crates/digicash-bank/src/bank.rs:353-522 | over every run, with no assumption, the equation holds at the end if and only if no step of the run was such a second refund |
| `BankLedger.LedgerEquation` | crates/digicash-bank/src/bank.rs:353-522 | over every run without two requests about to compensate the same withdrawal, any group of accounts holds openings - pending, signed and completed withdrawals + deposits |
| `BankLedger.RaceBreaksLedger` | crates/digicash-bank/src/bank.rs:444-451 | from any state where two requests are about to compensate one withdrawal and the credits fit, letting both proceed breaks the equation |
| `BankLedger.RaceIsReachable` | crates/digicash-bank/src/bank.rs:398-410 | a run with a retry that reaches such a state and breaks the equation |
| `BankProperties.WithdrawalIdempotent` | crates/digicash-bank/src/bank.rs:353-498 | over every run all successful replies to a request id carry the one signature of the persisted blinded message, and such an id was debited once and never refunded |
| `BankProperties.AtMostOneDebit` | crates/digicash-bank/src/bank.rs:457-498 | over every run an id is debited exactly once if it has a record and never otherwise |
| `BankProperties.FirstCallDecided` | crates/digicash-bank/src/bank.rs:353-376 | for a new id: a signature if and only if the denomination is served, the account can pay and the message can be signed; an unsignable one costs nothing and is recorded as compensated; an unpayable one says why and changes nothing |
| `BankProperties.RecordedCallDecided` | crates/digicash-bank/src/bank.rs:378-453 | for an id with a record each answer is equivalent to a condition on the record, the served denominations and the signer, and fixes the new tables |
| `BankProperties.RetryDecidedByHistory` | crates/digicash-bank/src/bank.rs:347-415 | in every reachable state a retry of an id answered before gets the same signature and moves no balance, and gets the earlier failure if and only if the id was refunded |
| `BankProperties.WithdrawIsRun` | crates/digicash-bank/src/bank.rs:353-453 | the uninterrupted call reaches the tables of its transactions taken one by one, and answers with a signature if and only if they log that reply |
| `BankProperties.RecoveryIsRun` | crates/digicash-bank/src/bank.rs:141-162 | each committed step of recovery is a step of the runs, and a finished record gives it nothing to do |
| `BankProperties.RestartRecovers` | crates/digicash-bank/src/bank.rs:95-164 | from every reachable state, a crash and the recovery that follows are a run that ends with nothing in flight, and with everything finished if and only if it can be |
| `BankProperties.CrashLeavesWellFormed` | crates/digicash-bank/src/bank.rs:116-119 | what any crash leaves behind satisfies the premises of recovery |
| `BankProperties.UniqueCredit` | crates/digicash-bank/src/bank.rs:641-672 | over every run no coin and no request id is credited twice, stale lookups included |
| `BankProperties.SpentMatchesDeposits` | crates/digicash-bank/src/bank.rs:641-670 | over every run spent serials and deposits correspond one to one by coin and request id |
| `BankProperties.DepositDecidedByHistory` | crates/digicash-bank/src/bank.rs:619-662 | replay, reuse, double spend, unknown account and acceptance are each equivalent to a condition on the history of credits and openings (and room in the account), and nothing but an acceptance changes the tables |
| `BankProperties.DepositedIsSpent` | crates/digicash-bank/src/bank.rs:641-670 | what the accounts were credited for deposits is the face value of the spent coins |
| `BankProperties.DepositsNeverExceedIssued` | crates/digicash-bank/src/bank.rs:566-673 | over every run with unforgeable coins, deposits never exceed the value of issued withdrawals |
| `BankProperties.Solvency` | crates/digicash-bank/src/bank.rs:566-673 | over every such run without a second refund, balances together with pending withdrawals never exceed opening credits |
| `Recovery.InterruptedRecoveryConverges` | crates/digicash-bank/src/bank.rs:120-164 | recovery interrupted after any committed steps and re-run over its rows in any order reaches the same tables as one uninterrupted pass: every record final, every refund paid, none pending or signed |
| `Recovery.RecoveryIdempotent` | crates/digicash-bank/src/bank.rs:141-162 | recovering finished tables changes nothing |
| `Recovery.RecoveryCompletesExactly` | crates/digicash-bank/src/bank.rs:116-119 | a pass leaves nothing pending or signed if and only if every pending denomination is served and every account has room for all its refunds |
| `Recovery.EachRecordRecovers` | crates/digicash-bank/src/bank.rs:141-162 | a pass finishes each record whose denomination is served and whose message signs or whose account has room for its refunds, whatever becomes of the other records |
| `Recovery.PendingCanStrand` | crates/digicash-bank/src/bank.rs:426-429 | a record that every pass leaves pending |
| `MultiBank.KeyOfInjective` | crates/digicash-bank/src/registry_client.rs:75-83 | distinct coins have distinct registry keys |
| `MultiBank.RegistryRefines` | crates/digicash-bank/src/bank.rs:582-599 | the registry's part of any run of the system is a run of the registry |
| `MultiBank.BankRefines` | crates/digicash-bank/src/bank.rs:566-673 | each bank's part of any run of the system is a run of that bank, so all that holds of bank runs holds of it |
| `MultiBank.CreditedAtMostOnce` | crates/digicash-bank/src/bank.rs:582-673 | over every run of any number of banks a coin is credited at most once in all, and only by the bank the registry accepted it from |
| `MultiBank.CommitCreditsExactly` | crates/digicash-bank/src/bank.rs:600-673 | in every reachable state, committing an accepted deposit credits the coin if and only if the account exists, the credit and the denomination fit and the request id is new; otherwise, and only then, the coin is stranded |
| `MultiBank.StepStrandsExactly` | crates/digicash-bank/src/bank.rs:582-609 | for every step from a reachable state: a coin becomes stranded if and only if the step is an acceptance that is not delivered, a commit the bank refuses, or an error or crash of the bank holding its acceptance |
| `MultiBank.RunStrandsExactly` | crates/digicash-bank/src/bank.rs:582-609 | over every run a coin ends stranded if and only if it began so or some step of the run is of that kind |
| `MultiBank.StrandedForever` | crates/digicash-bank/src/bank.rs:590-599 | a stranded coin is never credited by any bank in any continuation |
| `MultiBank.DepositsAreLost` | crates/digicash-bank/src/bank.rs:586-609 | from every reachable state, an acceptance followed by a lost reply or a crash strands the coin, and one followed by the commit strands it if and only if the bank refuses |
| `MultiBank.MistypedAccountStrands` | crates/digicash-bank/src/bank.rs:651-662 | from the initial system, the first deposit of any coin to an account that does not exist ends with the coin stranded |
| `MultiBank.RetryNotReplayed` | crates/digicash-proto/src/messages.rs:35-36 | with a registry, no submission of a credited coin is accepted again under any request id |
| `MultiBank.ReceivedSplits` | crates/digicash-bank/src/bank.rs:582-673 | each serial the registry took from a bank is credited by it, in flight to it or stranded, and only one of these |
| `MultiBank.StrandedKeysAre` | crates/digicash-bank/src/bank.rs:582-673 | the serials neither credited nor in flight are exactly those of the stranded coins |
| `MultiBank.ValueConserved` | crates/digicash-bank/src/bank.rs:582-673 | over every run and for every bank: the value the registry accepted from it equals what its accounts were credited for deposits plus deposits in flight plus stranded coins, and its receivables and claims, netted, equal that sum less what was accepted against it |

## Left out
- RSA blind signatures, Ed25519 and SHA-256: the signer, the verifier and the digest are parameters.
- Isolation anomalies of the database other than the stale request-id lookup: transactions are atomic, including the registry's cap and settlement reads, which take no lock.
- Identity and member registration, admin checks, listings, balances, published keys: single-branch facts with nothing to prove across them.
- TLS, HTTP routing and clients, connection pools, migrations, key files, configuration, JSON and sled encodings: plumbing.
- The wallet's withdraw, deposit and register calls: sequences of remote calls whose effects are the bank's, modelled there.
- A bundle file cut short by a failing write, and a store that cannot be read: the error leaves the coins where they are.
- Wall-clock time: every operation takes the time as a parameter.
- Recovery rows are read again at their turn instead of from the snapshot of the query; nothing else runs during recovery, so the two agree.
