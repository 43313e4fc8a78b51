# Verified model of the cloistr address service

This project models the transactional core of the service in Dafny and proves what its
transactions keep, over whole runs and over interleavings.

- **Address registry** (`AddressTables`, `Registry`, `RegistryEffects`, `RegistryFlags`,
  `LockOut`, `Ownership`, `AddressStore`, `Backfill`, `EnsureRace`, `NamePrice`). Register,
  grant, transfer, revoke, set-primary and set-NIP-05 rewrite the rows of `addresses`, two
  flags per pubkey, and the intervals of `address_ownership`, under three unique indexes.
  `Registry` gives each transaction in closed form and `RegistryEffects` says row by row
  what that does; the class `AddressStore.Store` runs them statement by statement, with
  every index checked and a rollback on error, and is proved equal to the closed form.
- **Money** (`Ledger`, `Webhook`, `SerialDelivery`, `Purchase`, `Handlers`). The credit
  ledger, the pay-then-register race of settled invoices under faults and redeliveries,
  and the purchase's deduct, register and refund saga, whose every store call may fail
  without effect or commit with its reply lost.
- **Quota** (`Quota`, `Tenancy`, `Settlement`, `GrantRace`). Clamped usage counters, limits
  pooled over a tenant, admission, the grant loop of product invoices, and its races.
- **Two bounded loops** (`InvoiceClient`, `HexCodec`).

How the database is modelled: a row's position stands for its SERIAL id; a transaction
either commits or leaves the tables as they were, and its caller may not hear of the
commit (`StoreFaults`); of rows created at the same instant a promotion may pick any;
NOW() is an integer that never goes back within a serial run. Where calls race, every
read is a step of its own and only insert-and-commit is atomic, guarded by the unique
indexes.

Where the code and its comments differ, or a property one would expect fails, the model
follows the code and the exact condition is proved:

- A revocation leaves the flags on the deactivated row, and the indexes ignore `active`.
  So the promotion the comment promises always collides: revoking a flagged address fails
  unless it is its owner's last active one (`RevokeNeverPromotes`, `RevokeOfPrimaryFails`).
  An owner whose last address was revoked can be registered, granted or transferred no
  other exactly as long as the revoked row is not transferred away
  (`LockedOutUntilMovedAway`, `LockOutEndsIff`).
- A transfer of a pubkey's only active address to that same pubkey strips its flags. It is
  the one step that breaks the flag invariant (`StepKeepsFlagInvariantIff`), and the
  backfill of the next start repairs it (`BackfillRepairsSelfTransfer`).
- "Name or credit, never both" fails for an invoice delivered again after it bought its
  name (`RedeliveryCreditsIff`) and for one whose registration committed unheard, and for
  no other (`BothOnlyIfRedeliveredOrUnheard`, `NameAndCreditIff`).
- The webhook's credit goes to the right payer, in the right amount, unless somebody wrote
  under its reasons and that invoice's id for another payer or amount, which the admin
  grant permits (`RightAfterIff`, `AcknowledgedIsSettled`, `MisfiledGrantSwallowsCredit`).
- A purchase takes exactly the credits it reports and registers exactly when it says so,
  unless a deduction or a registration commits unheard or a due refund does not happen
  (`PurchaseConservesIff` and the three lemmas after it).
- A refund of exactly 2^31 sats does not fit the history column although the deduction did
  (`RefundUndoesDeduction`).
- A race loss returns the invoice, not the credits applied to the price beforehand
  (`RaceLossMakesWholeIff`).
- Two purchases priced before either is registered can both be free (`TwoFreeNamesIff`).
- A product with several quota types whose grant was cut short is never completed
  (`RedeliveryCompletesIff`, `HalfGrantedForGood`), and concurrent settlements that check
  before either inserts grant twice (`EachPassGrants`).
- Nothing keeps a pubkey out of a second tenant, through which it can overrun the pool of
  the first (`AdmissionIsSafeIff`, `SingleTenantThroughoutIff`).

## Model

| member | source | states |
|---|---|---|
| `Registry.ClaimGuardIsIndexes` | internal/storage/postgres.go:786-812 | the insert of a registration, after its demotion, is accepted by all three unique indexes exactly when the name is in no row, active or not, and no surviving flag of the claimant is in the way; the demotion itself never is refused |
| `RegistryEffects.RegisterEffect` | internal/storage/postgres.go:719-835 | exactly when a registration commits, is refused as taken, or fails; the new row field by field, with both flags exactly for a claimant without claimed address, whose active auto-assigned rows lose theirs; its open interval; nothing else, and nothing at all unless it commits |
| `RegistryEffects.GrantEffect` | internal/storage/admin.go:140-222 | the same for a grant: reserved names too, not marked auto-assigned, both flags exactly for a first active address, every other row as it was |
| `RegistryEffects.SetFlagEffect` | internal/storage/admin.go:411-519 | it commits exactly for an active address of that pubkey; then that row alone of the pubkey carries the flag, and no other flag, field, row or interval changes |
| `RegistryEffects.RollbackLeavesTables` | internal/storage/admin.go:228-233 | a transaction that does not commit leaves the tables as they were |
| `RegistryFlags.RegisterCommitsIff` | internal/storage/postgres.go:719-835 | a registration commits exactly for an unreserved name no row ever held, by a claimant that is not auto-assigning over an active address and, when it has no active address, keeps no flag on a revoked row |
| `RegistryFlags.FirstRealNameTakesOver` | internal/storage/postgres.go:752-817 | the first claimed name of a pubkey with only auto-assigned addresses becomes its sole flagged row, those stay active as aliases, and nobody else's row changes |
| `RegistryFlags.ClaimKeepsCovered` | internal/storage/postgres.go:752-805 | registering or granting leaves every pubkey with an active address an active primary and an active NIP-05 row, also when the first real name takes over from the auto-assigned one |
| `RegistryFlags.TransferRows` | internal/storage/postgres.go:634-658 | a committed transfer changes the owner of one row only, gives it both flags exactly when the target had no active address, and hands each flag it carried to the oldest row left behind |
| `RegistryFlags.TransferKeepsIndexes` | internal/storage/admin.go:337-358 | the promotions after a transfer never leave a pubkey two primary or two NIP-05 rows |
| `RegistryFlags.TransferKeepsCoveredIff` | internal/storage/admin.go:324-358 | a transfer keeps every active pubkey flagged if and only if it does not move a pubkey's only active address to itself |
| `RegistryFlags.RevokeKeepsFlagInvariant` | internal/storage/admin.go:228-294 | a revocation, committed or not, keeps the flag invariant |
| `RegistryFlags.SetFlagKeepsFlagInvariant` | internal/storage/admin.go:414-519 | moving the primary or NIP-05 flag keeps the flag invariant for both flags |
| `RegistryFlags.StepKeepsFlagInvariantIff` | db/migrations/005_up.sql:26-30 | for every transaction: the flag invariant survives it if and only if it is not the committed self-transfer of a last active address |
| `RegistryFlags.FlagsHoldInEveryRun` | db/test_schema.sql:34-39 | over every serial run without such a self-transfer, no pubkey has two flagged rows counting inactive ones, and each pubkey with an active address has an active primary and an active NIP-05 row |
| `RegistryFlags.ExactlyOneFlagged` | internal/storage/postgres.go:174-196 | under the invariant an active pubkey has exactly one row per flag, and that row is active |
| `RegistryFlags.RevokeNeverPromotes` | internal/storage/admin.go:224-278 | a revocation commits exactly when the row carries no flag or is its owner's last active one, and then changes nothing but that row's `active` |
| `RegistryFlags.RevokeOfPrimaryFails` | internal/storage/admin.go:255-266 | for any pubkey and two names: after two grants, revoking the primary address fails and changes nothing |
| `RegistryFlags.GrantCommitsIff` | internal/storage/admin.go:154-190 | a grant commits exactly for a name no row ever held, reserved or not, and a pubkey that has an active address or keeps no flag on a revoked row |
| `RegistryFlags.TransferCommitsIff` | internal/storage/admin.go:324-343 | a transfer of an existing row commits exactly if the target has an active address or keeps no flag on another row |
| `LockOut.RevocationLocksOut` | internal/storage/admin.go:238-242 | a committed revocation of a flagged active address leaves its pubkey without active address, both flags on the revoked row |
| `LockOut.LockedOutGetsNothing` | db/migrations/005_up.sql:26-30 | no registration for, grant to, or transfer to a locked out pubkey commits |
| `LockOut.LockOutEndsIff` | internal/storage/admin.go:324-335 | a transaction ends the lock-out if and only if it transfers the revoked row to somebody else, after which every unused name can be granted |
| `LockOut.LockedOutUntilMovedAway` | internal/storage/admin.go:238-242 | over every run, a pubkey is locked out throughout, and given nothing, if and only if no transaction moves the revoked row away |
| `Ownership.StepKeepsHistory` | internal/storage/postgres.go:1258-1281 | every transaction keeps the intervals of each name disjoint and ordered, at most the last one open, owned by the name's row, and every active row with an open one |
| `Ownership.HistoryHoldsInEveryRun` | internal/storage/postgres.go:660-666 | that invariant over every serial run with non-decreasing times, transfers of inactive rows included |
| `Ownership.InsertTracks` | internal/storage/postgres.go:1258-1268 | opening the interval of a new name makes its owner the answer for that name from then on, and changes no other answer |
| `Ownership.ClosedTracks` | internal/storage/postgres.go:1270-1281 | closing the open intervals of a row's name and owner removes the answer for that name from now on, and no other |
| `Ownership.StepTracksOwner` | internal/storage/admin.go:360-366 | a transaction changes the answer to "who owned the name at T" for exactly its own name, exactly from its own time on, to exactly its new owner |
| `Ownership.IntervalsAgreeWithReplay` | internal/storage/admin.go:926-933 | for every serial run, name, pubkey and T, the audit search's interval test holds exactly for the owner found by replaying the commits dated up to T |
| `Ownership.AnyDomainSearchAgreesWithReplay` | internal/storage/admin.go:925-933 | the search without a domain matches exactly if the subject held the username in some domain at that time |
| `Ownership.AtMostOneIntervalCovers` | db/migrations/005_up.sql:42-53 | at most one interval of a name contains T |
| `Ownership.ActiveRowIsOwned` | internal/storage/postgres.go:814-817 | from the last commit on, the replayed owner of an active row's name is the row's pubkey |
| `AddressStore.Store.Promote` | internal/storage/postgres.go:1228-1256 | an oldest other active row gains the flag exactly if no index objects, else nothing changes; without another active row nothing changes and nothing fails |
| `AddressStore.HeirIsAccepted` | internal/storage/postgres.go:648-658 | after the row has left, the promotion picks what it would have picked before and never conflicts |
| `AddressStore.Store.AtomicRegisterAddress` | internal/storage/postgres.go:719-835 | the statements compute the closed form of registration, outcome and tables, from every state the indexes allow |
| `AddressStore.Store.AdminGrantAddress` | internal/storage/admin.go:140-222 | the same for a grant, and for RegisterAddress, whose statements are these |
| `AddressStore.Store.TransferAddress` | internal/storage/postgres.go:588-669 | the same for a transfer by row id, with picks the database could make |
| `AddressStore.Store.AdminTransferAddress` | internal/storage/admin.go:299-382 | the same for a transfer by name, which fails for a name no row holds |
| `AddressStore.Store.AdminRevokeAddress` | internal/storage/admin.go:228-294 | the update, the attempted promotions and the rollback amount to the closed form of revocation |
| `AddressStore.Store.SetAddressFlag` | internal/storage/admin.go:411-519 | unset-then-set computes the closed form for an active address of that pubkey and fails otherwise; that form's effect is `RegistryEffects.SetFlagEffect` |
| `AddressStore.Store.GetPrimaryAddressByPubkey` | internal/storage/postgres.go:174-196 | returns an active primary row of the pubkey, or None only if there is none |
| `AddressStore.Store.EnsureAutoAddress` | internal/storage/postgres.go:859-877 | registers the candidate only for a pubkey without active address, and reports the new row exactly if that committed |
| `AddressStore.Store.EnsurePrimaryAddress` | internal/api/ensure_address.go:39-57 | it makes an address exactly for a pubkey without active address or flagged revoked row and a candidate unreserved and never held, namely that pubkey's flagged auto row, says `created` exactly then, changes nothing otherwise, and returns the primary whenever the pubkey ends up active |
| `EnsureRace.InvariantHolds` | internal/api/ensure_address.go:43-45 | in every reachable state of the race the pubkey has at most one row, and exactly one call made it if there is one |
| `EnsureRace.EnsureConverges` | internal/api/ensure_address.go:46-57 | any interleaving of any number of ensures for a fresh pubkey, among other requests, ends with one active primary row that every call returned and exactly one call reported creating |
| `EnsureRace.CallAdvances` | internal/storage/postgres.go:766-772 | no call waits for another: each unfinished one has a next step, and each of its steps brings it closer to an answer |
| `EnsureRace.SerialEnsureIsTrail` | internal/api/ensure_address.go:46-57 | the call by itself, to the same tables, address and `created`, is a course the steps of the race can take |
| `Backfill.Rerun` | db/migrations/005_up.sql:32-69 | the three statements compute the closed form of the backfill, and the indexes accept both updates |
| `Backfill.RerunIsNoOp` | db/migrations/005_up.sql:5-8 | on every state reached by a serial run without a last-address self-transfer, a rerun changes nothing |
| `Backfill.FillCoversIff` | db/migrations/005_up.sql:34-40 | an update gives a pubkey its active flagged row exactly when no inactive row of it masks the flag |
| `Backfill.BackfilledRows` | db/migrations/005_up.sql:32-40 | a flag none of a pubkey's rows carries goes to its active row of least id, and nothing else in the rows changes |
| `Backfill.BackfilledHistory` | db/migrations/005_up.sql:59-69 | after the old history, exactly one open interval from its creation on for each active row that had none, and no other |
| `Backfill.BackfillOpensEveryActive` | db/migrations/005_up.sql:59-69 | afterwards every active row has an open interval, from any state |
| `Backfill.BackfillEstablishesIff` | db/migrations/005_up.sql:32-40 | from any state the indexes allow, the backfill establishes the flag invariant if and only if no inactive row masks a flag of an active pubkey |
| `Backfill.BackfillRepairsSelfTransfer` | db/migrations/005_up.sql:32-33 | it restores the invariant after the one step that breaks it |
| `NamePrice.PriceDependsOnClaims` | internal/api/nameprice.go:34-47 | of the registry only whether the buyer has claimed an address matters, and that only for a name free by length; else the buyer pays the anonymous quote, the tier's price |
| `NamePrice.PriceInNumbers` | internal/api/nameprice.go:48-101 | a name of nonzero tier price costs that price; a free one costs 0, or with a claimed address the catalog's price, or 1000 where the catalog has no row |
| `NamePrice.FailuresNeverChangePrice` | internal/api/nameprice.go:44-101 | whichever of the lookups and the count fail, the answer is the true price or none, and none exactly if one it depends on failed |
| `NamePrice.FreeExactlyWhen` | internal/api/nameprice.go:48-81 | with a nonzero additional price a purchase is free exactly for a name of price 0 by length and a buyer holding no active claimed name, and the buyer then holds one |
| `NamePrice.OneFreeName` | internal/api/nameprice.go:34-47 | over every serial run, a pubkey none of whose addresses is transferred away or revoked gets at most one free name |
| `NamePrice.TwoFreeNamesIff` | internal/api/purchase.go:186-240 | with pricing and registering as steps of their own, two names are both free if and only if the later was priced before the earlier was registered, with no claimed address held at either pricing |
| `NamePrice.ApplyKeepsReal` | internal/storage/postgres.go:376-392 | a claimed active address survives every transaction but an outgoing transfer or a revocation |
| `Ledger.ApplyKeepsSound` | internal/storage/postgres.go:896-1084 | every ledger transaction keeps each balance equal to the sum of its history and non-negative, every withdrawal's pubkey a balance row, and invoice credits unique |
| `Ledger.LedgerBalancesInEveryRun` | db/migrations/002_up.sql:7-25 | the same over every run, aborts for the 32-bit history column and the CHECK included |
| `Ledger.RefundBalancesIff` | internal/storage/postgres.go:1163-1180 | a withdrawal refund leaves the books balanced if and only if the pubkey has a balance row |
| `Ledger.RefundUndoesDeduction` | internal/api/purchase.go:479-491 | refunding a committed deduction restores every balance, and commits exactly for amounts below 2^31 |
| `Ledger.AddCreditsEffect` | internal/storage/postgres.go:897-930 | exactly when credits are added; then one balance rises by the amount and one history row says so |
| `Ledger.CreditOnceEffect` | internal/storage/postgres.go:939-986 | exactly when the webhook's credit is given, reported as given before, or fails, and what it moves and records |
| `Ledger.DeductEffect` | internal/storage/postgres.go:988-1030 | refused exactly where the balance falls short, committed exactly up to 2^31 sats; then one balance falls by the amount and one history row says so |
| `Ledger.WithdrawEffect` | internal/storage/postgres.go:1032-1084 | exactly when a withdrawal commits; then its pubkey's balance alone falls by the amount, which is put on file and recorded |
| `Ledger.RefundEffect` | internal/storage/postgres.go:1145-1187 | exactly when a refund commits; then its pubkey's balance alone rises by the withdrawal's amount, which is recorded |
| `Ledger.RefundWithoutBalanceRow` | internal/storage/postgres.go:1163-1180 | without a balance row a refund is recorded and moves no balance |
| `Ledger.RefundUndoesWithdrawal` | internal/storage/postgres.go:1032-1187 | refunding a committed withdrawal restores every balance, and commits exactly for amounts below 2^31 |
| `Ledger.CreditStore.AddCredits` | internal/storage/postgres.go:897-930 | upsert, history row and rollback compute the closed form |
| `Ledger.CreditStore.AddInvoiceCreditOnce` | internal/storage/postgres.go:939-986 | credits exactly if no row of that invoice exists under the webhook's reasons, else changes nothing |
| `Ledger.CreditStore.DeductCredits` | internal/storage/postgres.go:988-1030 | deducts exactly what the balance covers, aborts both writes if the history row does not fit, does nothing for 0 |
| `Ledger.CreditStore.CreateWithdrawalRequest` | internal/storage/postgres.go:1032-1084 | deduction, withdrawal row and history row together or not at all |
| `Ledger.CreditStore.RefundFailedWithdrawal` | internal/storage/postgres.go:1145-1187 | credits the withdrawal's pubkey if it has a balance row and records the refund in either case; the closed form's effect is `Ledger.RefundEffect` |
| `Webhook.InvariantHolds` | internal/api/webhook.go:108-187 | the invariant of all interleavings of deliveries, redeliveries, faults, lost commit replies and everything else the service does to registry and ledger |
| `Webhook.FirstPaymentWins` | internal/api/webhook.go:122-123 | two deliveries that registered have different names, so one name is registered by at most one delivery |
| `Webhook.OneCreditPerInvoice` | db/migrations/012_up.sql:15-17 | whatever else is written, an invoice has at most one credit row, and at most one delivery credited it |
| `Webhook.RightAfterIff` | internal/api/admin.go:641-659 | a ledger write that takes effect leaves an invoice's credit rows the payer's and of its amount if and only if it is not misfiled under that invoice |
| `Webhook.CreditsRightIff` | internal/storage/postgres.go:936-986 | over every run, an invoice's credit rows are right if and only if no such write was misfiled so far |
| `Webhook.AcknowledgedIsSettled` | internal/api/webhook.go:108-119 | every delivery acknowledged with 200 for a positive amount has registered its payer or reports a credit, which is the payer's and of exactly that amount if and only if nothing was misfiled under the invoice |
| `Webhook.MisfiledGrantSwallowsCredit` | internal/api/admin.go:641-659 | after a misfiled admin grant every delivery of that invoice is acknowledged as credited and moves no balance |
| `Webhook.BothOnlyIfRedeliveredOrUnheard` | internal/api/webhook.go:124-167 | over every run, an invoice that bought its name and was credited by a delivery was delivered twice or lost the reply of its registration |
| `Webhook.NameAndCreditIff` | internal/api/webhook.go:124-141 | an invoice delivered once, which bought its name and was acknowledged, is credited too if and only if the reply of its registration was lost |
| `SerialDelivery.SerialDeliveryIsRun` | internal/api/webhook.go:101-187 | the closed form of one delivery alone, faults and lost replies included, is a run of the interleaved system |
| `SerialDelivery.DeliveryRegistersIff` | internal/api/webhook.go:122-141 | for every state and fault, a delivery inserts the payer's active row exactly if the name is the payer's to have and the call takes effect, and changes no table of the registry otherwise |
| `SerialDelivery.DeliveryCreditsIff` | internal/api/webhook.go:124-168 | a payer not told of a registration is credited exactly the amount, under race_loss or registration_error as the cause was, unless the call has no effect or the ledger cannot take it or has it already; no other balance moves |
| `SerialDelivery.DeliveryAnswersIff` | internal/api/webhook.go:101-187 | 200 as registered, 200 as credited, 200 with nothing owed or 500, each in exactly its case |
| `SerialDelivery.FirstPayerIsRegistered` | internal/api/webhook.go:122-187 | without faults the first payer of an obtainable name is registered and not credited |
| `SerialDelivery.RedeliveryCreditsIff` | internal/api/webhook.go:143-167 | after a delivery answered as registered, a redelivery moves no row and credits the whole amount exactly if its call takes effect, the ledger can take the amount and it was not credited before; later ones change nothing |
| `Handlers.Desk.HandleSettledInvoice` | internal/api/webhook.go:101-187 | one delivery alone computes the closed form `SettleTx`: lookup, registration, credit, 200 or 500, under every placement of faults; that form's exact effect on rows, balances and reply is in the three `SerialDelivery` lemmas named Delivery |
| `Handlers.Desk.RegisterAtOnce` | internal/api/purchase.go:214-290 | deduct, register and refund compute the closed form whose exact effect is `Purchase.AtOnceEffect` |
| `Handlers.Desk.IssueInvoice` | internal/api/purchase.go:292-355 | deduct, invoice and refund compute the closed form whose exact effect is `Purchase.InvoiceEffect` |
| `Handlers.Desk.CreatePurchaseInvoice` | internal/api/purchase.go:186-389 | a purchase that succeeds costs, credits and invoice together, exactly the name's price in numbers; it conserves if and only if no placement of faults breaks it; pricing that fails changes nothing; and the statements compute the closed form |
| `Handlers.RaceLossMakesWholeIff` | internal/api/webhook.go:120-161 | a buyer who pays the invoice and loses the race gets back the invoice alone, and is made whole if and only if no credits had been deducted, reported or not |
| `Purchase.DeductMoves` | internal/storage/postgres.go:988-1030 | a deduction moves the buyer's balance alone, exactly if it took effect, and is reported exactly if its reply arrives |
| `Purchase.RefundMoves` | internal/api/purchase.go:472-491 | a refund gives back the amount exactly if it takes effect and is below 2^31, and logs a debt unless it is confirmed |
| `Purchase.AtOnceEffect` | internal/api/purchase.go:214-290 | the exact effect on ledger, registry, reply and log of a purchase covered by credits or free, for every placement of faults |
| `Purchase.InvoiceEffect` | internal/api/purchase.go:292-355 | the same for a purchase that is invoiced; credits reported plus amount invoiced equal the price |
| `Purchase.PurchaseEffect` | internal/api/purchase.go:197-389 | the same for every purchase: what was taken from and given back to the buyer alone, and whether the name is registered |
| `Purchase.PurchaseConservesIff` | internal/api/purchase.go:197-355 | the buyer is out exactly the credits reported, and has the name exactly if told so, if and only if no deduction or registration commits unheard and every due refund happens |
| `Purchase.PurchaseOnRecord` | internal/api/purchase.go:214-355 | the history gains exactly the deduction if it took effect and the refund if it did, each with its own reason and the name |
| `Purchase.RejectionBlames` | internal/api/purchase.go:219-355 | 400 exactly for a short balance, 409 for a taken name, 503 for BTCPay or Lightning being away, else 500 |
| `Purchase.CreditsGoFirst` | internal/api/purchase.go:197-212 | with the balance as read, credits pay the whole price or are used up, whichever is less |
| `Purchase.NoCreditsUnasked` | internal/api/purchase.go:197-212 | a purchase that does not ask for credits or could not read them uses none |
| `Purchase.UnheardDeductionIsForfeited` | internal/api/purchase.go:303-312 | a deduction that commits unheard is lost to the buyer, with no name and, where the price was not covered, an invoice for all of it |
| `Purchase.UnheardRegistrationIsFree` | internal/api/purchase.go:239-250 | a registration that commits unheard is answered 500 and refunded, and the buyer keeps the name |
| `Purchase.FailedRefundIsOwed` | internal/api/purchase.go:479-491 | a due refund that does not happen leaves the buyer out exactly the credits, and logged as owed |
| `Purchase.LoggedDebtIsRealIff` | internal/api/purchase.go:472-491 | the log never hides a debt, and overstates it exactly if the refund's own reply is lost |
| `Purchase.PriceIsSplit` | internal/api/purchase.go:197-212 | a successful purchase covers the price with credits and invoice, neither negative, with no more credits than were read |
| `Quota.ClampedClosedForm` | internal/storage/quota_usage.go:45-57 | however deltas to many components interleave, a component holds its total minus its least prefix sum |
| `Quota.ClampedBounds` | internal/storage/quota_usage.go:45-49 | a component is non-negative, never below the unclamped total, and equal to it exactly when no prefix dips below zero |
| `Quota.RecordUsed` | internal/storage/quota_usage.go:50-62 | recording a delta moves a sum of usage by the clamped change exactly if the component counts in it |
| `Quota.NamedTierOnlyByClaim` | db/migrations/007_up.sql:55-79 | registering moves the base limit of a pubkey without override to the named default exactly if the name was claimed, never by an auto-assigned one |
| `Quota.IndividualInNumbers` | db/migrations/007_up.sql:54-102 | an override is the limit whatever was claimed, an unknown type is unlimited, the named default holds exactly with an active claimed address, unexpired grants add to any limit but 0, and `remaining` is what is left, never negative |
| `Tenancy.PoolIsSumOverMembers` | db/migrations/010_up.sql:98-129 | every answer whose lookup finds the tenant is the tenant's limit plus the members' unexpired grants, against the sum of what each member uses |
| `Tenancy.OwnIsIndividual` | db/migrations/010_up.sql:130-178 | a pubkey in no tenant, or whose tenant has no quota row, gets the answer of migration 007 |
| `Tenancy.JoiningPool` | internal/storage/tenant.go:73-101 | a pubkey joining a tenant adds exactly its usage and grants to the pool, whatever other tenants it is in, and leaving restores the tables |
| `Tenancy.OthersUnaffected` | internal/storage/tenant.go:73-112 | a join or leave changes no other pubkey's lookup and no answer but that tenant's |
| `Tenancy.RemovedFallsBackIff` | internal/storage/tenant.go:103-112 | a removed pubkey gets its individual answer, whatever the lookup finds, if and only if no other tenant of it has a quota for the type |
| `Tenancy.SettingQuota` | internal/storage/tenant.go:138-150 | setting a tenant's quota sets the limit of exactly the answers that find the tenant, and moves no usage |
| `Tenancy.CheckAgreesWithRemainingIff` | db/migrations/007_up.sql:105-117 | check_quota agrees with `remaining` except for an unlimited quota asked for more and an overdrawn one asked for nothing |
| `Tenancy.ExclusivePoolIff` | db/migrations/010_up.sql:92-96 | a pool's members can only be checked against it if and only if none of them is in another tenant |
| `Tenancy.AdmitKeepsWithin` | db/migrations/007_up.sql:106-117 | a checked addition or a release by anyone keeps such a pool, or a lone pubkey, within its limit |
| `Tenancy.PoolsNeverExceed` | db/migrations/010_up.sql:98-129 | the same over every run mixing members, outsiders, services and releases |
| `Tenancy.ElsewhereCheckedOverruns` | db/migrations/010_up.sql:35-42 | from a member that is checked against another scope: limits and one admitted addition that overrun its pool |
| `Tenancy.AdmissionIsSafeIff` | db/migrations/010_up.sql:92-129 | checked additions keep a scope within its limit, whatever the limits, usage and grants, if and only if its members can only be checked against it |
| `Tenancy.ChangeKeepsSingleIff` | internal/api/tenant.go:18-73 | a join keeps every pubkey in at most one tenant if and only if the pubkey is in no other one |
| `Tenancy.SingleTenantThroughoutIff` | internal/storage/tenant.go:76-112 | over every run of joins and leaves, no pubkey is ever in two tenants if and only if every join is of a pubkey in no other tenant at that time |
| `Tenancy.SingleTenantIsSafe` | db/migrations/010_up.sql:92-129 | then the lookup has one answer and every scope is safe |
| `Settlement.MintedOrderComesBack` | internal/api/settlement.go:57-71 | an invoice minted by either purchase handler settles as the very order it was minted for, with its kind or without, whatever else its metadata carries |
| `Settlement.OrderIsInMetadata` | internal/api/webhook.go:56-107 | what is settled, and for whom, is what the metadata names, and of the kind it names |
| `Settlement.QuotaStore.AddTenantMember` | internal/storage/tenant.go:73-101 | fails exactly for an unknown tenant; a new member adds exactly its own usage to the pool, a present one nothing |
| `Settlement.QuotaStore.RemoveTenantMember` | internal/storage/tenant.go:103-112 | a member leaving takes exactly its own usage out of the pool |
| `Settlement.QuotaStore.SetTenantQuota` | internal/storage/tenant.go:138-150 | fails exactly for an unknown tenant; else every answer that finds the tenant has the new limit plus grants, and no other answer changes |
| `Quota.RecordComponent` | internal/storage/quota_usage.go:50-62 | recording a delta sets one component to its clamped sum and leaves every other as it was |
| `Settlement.QuotaStore.SettleProduct` | internal/api/settlement.go:90-148 | whatever the order of the map and whichever insert fails or goes unheard, the delivery inserts one grant per non-reserved type it got to, and reports "granted" exactly for all of them |
| `Settlement.QuotaStore.GrantTypes` | internal/api/settlement.go:123-137 | the loop inserts each non-reserved type once, stopping at the first failure |
| `Settlement.GrantsStayTidy` | internal/api/settlement.go:90-102 | over any series of deliveries an invoice has each type at most once, never the reserved key, and one expiry |
| `Settlement.GrantedIsComplete` | internal/api/settlement.go:123-147 | a "granted" outcome means exactly the product's non-reserved types were inserted, with their bytes and expiry |
| `Settlement.GrantedRaisesQuota` | internal/api/settlement.go:73-88 | a granted invoice adds each of its types to the buyer's unexpired grants exactly once, until the window ends |
| `Settlement.FaultlessOutcome` | internal/api/settlement.go:90-148 | a fault free delivery acknowledges exactly an invoice granted before, grants exactly a product with a real quota and no window or a positive one, and errs on any other |
| `Settlement.FailedLookupOutcome` | internal/api/settlement.go:95-98 | a failed lookup of earlier grants changes nothing and errs |
| `Settlement.RedeliveryCompletesIff` | internal/storage/postgres.go:457-468 | a fault free delivery grants everything if and only if no earlier one inserted anything |
| `Settlement.HalfGrantedForGood` | internal/api/settlement.go:95-103 | a two-type product cut short after one insert, and a retry acknowledged as already applied |
| `Settlement.SingleTypeAllOrNothing` | internal/api/settlement.go:123-134 | for a single-type product an attempt grants once or changes nothing, and one that errs has granted exactly if the reply of its insert was lost |
| `Settlement.SingleTypeExactlyOne` | internal/api/settlement.go:90-103 | for single-type products there is never a second grant, and exactly one as soon as a delivery is acknowledged or granted unheard |
| `GrantRace.PassesIff` | internal/storage/postgres.go:457-468 | of concurrent settlements of one invoice, one passes the check exactly if none that passed has begun to insert |
| `GrantRace.EachPassGrants` | internal/api/settlement.go:90-137 | once all are through, each type is granted as often as settlements passed, and more than once if and only if two of their checks overlapped |
| `InvoiceClient.CreateInvoice` | internal/btcpay/client.go:226-299 | for every server the call ends within the budget after at most three attempts, retries only after the transient failure and with a whole attempt left, and concludes as the last attempt says |
| `InvoiceClient.AtMostOneInvoice` | internal/btcpay/client.go:170-183 | if the transient 400 mints nothing, at most one invoice exists afterwards, exactly one on success, none if Lightning stayed unavailable |
| `InvoiceClient.TransientTroubleIsSurvived` | internal/btcpay/client.go:190-299 | one or two transient failures before a success end in the invoice, made by the attempt that succeeds, as long as a whole attempt fits each time |
| `InvoiceClient.TransientIff` | internal/btcpay/client.go:190-196 | transient are exactly the answers of status 400 with one of the two phrases anywhere in the body |
| `InvoiceClient.AttemptIsWholeIff` | internal/btcpay/client.go:276-296 | a retry has its whole attempt timeout if and only if the timer before it fires within the slack left, which is never negative |
| `InvoiceClient.ProductionAttempts` | internal/btcpay/client.go:156-168 | with production timeouts an attempt has its full seven seconds exactly if it begins within eight, which a timer on time ensures |
| `HexCodec.HexDecode` | internal/crypto/aes.go:106-131 | the loops compute the decoding without a byte overflowing, and fail exactly on odd length or a non-hex character |
| `HexCodec.HexEncode` | internal/crypto/aes.go:142-151 | the loop computes the encoding, which decodes back to the data |
| `HexCodec.DecodeOfEncode` | internal/crypto/aes.go:106-151 | decoding an encoding gives the data back, for every length |
| `HexCodec.EncodeOfDecode` | internal/crypto/aes.go:106-151 | encoding a decoding gives the string lower-cased, for every valid string |
| `HexCodec.SameBytesIff` | internal/crypto/aes.go:117-127 | two valid strings decode alike exactly when they differ at most in case |
| `HexCodec.NewEncryptor` | internal/crypto/aes.go:26-43 | a key is accepted exactly when it is 64 hex characters |

## Left out

- HTTP routing, request binding, authentication, logging, metrics and the command-line tools.
- Signature checks, AES-GCM, secp256k1 and the hash chain of the audit log; the audit row a transaction writes is not modelled, its failure is a rollback like any other.
- LNURL, NWC and the e-mail domain proxy.
- Lightning configuration: copying it to an alias never changes the tables modelled here.
- `username.Generate`, `IsValidHumanName`, `get_username_price` and the products catalog are parameters; the availability check before pricing is left out because the registration checks again.
- The CHECK on `quota_grants.source` in migration 006 does not list the source `purchase` that settlement writes; the constraint is not part of this model.
- BIGINT overflow of usage counters and quota sums; the ledger's INTEGER and BIGINT columns are modelled.
- `get_user_tier`, withdrawal statuses (a refund reads none), and the audit search's other filters.
- Calendar arithmetic: the grant window adds whole days to a day count.
- Amounts of invoices arrive already truncated to whole sats.
- Product settlement as a step of the interleaved webhook system; `Settlement` studies its serial deliveries and `GrantRace` its concurrent ones, these without faults.
- EnsureRace.EnsureConverges: names generated for the pubkey are taken not to be reserved and not to be claimed by others meanwhile, and database faults are not among the steps.
- Creating tenants, which ones exist being a set here, and quotas changing while usage is admitted.
- InvoiceClient.CreateInvoice: a context expiring is taken to end the call at that very moment.
