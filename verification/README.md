# A verified model of the double-entry ledger

This project models a double-entry ledger service: transactions of balanced entries in PostgreSQL,
idempotency keys and cached balances in Redis, and any number of HTTP requests working on both at
once. The Dafny files beside this one state what the service promises and prove it of the model.
`dafny verify dfyconfig.toml` checks everything.

## How it is organised

| file | what it holds |
|---|---|
| `Prelude.dfy` | options, results, sums over sequences |
| `Ledger.dfy` | rows of the ledger, the balance query, balances as signed folds |
| `Fx.dfy` | USD conversion: a 28-digit decimal product, half-up rounding, BIGINT storage |
| `Rates.dfy` | exchange rates by date |
| `Posting.dfy` | what creating and voiding validate, compute and write |
| `Trigger.dfy` | the deferred balance trigger, for sessions that may bypass the service |
| `Books.dfy` | the invariant of the committed tables, and what each kind of commit does to it |
| `Protocol.dfy` | concurrent database sessions as a state machine over arbitrary event sequences |
| `TrialBalance.dfy`, `Reversals.dfy` | what follows for balances and for chains of reversals |
| `Paging.dfy` | the order of the transaction list and its pages |
| `Guarantees.dfy` | what holds in every state any interleaving of sessions reaches |
| `Provenance.dfy` | every committed transaction traced back to the payload and the rate it was built from |
| `Idempotency.dfy` | concurrent requests against one key store, one Redis command at a time |
| `BalanceCache.dfy` | readers and writers of cached balances, one command at a time |
| `System.dfy` | sessions, keys and cached balances at once, over one ledger |
| `Witnesses.dfy` | runs in which the code does not do what its documentation says |
| `Service.dfy` | a database session as a class, and the two service functions as methods on it |
| `Redis.dfy` | the Redis client as a class, each of whose commands may fail |
| `Dependency.dfy` | the idempotency dependency as methods, each a run of the protocol in `Idempotency.dfy` |
| `Routes.dfy` | the request handlers as methods, over the classes above |

Three state machines carry the concurrency: `Protocol` (database sessions: READ COMMITTED reads,
private writes, a status update that waits for a row lock and tests its predicate again),
`Idempotency` and `BalanceCache`. Each is a total function `Step` over events, an event whose guard
fails leaves the state as it is, and a theorem about "every run" quantifies over every sequence of
events. `System` runs the three together: a commit is a commit for all of them, each part is shown to run as
the machine it is, and what holds of keys and cache is carried over to rows of the one ledger. `Reversals` adds
a refinement: the balance query over posted and voided rows computes an abstract ledger in which a void switches
the root of its chain on or off.

The imperative layer (`Service`, `Redis`, `Dependency`, `Routes`) runs the same code step by step over
classes and is proved equal to the functions of the pure layer; the key handling of a POST is proved to
be a run of the `Idempotency` machine by that request alone, so what holds of all runs holds of it.

Every lemma carries `{:induction false}`: no proof rests on automatic induction, and inductions are written out.

## Where the code and its documentation disagree

The model follows the code.

- ARCHITECTURE.md:719-723 says that cached balances are always correct, with no race window. A reader that reads
  the database before a commit and sets its value after that commit's invalidation leaves a wrong value behind
  (`BalanceCache.LateSetLeavesStale`; `Witnesses.HitIsWrong` is a run that ends one hundred off). Exactly, an
  invalidated value is current if and only if the commits between its read and its set cancel out
  (`BalanceCache.WindowDecides`).
- app/dependencies/idempotency.py:132-134 deletes the key on any exception inside the request, also on one raised
  after `db.commit()` (app/api/v1/routes/transactions.py:95), say from storing the response. A retry then
  posts a second time (`Idempotency.LateRaiseAdmitsDuplicate`; `Witnesses.KeyPostsTwice` is such a run). The number
  of commits per key is counted exactly in `Idempotency.CommitsAreLateRaises`, and in rows of the ledger in
  `System.RowsPerKey`.
- app/services/transaction_service.py:41 describes a rate lookup by exact date; the query takes the latest rate on or
  before it.
- The trigger keeps its sums in BIGINT variables. A create whose entries all fit, but one side's total does
  not, passes the service and is refused at commit, and only such a create is (`Posting.CreatedIsSound`,
  `Guarantees.TriggerRefusesOnlyOverflow`; `Witnesses.AcceptableMayOverflow` is such a payload and
  `Witnesses.TriggerRefusesAcceptable` such a run).
- `currency_code` decides the conversion alone; nothing ties it to the entries' currency.
- No code produces a PENDING transaction: it is in the datatype and shown unreachable
  (`Guarantees.VoidedIffReversedOnce`).

## Assumptions

- Redis commands and database statements are atomic. A scan of an account's keys is one command and the
  deletion of the keys found another. A failing command was not sent, was carried out without its reply, or was denied
  by the server; only the first two are the connection errors and timeouts that the handlers catch.
- A request's two currency lookups and its rate lookup see one snapshot. That loses nothing, since currencies are
  only added: `Rates.StepsSeeOneSnapshot`.
- UUIDs are never drawn twice; SHA-256 is injective on request bodies.
- A response body is the rendering of the committed transaction, and is taken to be that transaction.
- An idempotency key may expire at any time; `Idempotency.Timely`, a hypothesis of the theorems that need it,
  says that it does not expire while its request is still running.
- A process that dies inside the request, a cancellation, or a handler whose delete fails, leaves the key as it
  is (`Crash`).
- Times are integers, dates are day numbers, UUIDs are numbers ordered as the database orders them.
- A NUMERIC(18,8) rate may have rounded to zero; nothing in the schema forbids it.

## Model

| member | source | states |
|---|---|---|
| `Ledger.QueryIsSignedFold` | app/repositories/account_repository.py:67-96 | the two coalesced CASE sums over joined POSTED and VOIDED rows equal one signed fold over the transactions |
| `Ledger.CommitOrderIrrelevant` | docs/adr/002-concurrency-strategy.md:50-57 | any two commit orders of the same transactions give every account the same balance on every date |
| `Ledger.BalancesTelescope` | app/repositories/account_repository.py:88-90 | the balance at d2 is that at d1 plus the signed sum of the entries dated in (d1, d2] |
| `Ledger.EffectIsLocal` | app/repositories/account_repository.py:88-91 | a transaction changes balances only of its own accounts and only from its date on |
| `Fx.HalfUpIsNearest` | app/services/transaction_service.py:77 | quantizing half up gives the nearest integer, the upper one on a tie |
| `Fx.NearestIsUnique` | app/services/transaction_service.py:77 | there is only one such integer, so the definition of nearest fixes the stored value |
| `Fx.QuantizeExactly` | app/services/transaction_service.py:77 | the code's quantize is that integer if it has at most 28 digits, and raises if it has more |
| `Fx.RoundHalfEvenIsNearest` | app/services/transaction_service.py:77 | the context itself rounds a long product to the nearest multiple of its last place, ties to even |
| `Fx.MultiplyKeepsMagnitude` | app/services/transaction_service.py:77 | the 28-digit context keeps products below 10^28 exact and never rounds a longer one below 10^28 |
| `Fx.StoredIsExact` | app/services/transaction_service.py:75-78 | the code's conversion fits BIGINT if and only if the exact half-up value does, and then they are equal |
| `Fx.UsdIdentity` | app/models/entry.py:64 | an amount in the base currency is stored unchanged |
| `Fx.PerEntryRoundingBound` | tests/test_balance_invariant_hypothesis.py:323-337 | for n >= 1 amounts, converting each differs from converting the sum by at most n div 2, half of what the test allows |
| `Fx.PerEntryBoundIsAttained` | tests/test_balance_invariant_hypothesis.py:323-337 | that bound is reached for every n |
| `Fx.UsdImbalanceBound` | app/services/transaction_service.py:165-181 | a balanced list of N entries converted at one rate is off by strictly less than N/2 cents, and by nothing for N = 2 |
| `Rates.FindExchangeRate` | app/repositories/currency_repository.py:103-119 | what is found is a latest row on or before the date, and nothing is found only if there is no such row |
| `Rates.ResolvedRowIsTheLatest` | app/models/exchange_rate.py:19-26 | under the uniqueness constraint a row is resolved if and only if it is the latest match, whatever the table's order |
| `Rates.SaveKeepsTable` | app/repositories/currency_repository.py:92-101 | saving a rate, or refusing a duplicate, keeps the uniqueness constraint |
| `Rates.InsertChangesResolution` | app/repositories/currency_repository.py:103-119 | a saved rate changes what a date resolves to exactly when it matches and is later than the row resolved before |
| `Rates.LaterRatesLeavePast` | app/repositories/currency_repository.py:111-117 | no sequence of rates dated after d changes the rate of d |
| `Rates.FindByCode` | app/repositories/currency_repository.py:68-70 | what is found is a row of the table with the code, and nothing is found only if no row has it |
| `Rates.ResolvedExactly` | app/services/transaction_service.py:51-72 | a currency other than the base resolves to a rate if and only if it is that of the latest row, on or before the date, from the currency row with that code to the one with code USD |
| `Rates.UnresolvedExactly` | app/services/transaction_service.py:48-70 | USD resolves to one; another code fails exactly with the first thing missing: the currency, the base, or a rate on or before the date |
| `Rates.SaveRefusesDuplicates` | app/repositories/currency_repository.py:92-101 | a rate is refused exactly if the table has one of the same pair and date, and else added |
| `Rates.StepsSeeOneSnapshot` | app/services/transaction_service.py:51-63 | the three statements of the lookup, with rows added in between, resolve what one snapshot at one of them would |
| `Posting.CheckEntriesExactly` | app/services/transaction_service.py:94-147 | the chain of checks passes exactly when all accounts are active, every entry's currency is its account's and all are equal, both directions occur and the sums agree |
| `Posting.FirstFailureIsTold` | app/services/transaction_service.py:94-147 | of the checks that fail the first is told, with what it found: the accounts that are missing or inactive, the entries out of their account's currency, or the two sums |
| `Posting.CreateAcceptsExactly` | app/services/transaction_service.py:94-186 | a payload is posted if and only if it is acceptable, and the entries are stored pairwise with their own exact conversions |
| `Posting.CreateConvertsAtLatestRate` | app/services/transaction_service.py:162-181 | USD entries are stored with their own amounts; others with the amount times the latest rate, on or before the date, from the currency with the payload's code to USD, to the nearest cent |
| `Posting.BuildFailsExactly` | app/services/transaction_service.py:165-186 | past the checks, a build fails exactly if some conversion has over 28 digits or some amount or value does not fit BIGINT |
| `Posting.CreatedIsSound` | app/services/transaction_service.py:152-186 | what is built balances; the commit-time trigger lets it pass if and only if the debit total fits a BIGINT |
| `Posting.FlipNegates` | app/services/transaction_service.py:247-260 | flipped entries negate the effect on every account and the USD net, touch the same accounts, and flip back to the original |
| `Posting.ReversalIsSound` | app/services/transaction_service.py:240-262 | the reversal of a stored transaction satisfies all that is demanded of stored entries, the trigger included |
| `Posting.StoredUsdImbalance` | app/services/transaction_service.py:165-181 | a stored transaction balances in its currency and is off by less than half its entries in USD cents |
| `Trigger.CheckSeesOwnNet` | alembic/versions/20260623_1400_dba49c02eafb_add_balance_check_constraint_trigger.py:27-39 | against a balanced snapshot a check passes exactly when the session's own rows balance and the sums fit |
| `Trigger.PassedSessionIsBalanced` | alembic/versions/20260623_1400_dba49c02eafb_add_balance_check_constraint_trigger.py:47-51 | a session all of whose row checks passed has zero net in every transaction, those it did not create included |
| `Trigger.CommittedIsBalanced` | alembic/versions/20260623_1400_dba49c02eafb_add_balance_check_constraint_trigger.py:20-52 | in every committed state of every interleaving, with every check on its own earlier snapshot, every transaction balances |
| `Trigger.CheckDecidesOwnRows` | alembic/versions/20260623_1400_dba49c02eafb_add_balance_check_constraint_trigger.py:27-39 | in every reachable state, a check passes if and only if the own rows balance and the sums fit BIGINT |
| `Trigger.InsertsAreDecided` | app/models/entry.py:34-55 | a row whose amount is positive and fits BIGINT joins its session's rows; any other rolls the session back |
| `Trigger.SessionsAreDecided` | alembic/versions/20260623_1400_dba49c02eafb_add_balance_check_constraint_trigger.py:34-51 | in every reachable state a check that fires lets its session go on or rolls it back by just that condition, and a session whose checks have all fired publishes all its rows |
| `Trigger.ServiceCheck` | alembic/versions/20260623_1400_dba49c02eafb_add_balance_check_constraint_trigger.py:27-39 | on a transaction only the service writes to, the check is the predicate the service's commits are modelled with |
| `Books.CommitCreateKeepsInv` | app/services/transaction_service.py:183-202 | committing a create keeps sound rows, unique ids, linked reversals, statuses and the audit trail |
| `Books.CommitVoidKeepsInv` | app/services/transaction_service.py:228-292 | committing a void keeps the same invariant |
| `Books.CommitAddsEffect` | app/repositories/account_repository.py:67-96 | a commit changes a balance by its new transaction's effect, so the status update alone changes none |
| `Books.ReplayRebuildsStatuses` | app/services/transaction_service.py:264-291 | folding the audit rows of a ledger rebuilds its ids, each with the status its reversal links imply |
| `Books.AuditIsPaired` | app/services/transaction_service.py:264-291 | each void row stands after the creation row of its reversal, and the two name each other |
| `Books.AuditTells` | app/services/transaction_service.py:188-291 | each audit row tells of a committed transaction's creation, or of its void with what it was before and the reversal's id after |
| `Protocol.StepKeepsInv` | app/services/transaction_service.py:205-292 | every step of every session keeps the invariant of tables, sessions, row locks and ids |
| `Protocol.RunKeepsInv` | app/services/transaction_service.py:81-292 | every interleaving reaches only states with that invariant |
| `Protocol.ReversedPassesTrigger` | alembic/versions/20260623_1400_dba49c02eafb_add_balance_check_constraint_trigger.py:27-39 | a session that voids passes the trigger although it read the original before its compare-and-swap |
| `Guarantees.VoidedIffReversedOnce` | app/repositories/transaction_repository.py:82-91 | a transaction is never PENDING, and is VOIDED if and only if a committed reversal names it, and never two do |
| `Guarantees.ReversalsMirror` | app/services/transaction_service.py:239-262 | a reversal comes after its original, on its date, entry by entry with the same account, amount, currency and USD value on the other side, and together they net to zero USD |
| `Guarantees.CreatesAreChecked` | app/services/transaction_service.py:94-147 | in every reachable state a create passes its checks exactly if its entries are postable, and is told the first failing check otherwise |
| `Guarantees.CreatesAreBuilt` | app/services/transaction_service.py:152-186 | in every reachable state a checked create is built, entry by entry from its payload, exactly if a rate resolves and every entry fits, and is refused otherwise |
| `Guarantees.VoidsAreLoaded` | app/services/transaction_service.py:217-219 | in every reachable state a void loads the row with its id, and is not found exactly if there is none |
| `Guarantees.VoidsAreReversed` | app/services/transaction_service.py:239-262 | in every reachable state a void that has marked its row builds the posted reversal: described as such, on the row's date, naming it, with its entries on the other side |
| `Guarantees.VoidedIsTerminal` | docs/adr/005-transaction-status-lifecycle.md:28-44 | whatever happens next, committed transactions stay, change only from POSTED to VOIDED, and stay VOIDED |
| `Guarantees.AtMostOneVoidSucceeds` | app/repositories/transaction_repository.py:82-91 | of all sessions voiding one transaction at most one is told it succeeded |
| `Guarantees.ConflictMeansVoided` | app/services/transaction_service.py:231-233 | in every run a void is told of a conflict only if its transaction is VOIDED in the committed tables |
| `Guarantees.VoidIsDecidedByItsRow` | app/repositories/transaction_repository.py:82-91 | in every reachable state the compare-and-swap conflicts if and only if the row is VOIDED, and otherwise waits if and only if another session holds the row's lock |
| `Guarantees.BlockedVoid` | app/services/transaction_service.py:228-233 | while a session holds the row's lock, from its mark on, other voids of the row wait; if it aborts the next one goes ahead |
| `Guarantees.BlockedVoidConflicts` | app/services/transaction_service.py:228-233 | once a void has committed, every other void of the row conflicts, whatever steps come in between |
| `Guarantees.TriggerRefusesOnlyOverflow` | docs/adr/007-deferred-balance-constraint-trigger.md:20-30 | the trigger refuses a create exactly when its total overflows BIGINT, and never a void |
| `Guarantees.AuditReplays` | app/repositories/audit_repository.py:46-64 | in every reachable state the audit rows replay to exactly the committed ids and statuses, and void and creation rows pair up |
| `Guarantees.BalancesAreSwitched` | app/repositories/account_repository.py:67-96 | in every reachable state every balance is that of the ledger in which voids switch roots on and off |
| `Guarantees.TrialBalanceHolds` | app/services/transaction_service.py:136-147 | in every reachable state, for every currency and date, the balances of the currency's accounts sum to zero |
| `Guarantees.StepsRefine` | app/services/transaction_service.py:231-262 | every step of every run posts in the abstract ledger, toggles the root of the row it voids, or leaves it alone |
| `Provenance.RootsAreAsBuilt` | app/services/transaction_service.py:152-186 | in every run each committed transaction that reverses nothing is, but for its status, what the service built at some earlier step from its session's payload at the rate resolved then |
| `Provenance.CommittedConversions` | app/models/entry.py:61-66 | every committed USD value, reversals included, is the exact conversion of its amount at the rate resolved for the transaction's date and its root's currency code; the transaction balances and keeps the imbalance bound |
| `Provenance.RateAtIsTheLatest` | app/services/transaction_service.py:48-72 | the rate of a build is one for USD, and else the latest, on or before the payload's date, in the state of the build |
| `Provenance.AuditNamesItsUser` | app/repositories/audit_repository.py:46-64 | in every run each audit row was written by the commit of a session, names the user that began it, and tells of a transaction it committed |
| `Guarantees.PagesTileTheLedger` | app/repositories/transaction_repository.py:58-70 | in every reachable state, pages within their limits to the end show each transaction once: by date descending, on one date by posting time descending with missing ones first, then by id ascending |
| `TrialBalance.BalancesSumToZero` | app/services/transaction_service.py:136-147 | for sound rows over unique accounts the balances of each currency cancel on each date |
| `Reversals.ChainsEndInRoots` | app/services/transaction_service.py:240-246 | following reversal links ends in a transaction that reverses nothing |
| `Reversals.ChainsAreLinear` | app/services/transaction_service.py:228-246 | below a root there is at most one transaction at each depth |
| `Reversals.EntriesByDepth` | app/services/transaction_service.py:247-260 | at even depth a chain repeats its root's entries, at odd depth it flips them, on the root's date |
| `Reversals.OneTipPerChain` | app/services/transaction_service.py:228-233 | two transactions of one chain are never both still voidable |
| `Reversals.TipDecides` | app/services/transaction_service.py:205-292 | the root is on if and only if the chain's tip lies at even depth |
| `Reversals.ParityDecides` | app/services/transaction_service.py:205-292 | an even number of reversals restores a transaction and an odd number erases it |
| `Reversals.BalanceIsSwitched` | app/repositories/account_repository.py:67-96 | the query over all POSTED and VOIDED rows equals the abstract ledger's balance |
| `Reversals.CommitsRefine` | app/services/transaction_service.py:231-262 | a committed create posts in the abstract ledger, a committed void toggles the root of what it voids |
| `Paging.BeforeIsTotal` | app/repositories/transaction_repository.py:62-66 | the listing's order is a strict total order on rows with different ids |
| `Paging.OrderedIsNewestFirst` | app/repositories/transaction_repository.py:62-66 | a list is in that order if and only if dates descend, on one date posting times descend with missing ones first, and at one time ids ascend |
| `Paging.ListingIsUnique` | app/repositories/transaction_repository.py:62-66 | a table has at most one arrangement in that order |
| `Paging.ListingExists` | app/repositories/transaction_repository.py:62-66 | and it has one |
| `Paging.PageIsDetermined` | app/repositories/transaction_repository.py:58-70 | a page is one the database may return if and only if it is that slice of the listing |
| `Paging.PageShows` | app/repositories/transaction_repository.py:67-68 | a page has the rows from its offset on, as many as its limit allows and the table holds, newest first |
| `Paging.PagesJoin` | app/repositories/transaction_repository.py:67-68 | consecutive pages of any limits join to a prefix of the listing |
| `Paging.PagesTile` | app/repositories/transaction_repository.py:67-68 | paging to the end shows every row exactly once |
| `Idempotency.ArrivalIsDecided` | app/dependencies/idempotency.py:81-123 | without a key, or with a free one, a request runs, and a free key is marked pending with its fingerprint; a taken key is left alone: 422 to other bytes, a replay if it has a response, 409 if it has none or holds no JSON |
| `Idempotency.RequestsEnd` | app/dependencies/idempotency.py:125-134 | a request may finish once its response is stored, may die leaving every key, and may raise; an expiry frees its key and no other |
| `Idempotency.KeyHasOneOwner` | app/dependencies/idempotency.py:89-134 | in every reachable state a key has one writer, running or dead, whose fingerprint and progress it shows, and no other live request has that key |
| `Idempotency.OnlyOwnerTouchesKey` | app/dependencies/idempotency.py:125-134 | a held key changes only by expiring or by its owner's cache or exception; a free one only by a claim for that key |
| `Idempotency.CommitsAreLateRaises` | app/dependencies/idempotency.py:89-134 | since a key last expired, its commits number its exceptions after a commit, plus one if its present holder has committed |
| `Idempotency.AtMostOneCommit` | app/dependencies/idempotency.py:89-134 | without an exception after a commit at most one transaction is committed per key between expiries; and exactly when there is at most one |
| `Idempotency.EveryCommitIsAccounted` | app/dependencies/idempotency.py:89-134 | over a whole run the transactions recorded under a key number its late exceptions, its expiries after use, and one for a holder that committed |
| `Idempotency.LateRaiseAdmitsDuplicate` | app/dependencies/idempotency.py:132-134 | from any reachable state, an exception after a commit lets a retry with the same key commit again |
| `Idempotency.UntimelyExpiryAdmitsDuplicate` | app/dependencies/idempotency.py:89-92 | from any reachable state, a key expiring under its running owner lets two requests commit |
| `Idempotency.EarlyRaiseFreesKey` | app/dependencies/idempotency.py:130-134 | in every run an owner that raises before its commit leaves the key free and nothing committed; a retry then runs, and its commit is the first counted under the key but for late exceptions |
| `Idempotency.OtherRaisesKeepKeys` | app/dependencies/idempotency.py:94-123 | an exception in a request that replays or was rejected leaves every key as it was |
| `Idempotency.ReplaysAreCommitted` | app/dependencies/idempotency.py:116-118 | in every run, a replayed body is that of a committed transaction with the same key and the same request bytes |
| `Idempotency.OtherFingerprintIsRefused` | app/dependencies/idempotency.py:109-118 | a request that lost the key gets 422 if and only if its bytes differ from the owner's, and a replay if and only if they agree and the response is stored |
| `Idempotency.CompletedKeyStays` | app/dependencies/idempotency.py:57-65 | a key that holds a response keeps it until it expires or its owner raises after caching |
| `BalanceCache.CachedValuesAreAccounted` | app/api/v1/routes/accounts.py:70-101 | every cached value is the balance at a committed prefix, and each later commit to the account awaits its invalidation or was made and scanned between the value's read and its set |
| `BalanceCache.StalenessIsUnseenCommits` | app/api/v1/routes/accounts.py:77-85 | at any time a cached value differs from the query by exactly what the commits since its read add |
| `BalanceCache.WindowDecides` | app/api/v1/routes/transactions.py:95-97 | once an account is invalidated, its cached value is off by exactly what the commits between its read and its set add: it is current if and only if they cancel out |
| `BalanceCache.GetIsDecided` | app/api/v1/routes/accounts.py:70-81 | a get is served exactly if Redis answers and the entry is there and unexpired |
| `BalanceCache.SetIsDecided` | app/api/v1/routes/accounts.py:89-103 | a set that reaches Redis keeps the reader's answer for a day if its date is past and for a minute if not, and any set serves it |
| `BalanceCache.HitsAreBoundedlyStale` | app/api/v1/routes/accounts.py:89-99 | whatever fails, a hit counts every commit older than the TTL it was set with (a day for past dates, else a minute) plus its reader's read-to-set time |
| `BalanceCache.UnovertakenHitsAreExact` | app/api/v1/routes/transactions.py:96-97 | a schedule with an empty window: if no commit to an account falls between a read of it and its set, every hit after the invalidations equals the query |
| `BalanceCache.LateSetLeavesStale` | ARCHITECTURE.md:719-723 | from every reachable state, a read before and a set after a commit and its full invalidation leave a value wrong by the commit's effect |
| `BalanceCache.RunKeepsInv` | app/api/v1/routes/transactions.py:48-64 | every interleaving keeps the record of who has read, committed, scanned and deleted what |
| `System.PartsAreRuns` | app/api/v1/routes/transactions.py:77-102 | with sessions, keys and cache together, each part runs as its own machine, so all theorems about runs of the parts hold |
| `System.RunAgrees` | app/api/v1/routes/transactions.py:92-100 | in every run the cache has the sessions' ledger, and the transactions recorded under the keys are exactly the ledger's rows that reverse nothing, in commit order |
| `System.ReadySessionsCommit` | app/api/v1/routes/transactions.py:92-119 | in every run a built create whose request is in its try and whose total fits commits, and is recorded under the request's key; a void that has reversed commits |
| `System.RowsPerKey` | app/dependencies/idempotency.py:89-134 | the ledger rows committed under a key since it last expired number its exceptions after a commit, plus one if its holder has committed: without such an exception at most one |
| `System.ReplaysAreRows` | app/dependencies/idempotency.py:116-118 | in every run a replayed body is a row of the ledger, as committed, made by a request with the same key and bytes |
| `System.HitsAgainstTheLedger` | app/api/v1/routes/accounts.py:77-85 | in every run an invalidated value is off from the sessions' ledger by what the commits between its read and its set add |
| `Witnesses.AcceptableMayOverflow` | app/services/transaction_service.py:139-147 | two debits and two credits of the largest BIGINT in USD are an acceptable payload whose total does not fit |
| `Witnesses.TriggerRefusesAcceptable` | alembic/versions/20260623_1400_dba49c02eafb_add_balance_check_constraint_trigger.py:24-39 | a run in which the service builds that transaction and the commit rolls it back |
| `Witnesses.KeyPostsTwice` | app/dependencies/idempotency.py:132-134 | a timely run in which a request raises after its commit and a retry with its key commits again |
| `Witnesses.HitIsWrong` | ARCHITECTURE.md:719-723 | a run that leaves a live cached balance one hundred off with nothing left to invalidate |
| `Service.Session.Save` | app/repositories/transaction_repository.py:42-56 | sets every entry's foreign key in place and adds the transaction with exactly the given entries, or fails exactly when a value does not fit its column |
| `Service.Session.Log` | app/repositories/audit_repository.py:46-64 | appends one audit row to the session's pending writes and changes nothing else |
| `Service.Session.MarkVoidedIfPosted` | app/repositories/transaction_repository.py:82-91 | succeeds if and only if the session sees the row as POSTED, and then marks that row alone |
| `Service.Session.Commit` | app/db/session.py:48-56 | publishes all pending writes if and only if the trigger passes every inserted transaction, and nothing otherwise |
| `Service.CreateTransaction` | app/services/transaction_service.py:81-202 | the steps over a session return what the pure service function returns and leave exactly its writes pending |
| `Service.VoidTransaction` | app/services/transaction_service.py:205-292 | missing, not POSTED, or the mark, the mirrored reversal and both audit rows pending |
| `Service.SavedRows` | app/repositories/transaction_repository.py:46-56 | rows saved under a new id are found by that id, and no other transaction's entries change |
| `Dependency.Enter` | app/dependencies/idempotency.py:81-128 | whatever Redis commands fail, entering is a run of the key protocol by this request that ends as the result says; if none fails, it yields, replays or refuses by the key as it was found, and yields without a key |
| `Dependency.CacheResponse` | app/dependencies/idempotency.py:57-65 | caching is the protocol's cache step, or nothing when the command fails unsent |
| `Dependency.OnException` | app/dependencies/idempotency.py:130-134 | the handler is the protocol's raise, or a crash when the delete is not carried out |
| `Dependency.RanIsReachable` | app/dependencies/idempotency.py:68-134 | what a request does from a reachable protocol state is itself a run of the protocol, so all theorems about runs hold of it |
| `Routes.InvalidateBalanceCache` | app/api/v1/routes/transactions.py:48-64 | deletes all balance keys of some of the accounts and no others, and of all of them if Redis does not fail; raises only what is not a connection error |
| `Routes.FindAccount` | app/repositories/account_repository.py:49-50 | what is found is a row of the table with the id, and nothing is found only if no row has it |
| `Routes.GetAccountBalance` | app/api/v1/routes/accounts.py:62-103 | 404 only if no account has the id; else an unexpired entry or the query's answer in the account's own currency; without failures the entry if unexpired, and if not the query's answer, kept for a day if the date is past and for a minute if not |
| `Routes.CreateAndCommit` | app/db/session.py:48-56 | the transaction is in the ledger with its audit row if and only if the service made it and the trigger lets it; otherwise nothing is |
| `Routes.PostTransaction` | app/api/v1/routes/transactions.py:77-102 | the whole POST is a run of the key protocol whose response tells what is committed, stored and invalidated; without failures of Redis a request without a key or with a free one answers 201 exactly if what it creates goes in, and a taken key answers by its content |
| `Routes.VoidIsAnswered` | app/services/transaction_service.py:217-233 | a void answers 404 exactly if no row has the id, 409 exactly if the row is not POSTED, and else voids it |
| `Routes.VoidTransactionEndpoint` | app/api/v1/routes/transactions.py:105-128 | the handler answers 404 exactly if no row has the id and 409 exactly if the row is not POSTED; it commits the void or nothing, invalidates the original's accounts, and fails after the commit only if the invalidation raises |
| `Routes.PostKeepsBooks` | app/api/v1/routes/transactions.py:92-95 | a POST with a new id keeps every invariant of the committed tables |
| `Routes.VoidKeepsBooks` | app/api/v1/routes/transactions.py:114-119 | a void of a POSTED transaction always goes through and keeps every invariant of the committed tables |
| `Routes.InvalidatedAccounts` | app/api/v1/routes/transactions.py:96-123 | the accounts invalidated are those of the transaction committed: the payload's for a create, the original's for a reversal |
| `Routes.InvalidationIsRun` | app/api/v1/routes/transactions.py:51-59 | whatever accounts the loop gets to, in whatever order, it leaves the cache as scans and deletes of the request's writer in the cache machine do |
| `Routes.BalanceRequestIsRun` | app/api/v1/routes/accounts.py:70-103 | whatever the handler may answer and leave cached, steps of one reader of the cache machine do too |

## Left out

- HTTP, dependency wiring, request parsing and JSON encoding: payloads arrive shaped (at least two entries, positive amounts).
- Authentication, roles and users: a user is an opaque id in an audit row.
- Account, currency and rate administration beyond what posting reads: rows are added, and accounts activated or deactivated, by single events.
- Listing audit logs and exchange rates: simple filters.
- Logging, metrics, tracing, deployment, the seed script, and every migration but the trigger.
- The database's own failures (a commit whose outcome is unknown, serialization errors): a session commits, is refused by the trigger, or aborts.
- A write that the trigger's BIGINT variables refuse is modelled; an overflow of the SUM itself is not.
- `description`, `metadata` other than `reversal_of`, and `created_at` play no part in any property.
- The account read and the balance query of a cache miss are one step of the cache machine: an account's currency never changes.
- SCAN as one command: its cursor may, under concurrent writes, miss keys set while it runs.
- Service.Session.MarkVoidedIfPosted: sees no other session's pending update and takes no lock; `Protocol.dfy` has the row lock and the wait, on values, and `Guarantees.VoidIsDecidedByItsRow` the outcome.
- Service.VoidTransaction: runs without other sessions between its read and its compare-and-swap; `Protocol.dfy` has those interleavings, on values.
- Routes.PostTransaction: one request at a time over the shared objects; concurrent requests are the runs of `System.dfy`.
- Routes.VoidTransactionEndpoint: one request at a time over the shared objects; concurrent requests are the runs of `System.dfy`.
