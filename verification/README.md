# Proofs about the platform's stateful core

This project models the parts of the payment platform whose guarantees are about
whole runs or all interleavings, and proves them. `dafny verify dfyconfig.toml`
checks everything.

## What is modelled

| file | Go source | content |
|---|---|---|
| Common.dfy | (all) | int64 wrap-around, weighted sums over sequences and maps |
| Rbac.dfy | libs/auth/rbac.go | permission closure over a role graph with cycles and dangling names |
| Bulkhead.dfy | libs/resilience/bulkhead.go | admission through a channel semaphore and a bounded wait queue, as interleaved steps of any number of calls |
| TokenBucket.dfy, SlidingWindow.dfy | libs/middleware/ratelimit.go | the two keyed limiters with background cleanup |
| ApiKey.dfy | libs/auth/apikey.go | key validation and its fixed-window limiter |
| Ledger.dfy, TrialBalance.dfy, LedgerService.dfy | services/ledger/services/ledger_service.go | double-entry posting in int64 arithmetic over an append-only log |
| TxLifecycle.dfy, TxStore.dfy, TxCreation.dfy | services/transaction | status machine and partial refunds; key index and live objects; concurrent creation with one idempotency key |
| CircuitBreaker.dfy | libs/gateway/circuit_breaker.go | the timed breaker with late reports |
| Notification.dfy | services/notification/services/notification_service.go | ownership of a notification between sender, queue, worker and retry goroutines |
| Accounts.dfy, AccountService.dfy | services/account | email index, versions, atomic balance updates, interleaved credits and debits, live account objects |
| Router.dfy | integrations/router/router.go | priority order, candidate selection, bounded failover |

Each component has the same three layers. Plain datatypes and functions say what
one critical section does. Lemmas prove what every step keeps, and from it what
holds over all runs. Classes with the Go fields carry the loops, in-place updates
and object sharing; their methods are proved against those functions. Where the
Go code is concurrent (bulkhead, transaction creation, notification delivery,
account balances, breaker) a run is a sequence of steps of any calls in any
order, with a step for each critical section, channel operation or unlocked read.

Assumptions that hold throughout:

- Generated ids are fresh. The code ignores collisions and mostly ignores the
  generator's error; where it returns that error, so does the model.
- The clock never runs backwards. Times and tokens of the token bucket are real
  numbers; the other clocks are integers.
- Each `Allow` of a limiter is one atomic step. The code drops the map lock before
  it locks the bucket or window.
- Callers do not write through pointers they are handed (accounts, transactions,
  roles, provider configurations).

## What the code does not do

Some natural properties are false of the code. The model keeps the code's
behaviour, and a lemma says exactly when the property holds.

- A refund of a completed transaction is booked faithfully iff its amount is not
  negative and does not overflow on top of what is refunded already
  (`TxLifecycle.RefundExactness`); all others succeed too, with a negative, a
  shrunken or a wrapped refunded amount (`NegativeRefundIsAccepted`,
  `OverflowingRefundIsAccepted`). Amount 0 is documented as a full refund, and is one
  iff nothing has been refunded before (`FullRefundExactness`).
- The trial balance is 0 modulo 2^64 only. It fails in two ways: the int64 check
  accepts a journal that is 2^64 out of balance (`TrialBalances.TrialBalanceCanDrift`),
  and accounts wrap around under exactly balanced journals (`AccountCanWrap`). An
  accepted journal keeps the trial balance iff the two make up for each other
  (`JournalKeepsTrialBalance`).
- Journals are not balanced per currency (`TrialBalances.CurrenciesCanDrift`). A journal
  keeps a currency balanced iff its requests on that currency's accounts balance by
  themselves (`JournalKeepsCurrency`).
- An account `Update` can give two accounts one email, `UpdateWithVersion` leaves the
  email index behind, and a transaction `Update` leaves the key index behind. The index
  stays exact iff, respectively, the new email is the old one or free, it is the old
  one, and the key is the old one (`Accounts.UpdateKeepsIndexExactly`,
  `Accounts.VersionedUpdateKeepsIndexExactly`,
  `TxStore.ReplaceKeepsIndexedExactly`).
- `CloseAccount` is documented as permanent, and is iff nobody freezes the account
  afterwards (`Accounts.ClosedUnlessFrozen`).
- A bulkhead never gets stuck iff it has a slot, or no place to wait
  (`Bulkhead.NeverStuckExactly`).
- A breaker can stay half-open for good iff it asks for more successes than
  max(1, HalfOpenRequests) (`CircuitBreaker.LiveExactly`).
- A fixed-window key limit of L lets up to 2L - 1 requests through in one closed
  minute, never more, so that it holds for every minute iff L is 1
  (`ApiKey.LimitIsRespected`, `ApiKey.BoundIsTight`, `ApiKey.MinuteLimitExactly`).
- A client that waits out Retry-After is admitted iff the burst size is at least 1
  (`TokenBucket.RetryAfterSuffices`).

## Model

| member | source | states |
|---|---|---|
| Rbac.RBACManager.GetAllPermissionsRecursive | libs/auth/rbac.go:202-238 | The depth-first search with the shared `visited` map ends on every role graph, cyclic or dangling; the names it marks are closed under parents and all reachable from the role; its answer is exactly the direct permissions of the roles it newly visited, each once; it fails only for an unvisited role that does not exist. |
| Rbac.RBACManager.GetAllPermissions | libs/auth/rbac.go:194-199 | The top-level answer is graph reachability: a permission is listed (once) iff some existing role reachable through Inherits has it directly; the only error is a missing role. |
| Rbac.ExploreParent | libs/auth/rbac.go:217-228 | One more parent explored keeps the half-finished search correct, whatever its siblings have already visited. |
| Rbac.ClosureGrants | libs/auth/rbac.go:202-238 | A set of names closed under Inherits and made of names reachable from a role is its whole reach, so permissions collected over it are exactly the granted ones. |
| Rbac.GrantsIgnoresOrder | libs/auth/rbac.go:202-238 | What a role is granted does not depend on the order or repetition of the Inherits and permission lists of any role. |
| Rbac.RBACManager.HasPermission | libs/auth/rbac.go:241-259 | True iff the role is superadmin or reaches the permission; false for a role that does not exist. |
| Rbac.RBACManager.HasAnyPermission | libs/auth/rbac.go:262-269 | True iff the role holds one of the permissions. |
| Rbac.RBACManager.HasAllPermissions | libs/auth/rbac.go:272-279 | True iff the role holds all of the permissions. |
| Rbac.RBACManager.CheckAccess | libs/auth/rbac.go:282-289 | Grants exactly when some role of the user is superadmin or reaches the permission. |
| Rbac.RBACManager.CheckAnyAccess | libs/auth/rbac.go:292-299 | Grants exactly when some role of the user holds one of the permissions. |
| Rbac.RBACManager.AddRole | libs/auth/rbac.go:173-179 | Files the role under its name; every other role keeps its permissions and parents. |
| Rbac.RBACManager.RemoveRole | libs/auth/rbac.go:314-324 | Only that role leaves the graph; parents that name it dangle. |
| Rbac.RemovedRoleReach | libs/auth/rbac.go:314-324 | After a removal a permission is still granted to a role iff it was granted over a walk that never passes through the removed role. |
| Rbac.RBACManager.AddPermissionToRole | libs/auth/rbac.go:327-345 | Afterwards exactly the roles that reached the changed role have gained exactly that permission; no other role changes, and the list of the changed one gains no duplicate. |
| Rbac.AddedPermissionReach | libs/auth/rbac.go:327-345 | The same, for any two graphs that differ by one direct permission. |
| Rbac.RBACManager.RemovePermissionFromRole | libs/auth/rbac.go:348-365 | Exactly the first occurrence goes, the others keep their order; a missing one is an error without effect. |
| Rbac.WithoutFirstKeeps | libs/auth/rbac.go:348-365 | So one copy is lost: a role keeps the permission iff it was listed more than once, and every other one. |
| Bulkhead.StepKeepsOccupancy | libs/resilience/bulkhead.go:60-198 | Every step of every call keeps semaphore, waiting and activeCount equal to the counts of calls between the points where each changes; the receive that ends a call never finds the channel empty. |
| Bulkhead.StepKeepsBooks | libs/resilience/bulkhead.go:60-198 | Every step keeps success, failure and rejected counts equal to the calls that have passed the respective update. |
| Bulkhead.RunKeepsInv | libs/resilience/bulkhead.go:60-198 | Both hold in every interleaving of any number of calls. |
| Bulkhead.AdmissionBounds | libs/resilience/bulkhead.go:60-92 | At most MaxConcurrent calls run fn; waiting is the calls inside wait and never above MaxWaiting; activeCount is the semaphore less the calls not yet counted in, plus those released but not yet counted out, so at most MaxConcurrent plus the latter. |
| Bulkhead.AdmissionIsExact | libs/resilience/bulkhead.go:61-72 | In every reachable state a new call gets a slot iff fewer than MaxConcurrent calls hold one, and otherwise queues or, in TryExecute, is refused; a queueing call may wait iff fewer than MaxWaiting calls are inside wait; a waiting call can be admitted iff a slot is free. |
| Bulkhead.OutcomeWasDecided | libs/resilience/bulkhead.go:60-198 | Over every run: a call is rejected only after all slots were taken by others (TryExecute), all places to wait were taken, or its context had ended; it succeeded, failed or panicked as fn ended; and it queued only after finding all slots taken. |
| Bulkhead.MoveUsesBudget | libs/resilience/bulkhead.go:60-198 | Every move of a call lowers the total of steps still to come. |
| Bulkhead.BatchIsBounded | libs/resilience/bulkhead.go:60-198 | Without new arrivals a run has at most nine moves per call. |
| Bulkhead.NeverStuck | libs/resilience/bulkhead.go:127-165 | With a slot to wait for, or with no place to wait, in every reachable state some call can move without any context ending iff a call is unfinished. |
| Bulkhead.ReachStuck | libs/resilience/bulkhead.go:48-57 | Without slots but with places to wait, every configuration reaches a state in which a waiting call is stuck until its context ends. |
| Bulkhead.NeverStuckExactly | libs/resilience/bulkhead.go:48-57 | For every configuration: no reachable state is stuck iff MaxConcurrent is positive or MaxWaiting is not. |
| Bulkhead.DrainedIsClean | libs/resilience/bulkhead.go:74-92 | When every call has returned, semaphore, activeCount and waiting are 0 and success + failure + rejected (+ panicked) is the number of calls. |
| Bulkhead.FinishedOnce | libs/resilience/bulkhead.go:82-91 | A finished call is in the books under exactly one outcome. |
| Bulkhead.Bulkhead.TrySend | libs/resilience/bulkhead.go:61-72 | The select with default never blocks and takes a slot iff one is free; without one the call queues, or is refused in TryExecute. |
| Bulkhead.Bulkhead.EnterWait | libs/resilience/bulkhead.go:127-135 | The call takes a place in the queue iff waiting is below MaxWaiting; otherwise it is rejected and counted, in one critical section. |
| Bulkhead.Bulkhead.Select | libs/resilience/bulkhead.go:150-164 | A waiting call is admitted only into a free slot and expires only when its context is done. |
| Bulkhead.Bulkhead.CountRejected | libs/resilience/bulkhead.go:156-163 | The rejection of an expired call or of TryExecute is counted exactly once. |
| Bulkhead.Bulkhead.LeaveWait | libs/resilience/bulkhead.go:137-141 | The deferred decrement of waiting, on both ways out of wait. |
| Bulkhead.Bulkhead.CountActive | libs/resilience/bulkhead.go:64-66 | The increment of activeCount, apart from the acquisition it follows. |
| Bulkhead.Bulkhead.CountResult | libs/resilience/bulkhead.go:83-89 | Success or failure is counted by how fn ended. |
| Bulkhead.Bulkhead.Release | libs/resilience/bulkhead.go:75-76 | The deferred channel receive, which is proved never to block. |
| Bulkhead.Bulkhead.CountInactive | libs/resilience/bulkhead.go:77-79 | The decrement of activeCount, after the slot is already free. |
| TokenBucket.RefillComposes | libs/middleware/ratelimit.go:84-94 | Refilling at s and again at t is refilling at t: reading a bucket early changes nothing later. |
| TokenBucket.FullStaysFull | libs/middleware/ratelimit.go:146-165 | A bucket that is full at s is at every later time the same as a newly created one. |
| TokenBucket.StepAgrees | libs/middleware/ratelimit.go:131-143 | One request, token read or cleanup look keeps the real limiter and the ideal one in agreement, with the same answer. |
| TokenBucket.CleanupIsInvisible | libs/middleware/ratelimit.go:131-165 | In every run the limiter with cleanup and token reads interleaved anywhere answers as one that never deletes a bucket and is never read. |
| TokenBucket.ApplyConserves | libs/middleware/ratelimit.go:69-81 | An admission costs its key exactly one token; nothing else changes what any key has. |
| TokenBucket.TokensStayInRange | libs/middleware/ratelimit.go:84-94 | After every clocked run from an empty limiter, the tokens of every key are between 0 and the burst size, then and at every later time. |
| TokenBucket.AdmissionsUseTokens | libs/middleware/ratelimit.go:69-94 | Admissions in an interval are at most the tokens at its start plus those earned; while the run has not gone past its end, that still holds with the tokens left at the end added. |
| TokenBucket.RateIsBounded | libs/middleware/ratelimit.go:69-94 | In every run and every interval [s, t] a key is admitted at most burst + rate * (t - s) times. |
| TokenBucket.QuietKeepsTokens | libs/middleware/ratelimit.go:84-94 | While a key is quiet its tokens are what it had plus what time earns, up to the burst size, whatever other keys, readers and cleanup do. |
| TokenBucket.QuietTokensExact | libs/middleware/ratelimit.go:84-94 | While a key is quiet it has min(burst, what it had + rate * time), in plain arithmetic. |
| TokenBucket.AdmittedOnOneToken | libs/middleware/ratelimit.go:69-81 | A request is admitted iff its key has at least one token, and a key not in the table has as many as the burst size. |
| TokenBucket.RetryAfterIsTight | libs/middleware/ratelimit.go:178-190 | The advertised wait is more than, and at most one second more than, what earns the missing part of a token. |
| TokenBucket.RetryAfterSuffices | libs/middleware/ratelimit.go:178-190 | A client that waits out the advertised Retry-After on a quiet key is admitted iff the burst size is at least 1. |
| TokenBucket.CleanupIsSweeps | libs/middleware/ratelimit.go:146-165 | A cleanup pass is a run of looks at single keys in any order, and so invisible. |
| TokenBucket.SweepDeletesFull | libs/middleware/ratelimit.go:151-160 | Cleanup does delete: of one key it leaves nothing iff its bucket is full, and it touches no other key. |
| TokenBucket.TokenBucket.RefillNow | libs/middleware/ratelimit.go:84-94 | The fields after refill are the refilled bucket. |
| TokenBucket.TokenBucket.Allow | libs/middleware/ratelimit.go:69-81 | Refill, then take one token iff there is one. |
| TokenBucket.TokenBucket.Tokens | libs/middleware/ratelimit.go:97-102 | Reports the refilled tokens and leaves the refilled bucket. |
| TokenBucket.RateLimiter.Allow | libs/middleware/ratelimit.go:131-143 | One request against the key's bucket, created full when missing; the buckets of other keys are untouched. |
| TokenBucket.RateLimiter.Sweep | libs/middleware/ratelimit.go:151-160 | Deletes the key's bucket iff it is full. |
| TokenBucket.RateLimiter.Cleanup | libs/middleware/ratelimit.go:146-165 | A whole pass: exactly the buckets that are not full survive, refilled. |
| SlidingWindow.PruneAgrees | libs/middleware/ratelimit.go:278-288 | Pruning what lies before the window keeps every later view of the history. |
| SlidingWindow.SweepAgrees | libs/middleware/ratelimit.go:309-316 | Deletion at twice the window loses no timestamp a later request can see, whatever the sign of the window. |
| SlidingWindow.StepAgrees | libs/middleware/ratelimit.go:266-324 | One request or cleanup look keeps the pruned state in agreement with the full history. |
| SlidingWindow.PruningIsInvisible | libs/middleware/ratelimit.go:266-324 | In every run Allow is true iff fewer than MaxRequests of all earlier admissions of its key lie after now - WindowSize, wherever cleanup runs. |
| SlidingWindow.AllowIsExact | libs/middleware/ratelimit.go:266-324 | After every run, cleanup included, a request is admitted iff fewer than MaxRequests of the admissions made for its key lie in (now - WindowSize, now]. |
| SlidingWindow.AdmissionsAreHistory | libs/middleware/ratelimit.go:266-324 | The admissions that the pruned limiter makes in a run are exactly those the full-history reference records. |
| SlidingWindow.HistoryIsLegal | libs/middleware/ratelimit.go:266-298 | Every admission in every history found fewer than MaxRequests before it in its window. |
| SlidingWindow.LegalIsBounded | libs/middleware/ratelimit.go:290-297 | Such a history has at most MaxRequests admissions in any (x, x + WindowSize]. |
| SlidingWindow.WindowIsRespected | libs/middleware/ratelimit.go:266-298 | In every run, cleanup included, the pruned limiter makes at most MaxRequests admissions of a key in any (x, x + WindowSize]. |
| SlidingWindow.SweptAreStale | libs/middleware/ratelimit.go:309-316 | Looking at the last timestamp is enough: a sorted window is deleted iff all of it is older than two window sizes. |
| SlidingWindow.SweepDeletesStale | libs/middleware/ratelimit.go:309-316 | Cleanup does delete: of one key it leaves nothing iff its last admission on record is more than two windows ago or it has none, and it touches no other key. |
| SlidingWindow.Window.Admit | libs/middleware/ratelimit.go:278-297 | The loop keeps exactly the timestamps inside the window, in order, and appends now iff there is room. |
| SlidingWindow.SlidingWindowLimiter.Allow | libs/middleware/ratelimit.go:266-298 | One request against the key's window, created when missing; other keys are untouched. |
| SlidingWindow.SlidingWindowLimiter.Sweep | libs/middleware/ratelimit.go:309-317 | Deletes the key's window iff it is empty or stale. |
| SlidingWindow.SlidingWindowLimiter.Cleanup | libs/middleware/ratelimit.go:301-324 | A whole pass, in any order of the keys: exactly the stale windows go. |
| ApiKey.EventTracks | libs/auth/apikey.go:153-175 | One request keeps the bucket equal to the latest bucket lifetime, and lifetimes short, full at most to the limit, and more than a minute apart at their starts. |
| ApiKey.RunTracks | libs/auth/apikey.go:153-175 | The same over every run with a fixed limit per key. |
| ApiKey.AdmittedExactly | libs/auth/apikey.go:153-175 | After every run a request is admitted iff it comes more than a minute after its key's latest lifetime began, or fewer than limit requests have been admitted in that lifetime. |
| ApiKey.SpacedIsBounded | libs/auth/apikey.go:153-175 | Lifetimes so spaced have at most 2 * limit - 1 admissions in any closed minute. |
| ApiKey.LimitIsRespected | libs/auth/apikey.go:153-175 | In every run a key has at most limit admissions per bucket lifetime and at most 2 * limit - 1 in any closed one-minute interval. |
| ApiKey.BoundIsTight | libs/auth/apikey.go:153-175 | For every limit a run reaches 2 * limit - 1 admissions within one closed minute. |
| ApiKey.MinuteLimitExactly | libs/auth/apikey.go:153-175 | Every closed minute of every run has at most limit admissions iff the limit is 1. |
| ApiKey.APIKeyManager.CheckRateLimit | libs/auth/apikey.go:153-175 | The bucket is opened, counted up or refused as specified; other keys' buckets are untouched. |
| ApiKey.APIKeyManager.ValidateAPIKey | libs/auth/apikey.go:117-150 | A missing, disabled or expired key is refused with that error and spends nothing of any limit; a limit of 0 or less is none; otherwise the verdict is the limiter's. |
| Ledger.PostOneAgrees | services/ledger/services/ledger_service.go:178-215 | Posting one entry keeps every account balance and every stored running balance equal to the replay of the log, modulo wrap-around, also when an account recurs. |
| Ledger.PostAgrees | services/ledger/services/ledger_service.go:178-215 | The same for a whole journal. |
| Ledger.PostAppends | services/ledger/services/ledger_service.go:178-215 | Posting only appends: one log entry for each request, in order; no field of an account but its balance changes. |
| Ledger.EntryErrorExact | services/ledger/services/ledger_service.go:151-162 | A request is fine iff its account exists, is active and its amount is positive; an unknown account is reported first, then an inactive one. |
| LedgerService.AcceptableExact | services/ledger/services/ledger_service.go:137-162 | A journal is acceptable iff it has at least two requests, its debits and credits agree modulo 2^64, and every request is fine by itself. |
| Ledger.JournalKeepsSound | services/ledger/services/ledger_service.go:137-222 | An accepted journal keeps every stored Balance equal to the replay of its log prefix, every account balance equal to the replay of the whole log, and the log balanced modulo 2^64. |
| Ledger.NewAccountKeepsSound | services/ledger/services/ledger_service.go:81-110 | So does a new account under a fresh id. |
| Ledger.EmptyBooksAreSound | services/ledger/services/ledger_service.go:33-78 | A new ledger with its system accounts is sound. |
| Ledger.SystemAccountsExact | services/ledger/services/ledger_service.go:48-78 | The eight system accounts, in dollars with balance 0; Cash, Receivables and Refunds are debit-normal, the others credit-normal. |
| Ledger.RunKeepsSound | services/ledger/services/ledger_service.go:81-222 | Every run of accepted and rejected journals and new accounts keeps the ledger sound. |
| TrialBalances.ReplaysAddUp | services/ledger/services/ledger_service.go:178-195 | Over exact integers the replays of any group of accounts, signed by normal side, add up to the debits minus the credits logged on the group. |
| TrialBalances.ExactRunsBalance | services/ledger/services/ledger_service.go:137-222 | Over every run in which each accepted journal balances over exact integers, logged debits equal logged credits and the signed replays of all accounts add up to 0. |
| TrialBalances.BalancesReplay | services/ledger/services/ledger_service.go:178-195 | Each signed balance is the signed replay less 2^64 for every lap the replay has wrapped around. |
| TrialBalances.BalanceExact | services/ledger/services/ledger_service.go:178-195 | For any group of accounts the balance is the debits minus the credits logged on it, less 2^64 for every lap of its accounts, and is 0 iff the two are equal. |
| TrialBalances.TrialBalanceModulo | services/ledger/services/ledger_service.go:225-241 | In every sound ledger debit-normal minus credit-normal balances is 0 modulo 2^64, over all accounts and currencies, whatever has wrapped around. |
| TrialBalances.TrialBalanceExact | services/ledger/services/ledger_service.go:225-241 | In every ledger, wrapped or not, the trial balance is 0 iff exact debits minus credits of the log are 2^64 times the signed laps of the accounts. |
| TrialBalances.PostMoves | services/ledger/services/ledger_service.go:178-215 | A journal moves the balance of any group of accounts by the debits minus the credits it posts there, less 2^64 for every lap it makes them wrap around. |
| TrialBalances.JournalKeepsTrialBalance | services/ledger/services/ledger_service.go:137-241 | An accepted journal keeps the trial balance iff its exact debits exceed its credits by 2^64 for every signed lap it causes, both computed from the request and the balances before. |
| TrialBalances.UnwrappedJournalKeepsTrialBalance | services/ledger/services/ledger_service.go:137-241 | An accepted journal that wraps no account around keeps the trial balance iff its exact debits equal its exact credits. |
| TrialBalances.TrialBalanceInRange | services/ledger/services/ledger_service.go:178-195 | While no account has left int64, the trial balance is exactly the debits minus the credits ever logged. |
| TrialBalances.TrialBalanceZero | services/ledger/services/ledger_service.go:225-241 | If logged debits and credits each stay below 2^63, the trial balance is exactly 0. |
| TrialBalances.TrialBalanceCanDrift | services/ledger/services/ledger_service.go:225-241 | A concrete journal accepted by the int64 check leaves a trial balance of 2^64 although no account has wrapped around. |
| TrialBalances.AccountCanWrap | services/ledger/services/ledger_service.go:178-195 | Two concrete accepted journals, each balanced over exact integers, wrap Cash around to the int64 minimum and leave a trial balance of -2^64. |
| TrialBalances.CurrencyBalance | services/ledger/services/ledger_service.go:178-215 | Over exact integers the accounts of a currency replay to the debits minus the credits logged in it; their int64 balance is 0 modulo 2^64 iff these agree modulo 2^64. |
| TrialBalances.JournalKeepsCurrency | services/ledger/services/ledger_service.go:225-241 | An accepted journal keeps a currency balanced modulo 2^64 iff its requests on the accounts of that currency balance among themselves. |
| TrialBalances.CurrenciesCanDrift | services/ledger/services/ledger_service.go:225-241 | A concrete accepted journal between a dollar and a euro account leaves both currencies out of balance. |
| Ledger.EntriesGrow | services/ledger/services/ledger_service.go:256-278 | An account's entries only grow at the end when the log does. |
| Ledger.EntriesOfExact | services/ledger/services/ledger_service.go:256-266 | The listing has as many entries as the log has places with that account, and entry k of it stands at the place that has exactly k earlier ones. |
| Ledger.NumberIsUnique | services/ledger/services/ledger_service.go:256-266 | No two entries of an account have the same number, so the listing has each once and in log order. |
| Ledger.FullPagesAreStable | services/ledger/services/ledger_service.go:256-278 | A page that was full once never changes, whatever is posted later. |
| Ledger.PagesJoin | services/ledger/services/ledger_service.go:256-278 | Consecutive pages join without gap or overlap. |
| LedgerService.Service.constructor | services/ledger/services/ledger_service.go:33-45 | A new service is valid: sound books, system accounts in place, empty log. |
| LedgerService.Service.InitializeSystemAccounts | services/ledger/services/ledger_service.go:48-78 | Installs exactly the system accounts, each with balance 0 and the normal side of its type. |
| LedgerService.Service.CreateAccount | services/ledger/services/ledger_service.go:81-110 | A new active account with balance 0, debit-normal iff an asset or expense; everything else stays. |
| LedgerService.LedgerAccount.Move | services/ledger/services/ledger_service.go:182-195 | The in-place balance update is the signed amount, wrapped to int64. |
| LedgerService.Service.SumSides | services/ledger/services/ledger_service.go:226-236 | The loop computes the int64 sums of the debit and of all other amounts. |
| LedgerService.Service.ValidateBalance | services/ledger/services/ledger_service.go:225-241 | Accepts iff the exact sums agree modulo 2^64. |
| LedgerService.Service.CheckEntries | services/ledger/services/ledger_service.go:151-162 | Rejects for the first request, in order, with an unknown or inactive account or a non-positive amount. |
| LedgerService.Service.PostEntry | services/ledger/services/ledger_service.go:178-215 | One turn of the posting loop changes one live account and appends one entry. |
| LedgerService.Service.PostAll | services/ledger/services/ledger_service.go:178-215 | The loop posts all requests in order onto live accounts, recurring ones included. |
| LedgerService.Service.CreateJournalEntry | services/ledger/services/ledger_service.go:137-222 | A rejected journal changes nothing at all; an accepted one posts every entry, files the journal, adds one audit record, and keeps the service valid. |
| LedgerService.FilingKeepsJournaled | services/ledger/services/ledger_service.go:164-217 | Each filed journal is exactly the part of the log that carries its id. |
| LedgerService.TwoSidedVerdict | services/ledger/services/ledger_service.go:295-337 | A two-sided journal between system accounts is accepted iff its amount is positive. |
| LedgerService.TwoSidedTransfers | services/ledger/services/ledger_service.go:295-337 | It debits one account and credits the other by the amount, each on its normal side, and touches no other. |
| LedgerService.Service.GetEntriesForAccount | services/ledger/services/ledger_service.go:256-278 | The total is the number of log places with that account; the page is its entries number offset, offset + 1 and so on, min(limit, total - offset) of them, each found in the log at the place with that many earlier ones. |
| LedgerService.Service.RecordPayment | services/ledger/services/ledger_service.go:295-307 | Succeeds iff the amount is positive; then Cash and CustomerDeposits both grow by it and no other account changes; a refusal changes nothing. |
| LedgerService.Service.RecordRefund | services/ledger/services/ledger_service.go:310-322 | Succeeds iff the amount is positive; then Refunds grows and Cash shrinks by it and no other account changes; a refusal changes nothing. |
| LedgerService.Service.RecordFee | services/ledger/services/ledger_service.go:325-337 | Succeeds iff the amount is positive; then Receivables and Fees both grow by it and no other account changes; a refusal changes nothing. |
| LedgerService.Service.GetTrialBalance | services/ledger/services/ledger_service.go:392-401 | Lists every account's balance; signed by normal side they add up to 0 modulo 2^64 in every valid service. |
| TxLifecycle.TransitionsDescend | services/transaction/models/transaction.go:20-41 | The status machine has no cycle: every transition lowers a rank, the final states are exactly those of rank 0, and nothing leads back to Pending. |
| TxLifecycle.TransitionsExact | services/transaction/models/transaction.go:20-41 | The seven allowed transitions, pair by pair, and no other. |
| TxLifecycle.RefundExactness | services/transaction/services/transaction_service.go:190-224 | A refund of a consistent completed transaction is booked faithfully (consistent, and a success grows the refunded amount by exactly the positive amount asked for) iff the amount is not negative and does not overflow on top of what is refunded; every other one succeeds all the same. |
| TxLifecycle.SafeRefundOutcome | services/transaction/services/transaction_service.go:190-224 | A safe refund of a completed transaction is refused iff it exceeds what is left; otherwise it is added, and the transaction is Refunded iff nothing is left. |
| TxLifecycle.FullRefundExactness | services/transaction/services/transaction_service.go:200-216 | Amount 0 completes the refund of a completed transaction iff nothing has been refunded before. |
| TxLifecycle.NegativeRefundIsAccepted | services/transaction/services/transaction_service.go:190-224 | A refund of -1 succeeds and leaves a refunded amount of -1; one of -5 takes a refunded amount of 10 back to 5. |
| TxLifecycle.OverflowingRefundIsAccepted | services/transaction/services/transaction_service.go:200-216 | A full refund on top of a partial one of the largest amount succeeds and leaves the int64 minimum. |
| TxLifecycle.OtherOpsKeepConsistent | services/transaction/services/transaction_service.go:105-187 | Authorize, Complete, Cancel and Fail leave the refunded amount alone and the state consistent. |
| TxLifecycle.RunExactness | services/transaction/services/transaction_service.go:105-224 | Every call of a run is booked faithfully iff every refund that finds the transaction completed is safe when it comes. |
| TxLifecycle.LifeIsAccounted | services/transaction/services/transaction_service.go:105-224 | Over every run whose refunds are not negative and do not overflow when they find the transaction completed: the refunded amount is the sum of the successful refunds, lies in [0, Amount], is 0 unless Completed or Refunded and is Amount iff Refunded; at most Amount + 2 calls succeed. |
| TxLifecycle.LongestLife | services/transaction/services/transaction_service.go:105-224 | A safe run with Amount + 2 successes exists, for every positive amount. |
| TxLifecycle.CompletedInTwoSteps | services/transaction/services/transaction_service.go:105-145 | A transaction that starts pending is completed or refunded only after an Authorize that found it pending and a later Complete that found it authorized. |
| TxStore.TransactionService.Transition | services/transaction/services/transaction_service.go:105-187 | Authorize, Complete, Cancel and Fail change the status of the named live transaction as the table allows, with the method's own error otherwise; no other transaction changes. |
| TxStore.TransactionService.AuthorizeTransaction | services/transaction/services/transaction_service.go:105-123 | Pending becomes Authorized; in any other status the call is refused as an invalid transition and nothing changes. |
| TxStore.TransactionService.CompleteTransaction | services/transaction/services/transaction_service.go:126-145 | Authorized becomes Completed; in any other status the call is refused as an invalid transition and nothing changes. |
| TxStore.TransactionService.CancelTransaction | services/transaction/services/transaction_service.go:148-166 | Pending or Authorized becomes Cancelled; in any other status the call is refused as not cancellable and nothing changes. |
| TxStore.TransactionService.FailTransaction | services/transaction/services/transaction_service.go:169-187 | Pending or Authorized becomes Failed; in any other status the call is refused as an invalid transition and nothing changes. |
| TxStore.TransactionService.RefundTransaction | services/transaction/services/transaction_service.go:190-224 | Refused unless Completed; a safe refund is refused without effect iff it exceeds what is left and is added exactly otherwise; any other follows the int64 specification. No other transaction changes. |
| TxStore.TransactionService.CreateTransaction | services/transaction/services/transaction_service.go:52-97 | Alone: a known key returns the stored transaction and changes nothing; otherwise one fresh transaction with that request is stored, Pending with nothing refunded; errors change nothing and are exactly a bad request or a failing generator. |
| TxStore.TransactionService.CheckRequest | services/transaction/services/transaction_service.go:238-249 | No error iff the amount is positive and currency and method are among the supported ones; the first failing check, in order, gives the error. |
| TxStore.InsertKeepsIndexed | services/transaction/repositories/repository.go:42-58 | Inserting under a fresh id keeps the key index exact, and fails iff a non-empty key is taken. |
| TxStore.LookupIsExact | services/transaction/repositories/repository.go:73-82 | In an indexed store a non-empty key leads to the one transaction that carries it, never to a nil one. |
| TxStore.InMemoryRepository.Create | services/transaction/repositories/repository.go:42-58 | The critical section on the two maps: insert or duplicate-key error without effect. |
| TxStore.InMemoryRepository.GetByIdempotencyKey | services/transaction/repositories/repository.go:73-82 | Returns the live object that carries the key, or an error iff no index entry exists. |
| TxStore.InMemoryRepository.Update | services/transaction/repositories/repository.go:85-96 | Stores whatever object comes in under a known id, leaving the key index alone; the live object changes nothing, and the store stays valid iff the key is the one stored before. |
| TxStore.ReplaceKeepsIndexedExactly | services/transaction/repositories/repository.go:85-96 | Update keeps the key index exact iff the idempotency key is unchanged. |
| TxCreation.StepKeepsInv | services/transaction/services/transaction_service.go:52-97 | Every critical section of every call, and every lifecycle call in between, keeps each call's knowledge about the store true. |
| TxCreation.MoveIsExact | services/transaction/services/transaction_service.go:52-97 | In every reachable state: a bad request fails; a taken key gives back the stored transaction that carries it; otherwise a Pending transaction for the request is made under the generated id, and stored unless the key has been taken meanwhile. |
| TxCreation.SameKeySameTransaction | services/transaction/services/transaction_service.go:52-97 | In every interleaving all calls with one non-empty key that return, return the same transaction, and the store holds no other one with that key. |
| TxCreation.OneCreator | services/transaction/services/transaction_service.go:77-94 | Every stored transaction is the request of exactly one call, the one whose insert won. |
| TxCreation.LoserFindsWinner | services/transaction/services/transaction_service.go:84-93 | A caller that lost the insert race always finds the winner; no caller ever sees a duplicate-key error. |
| TxCreation.KeylessCallsAreSeparate | services/transaction/services/transaction_service.go:57-62 | Requests without a key never share a transaction. |
| TxCreation.CallsAreWaitFree | services/transaction/services/transaction_service.go:52-97 | Every unfinished call can move, and is at most five moves from its return. |
| TxCreation.LifeFollowsCalls | services/transaction/services/transaction_service.go:52-224 | However creations and lifecycle calls interleave, a stored transaction keeps its request and has lived exactly the life of a Pending one of its amount under the lifecycle calls that came for it. |
| TxCreation.StoredLives | services/transaction/services/transaction_service.go:52-224 | In every run from the start a stored transaction came from a good request, is Pending with nothing refunded until a lifecycle call comes, and is completed only by an Authorize and a later Complete. |
| CircuitBreaker.OpensAtStreak | libs/gateway/circuit_breaker.go:128-146 | Over every history, while Closed the failure counter is the number of failures since the latest success, reset or entry to Closed, and the breaker opens with exactly the failure that completes max(1, MaxFailures) of them. |
| CircuitBreaker.LastFailureIsLatest | libs/gateway/circuit_breaker.go:128-146 | The last failure time is that of the latest failure recorded, in whatever phase. |
| CircuitBreaker.AdmittedFromOpen | libs/gateway/circuit_breaker.go:79-106 | From Open a call is admitted iff every failure ever recorded is more than Timeout ago. |
| CircuitBreaker.HistoryIsLawful | libs/gateway/circuit_breaker.go:79-214 | Over every clocked history each event has exactly the effect its past demands: closed admits all and opens with the failure completing the streak; open turns half-open, and admits, iff no failure is as recent as Timeout; half-open admits while fewer than HalfOpenRequests were admitted since it was entered, opens with any failure and closes with the success completing max(1, SuccessThreshold); a reset closes. |
| CircuitBreaker.LawsDetermineHistory | libs/gateway/circuit_breaker.go:79-214 | No other history of the same events obeys these laws. |
| CircuitBreaker.CallKeepsInv | libs/gateway/circuit_breaker.go:79-106 | An admission keeps the half-open request counter equal to the probes of the episode. |
| CircuitBreaker.ReportKeepsInv | libs/gateway/circuit_breaker.go:109-146 | A report, late ones from earlier phases included, keeps it too, and the episode's successes at least its own reported successes. |
| CircuitBreaker.EpisodeIsBounded | libs/gateway/circuit_breaker.go:79-106 | A half-open episode admits at most max(1, HalfOpenRequests) calls. |
| CircuitBreaker.ReachableIsLive | libs/gateway/circuit_breaker.go:79-167 | If SuccessThreshold is at most max(1, HalfOpenRequests), every half-open state admits the next call or has a probe of this episode outstanding. |
| CircuitBreaker.LiveExactly | libs/gateway/circuit_breaker.go:79-167 | That holds in all reachable states iff SuccessThreshold is at most max(1, HalfOpenRequests). |
| CircuitBreaker.CircuitBreaker.Allow | libs/gateway/circuit_breaker.go:79-106 | Closed admits; Open admits, and becomes HalfOpen with one probe, iff the last failure is more than Timeout ago; HalfOpen admits and counts while below HalfOpenRequests. |
| CircuitBreaker.CircuitBreaker.RecordSuccess | libs/gateway/circuit_breaker.go:109-125 | Closed forgets its failures; HalfOpen counts, and closes iff SuccessThreshold is reached; Open stays open. |
| CircuitBreaker.CircuitBreaker.RecordFailure | libs/gateway/circuit_breaker.go:128-146 | The failure time is always stored; Closed counts, and opens iff MaxFailures is reached; HalfOpen opens at once; Open stays open. |
| CircuitBreaker.CircuitBreaker.TransitionTo | libs/gateway/circuit_breaker.go:149-167 | No effect when the state is the same; otherwise the counters of the new state start at 0. |
| CircuitBreaker.CircuitBreaker.Reset | libs/gateway/circuit_breaker.go:205-214 | Closed with all counters 0. |
| NotificationDelivery.StepKeepsInv | services/notification/services/notification_service.go:93-271 | Every step of every goroutine keeps: one owner for each notification that is not terminal, none for the others, and each notification where its owner says. |
| NotificationDelivery.ExactlyOneOwner | services/notification/services/notification_service.go:227-271 | In every interleaving a notification has exactly one owner (sender, queue slot, delivery or sleeping retry) until it is terminal and none afterwards, so it is never delivered twice at once. |
| NotificationDelivery.RetriesAreBounded | services/notification/services/notification_service.go:234-271 | At most MaxRetries attempts; MaxRetries failures are counted iff it is Failed or its deliverer is about to set that; Delivered with the attempt after the failures; total backoff at most 2^MaxRetries - 2 seconds. |
| NotificationDelivery.TerminalIsFinal | services/notification/services/notification_service.go:234-271 | No step touches a delivered or failed notification again. |
| NotificationDelivery.NeverStuck | services/notification/services/notification_service.go:227-271 | While a notification is not terminal, some goroutine can move. |
| NotificationDelivery.MoveUsesWork | services/notification/services/notification_service.go:227-271 | Every move uses up work, so a finite batch of notifications comes to rest. |
| NotificationDelivery.DeliverKeepsInv | services/notification/services/notification_service.go:234-271 | The steps of one delivery keep the ownership invariant. |
| NotificationDelivery.HandOverKeepsInv | services/notification/services/notification_service.go:117-124 | So do hand-overs between senders, queue, worker and sleeping retries. |
| NotificationDelivery.NotificationService.Submit | services/notification/services/notification_service.go:93-115 | Stores a pending notification under its fresh id. |
| NotificationDelivery.NotificationService.Enqueue | services/notification/services/notification_service.go:117-124 | Into the queue iff there is room, otherwise this goroutine delivers. |
| NotificationDelivery.NotificationService.TakeFromQueue | services/notification/services/notification_service.go:227-231 | The worker takes the oldest queued notification. |
| NotificationDelivery.NotificationService.UpdateStatus | services/notification/services/notification_service.go:410-417 | The status update of one live notification, as a step of the protocol. |
| NotificationDelivery.NotificationService.CountFailure | services/notification/services/notification_service.go:252-257 | Counts the failure and gives up iff MaxRetries is reached. |
| NotificationDelivery.NotificationService.ScheduleRetry | services/notification/services/notification_service.go:258-264 | Marks it Retrying and starts the goroutine that sleeps 2^RetryCount seconds. |
| NotificationDelivery.NotificationService.Fail | services/notification/services/notification_service.go:251-265 | A failed delivery: Failed after the last retry, otherwise Retrying with a sleeping goroutine; nothing else changes. |
| NotificationDelivery.NotificationService.Deliver | services/notification/services/notification_service.go:234-271 | One delivery alone: one more attempt; then Delivered, or one more failure and Failed, or Retrying with 2^RetryCount seconds more of backoff; queue and other notifications stay as they were. |
| Accounts.CreateAndDeleteKeepIndex | services/account/repositories/repository.go:49-65 | Create under a fresh id and Delete keep the email index exact; Create fails iff the email is taken. |
| Accounts.UpdateKeepsIndexExactly | services/account/repositories/repository.go:92-112 | Update keeps the index exact iff the email is unchanged or free: unlike Create it does not look. |
| Accounts.VersionedUpdateKeepsIndexExactly | services/account/repositories/repository.go:115-132 | UpdateWithVersion keeps the index exact iff the email is unchanged. |
| Accounts.BalanceIsExact | services/account/repositories/repository.go:179-197 | From a non-negative balance the sign check alone decides exactly: the update succeeds iff the true sum is in [0, 2^63), and is then the true sum. |
| Accounts.VersionCountsWrites | services/account/repositories/repository.go:92-132 | Over every run that neither deletes nor recreates an account, its version has grown by the number of its successful writes. |
| Accounts.StaleWriteFails | services/account/repositories/repository.go:115-132 | No lost update: a versioned write succeeds iff nothing was written to the account since its version was read, and fails as a concurrent update otherwise. |
| BalanceCalls.MoveKeepsBalance | services/account/repositories/repository.go:179-197 | Any one step of any credit or debit keeps each balance equal to opening value plus committed amounts. |
| BalanceCalls.BalancesAreExact | services/account/services/account_service.go:283-339 | In every interleaving of credits, debits, new accounts and other changes, each balance is its opening value plus the exact sum of committed amounts, and never negative. |
| BalanceCalls.CommitIsExact | services/account/services/account_service.go:283-339 | At its commit a call succeeds iff the true sum is in range then, whatever its earlier unlocked reads saw, and has no effect otherwise. |
| BalanceCalls.OutcomeWasDecided | services/account/services/account_service.go:283-339 | Over every run each error was decided at a step of its call at which what it says was so; a call that commits found the account neither frozen nor closed at its check, and a debit found enough on it. |
| Accounts.ClosedUnlessFrozen | services/account/services/account_service.go:121-195 | A closed account stays closed throughout a run of status changes iff the run holds no freeze; one freeze and one unfreeze reopen it. |
| Accounts.DefaultsStayUnique | services/account/services/account_service.go:217-280 | At most one default instrument survives every addition and removal, a new default is the only one, and a removal takes exactly the instruments with that id. |
| Accounts.AddInstrumentExact | services/account/services/account_service.go:217-250 | The new instrument comes last and unchanged; no other field of the others changes but the default flag, which they lose iff the new one is the default. |
| Accounts.RemoveInParts | services/account/services/account_service.go:252-280 | Removal looks at each instrument by itself and keeps the order. |
| Accounts.RemovesWhatIsThere | services/account/services/account_service.go:252-280 | An instrument with the id is found iff removal changes the list. |
| Accounts.AddThenRemove | services/account/services/account_service.go:217-280 | Adding an instrument and removing it gives the list back, except that a new default leaves none behind. |
| AccountService.InMemoryRepository.Create | services/account/repositories/repository.go:49-65 | Files a live account with its email and version 1, or fails, without effect, iff the email is indexed already. |
| AccountService.InMemoryRepository.GetByEmail | services/account/repositories/repository.go:80-89 | Finds a live account iff one carries that email. |
| AccountService.InMemoryRepository.Update | services/account/repositories/repository.go:92-112 | Stores the object given, the live one or another, moves the index entry if the email differs, and counts the version up. |
| AccountService.InMemoryRepository.UpdateWithVersion | services/account/repositories/repository.go:115-132 | Stores it iff the version matches. |
| AccountService.InMemoryRepository.UpdateBalanceAtomic | services/account/repositories/repository.go:179-197 | The live object changes in place by the wrapped sum, or nothing changes; no other account does. |
| AccountService.InMemoryRepository.Delete | services/account/repositories/repository.go:135-149 | The account, its index entry and its version go together. |
| AccountService.AccountService.CreateAccount | services/account/services/account_service.go:44-78 | Succeeds iff the request is valid, the generator works and no stored account has the email; then one fresh pending account with balance 0 is added. |
| AccountService.AccountService.CreditBalance | services/account/services/account_service.go:283-305 | Succeeds iff the amount is positive, the account exists and is neither frozen nor closed, and the true sum fits int64; then exactly this balance has grown by exactly the amount. |
| AccountService.AccountService.DebitBalance | services/account/services/account_service.go:308-339 | Succeeds iff the amount is positive, the account exists and is neither frozen nor closed, and the balance suffices; then exactly this balance has shrunk by exactly the amount. |
| AccountService.AccountService.ActivateAccount | services/account/services/account_service.go:121-138 | Active from every status but Closed; no other field or account changes. |
| AccountService.AccountService.FreezeAccount | services/account/services/account_service.go:141-158 | Frozen from every status, closed accounts included; no other field or account changes. |
| AccountService.AccountService.UnfreezeAccount | services/account/services/account_service.go:161-179 | Active from Frozen, otherwise nothing changes. |
| AccountService.AccountService.CloseAccount | services/account/services/account_service.go:182-195 | Closed from every status; no other field or account changes. |
| AccountService.AccountService.AddPaymentInstrument | services/account/services/account_service.go:218-250 | The live account gains the instrument at the end, a new default clearing all other flags; no other account changes. |
| AccountService.AccountService.RemovePaymentInstrument | services/account/services/account_service.go:253-280 | Succeeds iff the instrument is there; then all with that id go and the rest keep their order; no other account changes. |
| Routing.Router.PullForward | integrations/router/router.go:128-132 | The inner loop of the exchange sort permutes the rest so that its best comes to position i, and leaves the positions before i alone. |
| Routing.Router.SortByPriority | integrations/router/router.go:126-133 | The exchange sort permutes the array in place and leaves it sorted by priority. |
| Routing.Router.RebuildOrder | integrations/router/router.go:118-134 | Whatever order the map is walked in, `order` is a duplicate-free priority-sorted list of exactly the enabled providers. |
| Routing.OrderIsUniqueUpToTies | integrations/router/router.go:118-134 | Any two such lists agree in length and, position by position, in priority: only ties depend on the map order. |
| Routing.OrderIsUnique | integrations/router/router.go:118-134 | With distinct priorities the order is determined by the configuration. |
| Routing.Router.RegisterStripe | integrations/router/router.go:96-104 | Installs the configuration and keeps `order` exact. |
| Routing.Router.RegisterPayPal | integrations/router/router.go:107-115 | Installs the configuration and keeps `order` exact. |
| Routing.Router.EnableProvider | integrations/router/router.go:463-474 | An unknown provider is an error without effect; a known one is in `order` afterwards, also when its configuration object is shared. |
| Routing.Router.DisableProvider | integrations/router/router.go:477-488 | An unknown provider is an error without effect; a known one is not in `order` afterwards. |
| Routing.CandidatesExact | integrations/router/router.go:167-191 | The candidates are exactly the enabled providers that support the currency, each once, an eligible preferred one first and the rest by priority. |
| Routing.Router.GetProvidersForRequest | integrations/router/router.go:167-191 | The loops list, each once, exactly the enabled providers whose currencies are empty or name this one, the preferred one first. |
| Routing.Router.SupportsCurrency | integrations/router/router.go:194-204 | True iff the list of currencies is empty or names this one. |
| Routing.TriedInOrder | integrations/router/router.go:153-161 | Only candidates are attempted, in candidate order, and each outcome is what the provider answered. |
| Routing.SuccessIsLast | integrations/router/router.go:214-229 | Nothing is attempted after the first success, and after a message with a client-error pattern not the same provider. |
| Routing.GivenUpInTurn | integrations/router/router.go:207-232 | Each candidate gets at most max(1, MaxRetries) attempts and is given up only for a client error or when these are spent, unless an earlier candidate has succeeded. |
| Routing.FailsOnlyIfAllGaveUp | integrations/router/router.go:137-164 | A payment succeeds iff some attempt did, and fails only when every candidate has been given up. |
| Routing.FailoverIsLawful | integrations/router/router.go:137-232 | Every payment starts with the first candidate; a success ends it; a failure without a client-error pattern is followed by the same provider while it has tries left; any other failure by the next candidate, or the end when there is none. |
| Routing.LawDeterminesAttempts | integrations/router/router.go:137-232 | No other record of attempts obeys this for the same candidates, limits and answers. |
| Routing.SessionAtOneProvider | integrations/router/router.go:207-232 | The attempts at one provider: at least one, the same provider throughout; a success or a message with a client-error pattern ends them, and otherwise the last of max(1, MaxRetries) tries. |
| Routing.Router.ProcessWithProvider | integrations/router/router.go:207-232 | The retry loop makes attempts at that provider only, up to the first success or client error, and otherwise max(1, MaxRetries) of them, for every behaviour of the provider; the last outcome is returned. |
| Routing.Router.ProcessPayment | integrations/router/router.go:137-164 | The record of attempts grows by the one lawful record for the candidates; success names the provider and reference of the last attempt, failure its message, and no provider is reported, without an attempt, iff there are no candidates. |
| Routing.MatchLower | integrations/router/router.go:266-283 | True iff the strings are equal up to ASCII case. |
| Routing.ContainsLower | integrations/router/router.go:257-264 | True iff the substring occurs up to ASCII case. |
| Routing.Contains | integrations/router/router.go:253-255 | The same for all strings: the guards before the search change no answer, not even for empty strings. |
| Routing.IsClientError | integrations/router/router.go:235-251 | True iff the message contains one of the seven patterns up to ASCII case; false for no error. |
| Routing.LowerCharExact | integrations/router/router.go:266-283 | Two bytes match iff they are equal or the same ASCII letter in different case. |
| Routing.ContainsFoldExact | integrations/router/router.go:253-264 | A string contains another up to case iff some part of it matches the other byte for byte. |

## Left out

- NotificationDelivery.RetriesAreBounded: for at least one retry; the code always sets three.
- TxStore.TransactionService.CreateTransaction: one call alone, where the retry lookup after a lost insert cannot happen; TxCreation covers it.
- TxLifecycle.LifeIsAccounted: for runs whose refunds are safe when they come; RunExactness says that exactly these runs are booked faithfully.
- Routing.Router.ProcessPayment: the providers' clients are an arbitrary function of provider and attempt number, and the delay between attempts is not modelled.
- ApiKey.LimitIsRespected: for a limit per key that does not change during the run.
- CircuitBreaker.LiveExactly: each admitted call reports at most once, as the gateway does.
- Lifecycle and refund calls on one transaction interleaved with each other: they read and write the shared object without a lock, so each is one step here.
- A reader of `Tokens()` or the cleanup loop between the two locks of `Allow`: see the assumption above.
- Floating-point rounding of tokens, and wrap-around of durations, counters and account versions.
- Ledger entry ids, timestamps, descriptions, metadata, and the content of audit records beyond action, type and id.
- Listing and paging of map-backed collections, whose order the code does not fix; negative offsets and limits of the ledger lists.
- Request syntax: the verdict on an account's email, type and currency is a parameter; notification recipients and content are not looked at.
- `SendSync`, event triggers, webhooks, masking, and what the senders do: a delivery attempt succeeds or fails.
- The table of default roles, `GetRole` and `ListRoles`; key generation, rotation, revocation and hashing of API keys.
- `SemaphoreBulkhead` and the breaker registry, which repeat the modelled mechanisms in simpler form.
- Refunds and status queries of the router, and all HTTP handlers, the gateway, the Stripe and PayPal clients, JWT, database, cache, metrics, retry and timeout helpers, logging and configuration.
