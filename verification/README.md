# Verified models of ministr's state machines and algorithms

This project models, in Dafny 4.11, the parts of ministr whose correctness no single test settles: data
structures that rewrite themselves while they are read, closed-form calendar arithmetic, a job queue drained
by many replicas, checkpoints that arrive out of order, cursors over lists that change, and the code that
prints and reads identifiers. `dafny verify dfyconfig.toml` checks everything.

| file | what it models |
|---|---|
| `UnionFind.dfy` | disjoint sets with path halving and union by rank, against the equivalence closure of the united pairs |
| `UnionFindCost.dfy` | the iterations of whole runs of disjoint-set calls, by rank groups |
| `Iso8601.dfy` | Unix seconds to RFC 3339 text on all of `u64`, against a calendar that steps one day at a time |
| `LruCache.dfy` | the least-recently-used cache and the Fibonacci recursion memoised in it |
| `Worker.dfy` | any number of worker replicas over one job queue, as interleaved atomic steps |
| `Checkpoint.dfy` | session checkpoints gated by `supersedes`, and the reference store |
| `Pagination.dfy` | the four paginators, item cursors and offset cursors |
| `Compression.dfy` | batch compression with per-id queues, against compressing one identity at a time |
| `TokenBucket.dfy` | the lazily refilled token bucket |
| `PercentEncoding.dfy` | percent-encoding and the query strings of the daemon client |
| `Transcript.dfy` | the explicit-stack walk over transcript events and the call count built on it |
| `Routing.dfy` | project labels, corpus routing and delivery drops |
| `Knn.dfy` | exact nearest-neighbour ranking, and cosine similarity over the reals |
| `Text.dfy`, `Sorting.dfy`, `Counting.dfy`, `Delivery.dfy` | numerals and string order, sorting, counting facts, and delivery identities, shared by the others |

Conventions. Objects whose methods change fields are classes; each method equates the new state with a
function of the old one, and the theorems are about those functions over whole runs. `f32` and `f64` are
`real`; clocks, parsers, the compression service, the cursor functions, runner outcomes and failures are
parameters. Square root is a parameter constrained only to be a non-negative root of every non-negative
real. Machine words are explicit where they matter (`u64`/`i64` in the formatter, `usize` in the paginators).

Where a promised property is false of the code, the code is kept and the exact condition is proved:

* The formatter's text is 20 characters long, as one of its tests says of every output, exactly until the end of
  year 9999 (`LengthExact`). Text order is time order through year 9999 and breaks at year 10000; `OrderExact` gives
  the condition on the calendar years for every pair of instants.
* `memoize_fibonacci` makes 2n - 1 calls on a fresh cache if and only if the cache has three places or `n` is tiny
  (`CallsExact`). With two places the calls at least double with every four arguments, and with one place they are
  those of the recursion without a cache (`CallsByCapacity`, `TwoPlacesDouble`, `NaiveIsFibonacci`).
* `time_until_token` does not refill. Its answer is what a caller must wait if and only if a token is there and does
  not leak away, or tokens accrue, one fits, and the call comes at the last refill (`CallerWaitExact`); a later
  caller has to wait only what is left of it (`AccruingWait`, `StaleAnswer`). Counted from the last refill it is the
  least wait if and only if a token is there and does not leak away, or tokens accrue and one fits
  (`TimeUntilTokenExact`): with a rate of zero it answers zero although no token comes.
* The bound on admissions holds in every run if and only if capacity and rate are not negative
  (`RateBoundExact`).
* A chain of pages obtained by following item cursors is the list itself if and only if at every page boundary
  inside the list no earlier item shares the cursor of the item the page ends on (`FollowingCoversList`,
  `CoverageExact`). With shared cursors nothing is skipped (`FollowingSkipsNothing`), but items are shown again
  (`TwinShownAgain`) or following never ends (`TwinNeverEnds`).
* The order in which checkpoints are delivered does not show, up to the timestamp, if and only if the saves of the
  highest revision since the last delete agree, whether touches may carry any text (`DeliveryOrderExact`) or only one
  timestamp later than the legacy saves (`StampedOrderExact`). For saves alone the row is one that supersedes them
  all, and their order does not show at all if and only if that one is unique (`BestIsStored`, `SavesOrderExact`);
  a touch between two legacy saves keeps the older one (`TouchKeepsOlderSave`).
  Deleting a checkpoint forgets everything before it (`DeleteForgetsRevision`), so a stale save can come back, and
  every row is characterised by the saves since the last delete (`HighestRevisionWins`).
* The transcript count is "distinct ids plus events without an id" if and only if no matching id spells the place of
  a matching event without an id, and no matching event is displaced by a last event under its key that does not
  match (`CountExact`); `SpelledPlaceIsLost` and `DisplacedCallIsLost` are the two ways it falls short, and it is
  never more.
* The in-memory queue claims higher priorities first, except that the least `i16` priority, whose negation wraps (in
  builds without overflow checks; with them it panics), jumps ahead of every other one (`NegationExact`,
  `LeastPriorityWraps`); `PriorityOrderExact` gives the condition on every two priorities.
* Which backend a name resolves to does not depend on the iteration order of the label map if and only if the name is
  a linked or primary one, or the links that serve a corpus of that name are one backend
  (`ResolutionDeterministic`). The order of all backends does not depend on it if and only if links that serve one
  corpus are one backend (`BackendsDeterministic`).
* The number of times an identity is dropped is the number of backends that serve its corpus
  (`DropConservation`), so it is one if and only if exactly one backend does (`DroppedOnceExact`), and no identity is
  ever dropped twice if and only if corpus ids are distinct (`NeverTwiceExact`).
* What is read after a checkpoint and the lines before it are all lines of a grown file if and only if the file had
  ended on a line boundary or has not grown (`GrownFileReadsNewLines`).

Where comments and code disagree the code is followed: the comment on `Job::priority`
(ministr-mcp/src/admin/jobs/mod.rs:128-134) says the in-memory queue ignores priorities, but its `claim_next`
orders by priority and then by age; the comment on `daemon_for_project`
(ministr-backend/src/lib.rs:777-779) says unknown labels fall back to the default, but `for_project` refuses them.

Claims. The safety theorems about workers hold whichever pending job a queue hands out, so for every
`JobQueueBackend`. Only the theorems on drain order need an order, as a hypothesis on the claims of the run
(`ClaimsInOrder`): `OrderIsKept` takes any order on priority and age. The in-memory queue meets it with
`ByNegatedPriority`, the SQLite queue with age alone (ministr-mcp/src/admin/jobs/sqlite.rs:195-198); the Postgres
queue asks for priority and age but may pass over a row that another transaction holds
(ministr-mcp/src/admin/jobs/postgres.rs:332-337).

## Model

| member | source | states |
|---|---|---|
| EquivalenceClosure.LinkedKeepsMark | eval/corpus-code/union_find.java:62-65 | a marking equal on every united pair is constant on every class of the equivalence closure, the yardstick `connected` is held to |
| UnionFind.SingletonsInv | eval/corpus-code/union_find.java:16-24 | n fresh singletons satisfy the whole invariant with no pair united |
| UnionFind.HalvingKeepsRoots | eval/corpus-code/union_find.java:31-34 | one halving step keeps the forest and the representative of every element |
| UnionFind.FindKeepsRoots | eval/corpus-code/union_find.java:30-36 | a whole find, which rewrites the path it walks, changes no class |
| UnionFind.StepsPayTwoRanks | eval/corpus-code/union_find.java:31-34 | k iterations climb at least 2k - 1 ranks |
| UnionFind.FindIsLogarithmic | eval/corpus-code/union_find.java:26-36 | 2^(2k-1) never exceeds the class size after k iterations, so find is logarithmic |
| UnionFind.RankIsLogarithmic | eval/corpus-code/union_find.java:38-60 | every rank is at most log2 of the size of its class |
| UnionFind.AttachedInv | eval/corpus-code/union_find.java:49-58 | linking by rank merges exactly two classes, pays for the rank and lowers the root count by one |
| UnionFind.UnionInv | eval/corpus-code/union_find.java:43-60 | union keeps the invariant for the pair list extended by its arguments, linked before or not |
| UnionFind.SameRootIffLinked | eval/corpus-code/union_find.java:62-65 | equal representatives if and only if related by the closure of the united pairs |
| UnionFind.EveryRunIsCorrect | eval/corpus-code/union_find.java:8-9 | after every sequence of calls: connectivity is the closure, the counter is the number of roots, ranks grow and are paid for, find is logarithmic |
| UnionFind.DisjointSets.constructor | eval/corpus-code/union_find.java:17-24 | establishes the invariant with n singletons |
| UnionFind.DisjointSets.Find | eval/corpus-code/union_find.java:30-36 | returns the representative before and after, keeps all others, in logarithmically many steps |
| UnionFind.DisjointSets.LinkRoots | eval/corpus-code/union_find.java:46-59 | attaches the lower rank below the higher and reports whether it merged |
| UnionFind.DisjointSets.Union | eval/corpus-code/union_find.java:43-60 | returns true exactly when the arguments were not linked, and the counter falls exactly then |
| UnionFind.DisjointSets.Connected | eval/corpus-code/union_find.java:63-65 | answers membership in the closure of all pairs ever united |
| UnionFind.DisjointSets.Components | eval/corpus-code/union_find.java:67-70 | the counter is the number of roots |
| UnionFindCost.HighRanksAreRare | eval/corpus-code/union_find.java:46-59 | at most n / 2^k elements have rank k or more, roots or not |
| UnionFindCost.RunPays | eval/corpus-code/union_find.java:30-65 | after every sequence of calls, in each class the members of rank k or more cost 2^k members each |
| UnionFindCost.FindCost | eval/corpus-code/union_find.java:30-36 | a search pays for its iterations by what it shortens, up to one per rank group it crosses and one more |
| UnionFindCost.NearConstantTime | eval/corpus-code/union_find.java:8-9 | all iterations of every run on n elements with m searches are at most (n + m) * h when n is below a tower of h powers of two |
| UnionFindCost.FivePerSearch | eval/corpus-code/union_find.java:8-9 | for every n a Java int holds, at most 5 * (n + m) iterations in all |
| UnionFindCost.MakeCalls | eval/corpus-code/union_find.java:30-70 | an object taken through any calls is in the state of that run and has made its iterations |
| Gregorian.StepwiseUnique | ministr-api/src/iso8601.rs:29-31 | whatever starts at 1970-01-01 and steps by the leap rule is the calendar |
| Iso8601.YearOfEraExact | ministr-api/src/iso8601.rs:43 | the closed form recovers the year from every day of every year of an era |
| Iso8601.MonthStep | ministr-api/src/iso8601.rs:46-47 | the month formula steps to the next day or to the first of the next month |
| Iso8601.CivilStep | ministr-api/src/iso8601.rs:40-49 | the computed date of the next day is the calendar's next day |
| Iso8601.CivilIsCalendar | ministr-api/src/iso8601.rs:40-49 | for every day count the computed date is the one reached by stepping day by day |
| Iso8601.EraOf | ministr-api/src/iso8601.rs:41 | the branch and the truncating division together round down, also for negative days |
| Iso8601.EraDate | ministr-api/src/iso8601.rs:43-49 | the 64-bit computation, free of underflow and overflow, gives the date of the era day |
| Iso8601.CivilWords | ministr-api/src/iso8601.rs:40-49 | the 64-bit computation gives the same date as the unbounded one |
| Iso8601.BreakdownIsCalendar | ministr-api/src/iso8601.rs:34-49 | for every `u64` the date is the calendar's and the clock fields add up to the second of the day |
| Iso8601.NoFallbackTaken | ministr-api/src/iso8601.rs:35-44 | no `unwrap_or(0)` fallback is ever taken |
| Iso8601.FieldsName | ministr-api/src/iso8601.rs:34-49 | the six fields name the instant, for every `u64` |
| Iso8601.ReadUndoesPrint | ministr-api/src/iso8601.rs:50-54 | an RFC 3339 reader that knows nothing of the printer reads the six printed fields back |
| Iso8601.PrintUndoesRead | ministr-api/src/iso8601.rs:50-54 | every text that reader accepts is what the printer makes of its fields |
| Iso8601.FormatExact | ministr-api/src/iso8601.rs:34-55 | for every `u64`, a text reads as a stamp that names the instant if and only if it is the formatted one |
| Iso8601.PrintOrder | ministr-api/src/iso8601.rs:50-54 | text order of two printed stamps, exactly, for years of any length |
| Iso8601.LengthExact | ministr-api/src/iso8601.rs:88-95 | 20 characters if and only if before year 10000, never fewer |
| Iso8601.FormatInjective | ministr-api/src/iso8601.rs:34-56 | distinct instants print differently, on all of `u64` |
| Iso8601.StringOrderIsTimeOrder | ministr-api/src/iso8601.rs:34-56 | through year 9999 string order is time order, both ways |
| Iso8601.OrderExact | ministr-api/src/iso8601.rs:50-54 | on all of `u64`, when the earlier instant prints first |
| Iso8601.OrderBreaksAtYear10000 | ministr-api/src/iso8601.rs:50-54 | the two instants at the turn of year 10000 print in the wrong order |
| LruCache.HitsAreFresh | eval/corpus-code/lru_cache.py:26-42 | after every trace a hit returns the value most recently put |
| LruCache.HoldsMostRecent | eval/corpus-code/lru_cache.py:12-18 | after every trace the keys are the most recently used ones, in order of use |
| LruCache.CapacityInclusion | eval/corpus-code/lru_cache.py:26-42 | for every trace and capacities c1 <= c2 the smaller cache is the larger with entries left out, same values and order |
| LruCache.HitsAreMonotone | eval/corpus-code/lru_cache.py:26-42 | a hit in the smaller cache is a hit with the same value in the larger |
| LruCache.RunShape | eval/corpus-code/lru_cache.py:36-42 | keys stay distinct and the capacity is respected |
| LruCache.Cache.Get | eval/corpus-code/lru_cache.py:26-34 | hit moves the key to the recent end, miss changes nothing |
| LruCache.Cache.Put | eval/corpus-code/lru_cache.py:36-42 | inserts or updates as most recent and evicts the oldest over capacity |
| LruCache.NewCache | eval/corpus-code/lru_cache.py:20-24 | rejects exactly the capacities that are not positive |
| MemoFibonacci.MemoIsCorrect | eval/corpus-code/lru_cache.py:48-64 | any cache with correct entries gives the Fibonacci number and stays correct, whatever is evicted |
| MemoFibonacci.LinearCalls | eval/corpus-code/lru_cache.py:51-53 | from an empty cache with three places exactly 2n - 1 calls |
| MemoFibonacci.CallsByCapacity | eval/corpus-code/lru_cache.py:48-64 | the exact number of calls from a fresh cache of every capacity |
| MemoFibonacci.TwoPlacesDouble | eval/corpus-code/lru_cache.py:48-64 | with two places the calls more than double with every four arguments |
| MemoFibonacci.NaiveIsFibonacci | eval/corpus-code/lru_cache.py:51-53 | without help from the cache n costs 2 fib(n + 1) - 1 calls |
| MemoFibonacci.CallsExact | eval/corpus-code/lru_cache.py:48-64 | exactly which capacities and arguments give 2n - 1 calls |
| MemoFibonacci.Memoize | eval/corpus-code/lru_cache.py:57-64 | value, cache and number of calls of the recursive procedure |
| MemoFibonacci.MemoizeMiss | eval/corpus-code/lru_cache.py:62-64 | the same for the part after a miss |
| MemoFibonacci.MemoizeCorrectly | eval/corpus-code/lru_cache.py:48-64 | right answer and correct cache for any correct cache given |
| MemoFibonacci.MemoizeFresh | eval/corpus-code/lru_cache.py:55-64 | without a cache: right answer in 2n - 1 calls |
| Worker.AfterInv | ministr-cli/src/worker.rs:110-172 | every interleaving keeps rows, phases and history in agreement |
| Worker.NoJobHeldTwice | ministr-cli/src/worker.rs:18-25 | no job is in flight on two replicas |
| Worker.ClaimRunFinish | ministr-cli/src/worker.rs:20-21 | each claim of a replica gets exactly one run and one finish attempt before its next claim |
| Worker.CompletedIffSucceeded | ministr-cli/src/worker.rs:145-160 | Completed if and only if the runner returned Ok and the write succeeded |
| Worker.FailedIffErrored | ministr-cli/src/worker.rs:151-160 | Failed with a message if and only if the runner returned it and the write succeeded |
| Worker.ErrorIffFailed | ministr-cli/src/worker.rs:145-160 | a row carries an error message exactly when it is Failed |
| Worker.EnqueueWorks | ministr-mcp/src/admin/jobs/in_memory.rs:25-44 | a new job can always be enqueued and waits with the priority and age given |
| Worker.RankIsForGood | ministr-mcp/src/admin/jobs/in_memory.rs:61-66 | no later step changes a job's priority or age |
| Worker.OutcomeIsWritten | ministr-cli/src/worker.rs:141-160 | an executing replica can end its job with any outcome, and the row then says so |
| Worker.OutcomeIsLost | ministr-cli/src/worker.rs:160-171 | or the write fails, the row stays Running and the replica goes on |
| Worker.CancelWorks | ministr-cli/src/worker.rs:115-118 | a token can be fired at any time |
| Worker.StagesInOrder | ministr-cli/src/worker.rs:110-172 | no job is claimed, run or finished twice, and every stage belongs to the claiming replica |
| Worker.NoJobLost | ministr-cli/src/worker.rs:160-171 | every enqueued job is pending, held, orphaned by a lost finish, or closed, in exactly one of these |
| Worker.AtMostOneClaimAfterCancel | ministr-cli/src/worker.rs:115-120 | after its token fires a replica starts at most one more job |
| Worker.ExitsOnlyWhenCancelled | ministr-cli/src/worker.rs:106-118 | in every run a replica has left its loop only if its token was fired |
| Worker.ReachesClaim | ministr-cli/src/worker.rs:110-131 | from every reachable state a replica whose token has not fired can, by its own actions alone, claim any pending job |
| Worker.ReachesExit | ministr-cli/src/worker.rs:114-118 | from every reachable state a replica whose token has fired can leave by its own actions without another claim |
| Worker.TurnsAreSeparated | ministr-cli/src/worker.rs:114-139 | between two tests of its token a replica has finished a job or slept |
| Worker.OrderIsKept | ministr-mcp/src/admin/jobs/in_memory.rs:51-73 | in every run that claims by an order, whatever it is, a claim follows the claims of all preceding jobs enqueued before it |
| Worker.NegationExact | ministr-mcp/src/admin/jobs/in_memory.rs:58 | negated-priority order is priority order for a pair if and only if both or neither have the least priority |
| Worker.HigherPriorityFirst | ministr-mcp/src/admin/jobs/in_memory.rs:51-73 | against every claim of a job above the least priority the in-memory queue has claimed jobs of higher priority, then older ones, first |
| Worker.LeastPriorityWraps | ministr-mcp/src/admin/jobs/in_memory.rs:58 | a run in which the least priority is claimed before any other priority that should go first |
| Worker.PriorityOrderExact | ministr-mcp/src/admin/jobs/in_memory.rs:51-73 | for two priorities, every run puts the higher first if and only if the claimed one is not the least, or both are |
| Checkpoint.SupersedesPreorder | ministr-api/src/session_storage.rs:169-176 | `supersedes` is reflexive, total and transitive |
| Checkpoint.LoadAfterSave | ministr-api/src/session_storage.rs:237-253 | on lookups a save is a gated map update |
| Checkpoint.LoadAfterTouch | ministr-api/src/session_storage.rs:264-276 | a touch changes one timestamp and nothing else |
| Checkpoint.LoadAfterDelete | ministr-api/src/session_storage.rs:277-283 | a delete removes one key and nothing else |
| Checkpoint.SaveKeepsOneRow | ministr-api/src/session_storage.rs:204-208 | a save never creates a second row for a key |
| Checkpoint.OthersAreSeparate | ministr-api/src/session_storage.rs:237-262 | operations on another tenant or session leave a row as it is, and a row found is the tenant's and session's own |
| Checkpoint.SavedIsFound | ministr-api/src/session_storage.rs:237-262 | a saved session is found under its tenant and session id |
| Checkpoint.RevisionNeverFalls | ministr-api/src/session_storage.rs:27-31 | over saves and touches the stored revision never falls |
| Checkpoint.StaleSavesChangeNothing | ministr-api/src/session_storage.rs:204-208 | older saves and touches change nothing but the timestamp, so dropped identities stay dropped |
| Checkpoint.DeleteForgetsRevision | ministr-api/src/session_storage.rs:277-283 | whatever came before a delete, the row after it is the one the later operations leave on an empty store |
| Checkpoint.StoredSinceDelete | ministr-api/src/session_storage.rs:277-283 | every row is the one left by the operations since the last delete of its key |
| Checkpoint.HighestRevisionWins | ministr-api/src/session_storage.rs:27-31 | in every run, deletes included, the row is, up to its timestamp, a snapshot of the highest revision saved since the last delete |
| Checkpoint.DeliveryOrderIrrelevant | ministr-api/src/session_storage.rs:27-31 | the same saves in any order, repeated or not, leave the same row up to its timestamp when those of the highest revision agree |
| Checkpoint.DeliveryOrderExact | ministr-api/src/session_storage.rs:168-176 | order does not matter if and only if the live saves of the highest revision agree |
| Checkpoint.StampedOrderExact | ministr-api/src/session_storage.rs:168-176 | the same condition is exact when touches carry one timestamp later than the legacy saves |
| Checkpoint.BestIsStored | ministr-api/src/session_storage.rs:204-208 | without touches the row is a saved snapshot that supersedes every save since the last delete |
| Checkpoint.SavesOrderExact | ministr-api/src/session_storage.rs:204-208 | without touches the order of saves does not show, timestamp included, if and only if the snapshots that supersede all are equal |
| Checkpoint.TouchKeepsOlderSave | ministr-api/src/session_storage.rs:171 | with formatted timestamps a touch between two legacy saves keeps the older one |
| Checkpoint.TiesKeepDeliveryOrder | ministr-api/src/session_storage.rs:174 | with one nonzero revision twice the later delivery stays |
| Checkpoint.LegacyOrderIsTimeOrder | ministr-api/src/session_storage.rs:171 | legacy rows stamped by the formatter compare by real time through year 9999 |
| Checkpoint.LegacyLatestWins | ministr-api/src/session_storage.rs:164-171 | stamped legacy saves leave one of the latest |
| Checkpoint.Storage.Save | ministr-api/src/session_storage.rs:237-253 | find the row, replace it if superseded, append otherwise |
| Checkpoint.Storage.Fetch | ministr-api/src/session_storage.rs:254-262 | the row the history of operations left, or none |
| Checkpoint.Storage.Touch | ministr-api/src/session_storage.rs:264-276 | updates the timestamp of the row in place |
| Checkpoint.Storage.Remove | ministr-api/src/session_storage.rs:277-283 | keeps the rows of other keys |
| Pagination.PaginatorsAgree | ministr-backend/src/lib.rs:291-380 | the related and impact paginators are the reference paginator up to the cursor prefix, and the impact summary stays whole |
| Pagination.CollectionAccounts | ministr-backend/src/lib.rs:266-289 | min(offset, total) + page + omitted = total, and a next cursor exactly when there is more |
| Pagination.ItemsAccount | ministr-backend/src/lib.rs:212-264 | the same for the item paginators |
| Pagination.Clamp | ministr-backend/src/lib.rs:220 | the admissible page size nearest to the requested one |
| Pagination.CollectionPage | ministr-backend/src/lib.rs:266-289 | a collection page holds the items from the requested offset on, one by one |
| Pagination.RequestedPage | ministr-backend/src/lib.rs:240-241 | without a cursor the page starts at the requested offset, or at the beginning, and its i-th item is the i-th from there |
| Pagination.NumeralPage | ministr-backend/src/lib.rs:233-239 | a numeral, bare or after `offset:`, overrides the requested offset; anything else that is no item cursor is refused |
| Pagination.ParseExact | ministr-backend/src/lib.rs:233-239 | exactly the numerals in range parse, with or without a plus sign |
| Pagination.ItemCursorPage | ministr-backend/src/lib.rs:222-232 | an item cursor starts the page right after the first item that carries it and overrides the requested offset |
| Pagination.Position | ministr-backend/src/lib.rs:222-227 | the first item with the cursor, or none has it |
| Pagination.FollowingCoversList | ministr-backend/src/lib.rs:221-264 | for every chain followed to its end: it is the whole list in order if and only if every boundary inside the list resumes, and then has ceil(total / limit) pages, one if empty |
| Pagination.ChainLength | ministr-backend/src/lib.rs:221-264 | a finished chain returns the list's length plus what its last page lags behind |
| Pagination.FollowingSkipsNothing | ministr-backend/src/lib.rs:221-264 | whatever the cursors, a finished chain has shown every item |
| Pagination.FollowingEnds | ministr-backend/src/lib.rs:242-264 | following reaches a page without more when the boundaries inside the list resume |
| Pagination.CoverageExact | ministr-backend/src/lib.rs:221-264 | some chain covers the list if and only if the boundaries inside it resume |
| Pagination.UniqueCursorsCover | ministr-backend/src/lib.rs:221-264 | with distinct cursors a chain exists and every chain covers the list, at every limit |
| Pagination.SharedCursorStepsBack | ministr-backend/src/lib.rs:222-227 | when an earlier item shares a page's last cursor the next page starts right after the first that does |
| Pagination.TwinShownAgain | ministr-backend/src/lib.rs:222-227 | a list with a shared cursor whose chain shows an item twice |
| Pagination.TwinNeverEnds | ministr-backend/src/lib.rs:222-227 | the same list in pages of one: no chain ends |
| Pagination.OffsetCursorRoundTrip | ministr-backend/src/lib.rs:233-239 | an offset cursor resumes at the offset it was printed from |
| Pagination.FollowingOffsetsCoversList | ministr-backend/src/lib.rs:274-286 | following offset cursors yields the whole list in order |
| Pagination.FollowingOffsetsEnds | ministr-backend/src/lib.rs:274-286 | following offset cursors always ends |
| Pagination.EditsBeforeCursor | ministr-backend/src/lib.rs:221-232 | edits before the cursor item leave the next page, its cursor and its remaining count unchanged |
| Pagination.GoneCursorFails | ministr-backend/src/lib.rs:228-232 | the call fails exactly when no item carries the cursor |
| Compression.CompressLocal | ministr-backend/src/local.rs:310-333 | compressing one by one, stopping at the first error |
| Compression.FillQueues | ministr-backend/src/lib.rs:191-200 | one queue per content id, in delivery order |
| Compression.MatchItems | ministr-backend/src/lib.rs:201-209 | the n-th item with an id goes to the n-th identity with that id |
| Compression.CompressBatch | ministr-backend/src/lib.rs:182-210 | returns what compressing one by one returns |
| Compression.BatchIsOneByOne | ministr-backend/src/lib.rs:182-210 | batch and one-by-one agree for every list of identities, repeated ids and errors included |
| Compression.PairsMatch | ministr-backend/src/lib.rs:201-209 | whatever the service answers, pairs match on the id |
| Compression.ServedInQueueOrder | ministr-backend/src/lib.rs:201-209 | whatever the service answers, identities are used first come first served and at most once |
| TokenBucket.RateBound | eval/corpus-code/rate_limiter.rs:37-53 | between calls at times s <= t at most capacity + rate * (t - s) admissions, in every run |
| TokenBucket.RateBoundExact | eval/corpus-code/rate_limiter.rs:24-53 | the bound holds in every run if and only if capacity and rate are not negative |
| TokenBucket.BurstExact | eval/corpus-code/rate_limiter.rs:22-53 | of the calls at the creation time exactly the first floor(capacity) are admitted |
| TokenBucket.TimeUntilTokenExact | eval/corpus-code/rate_limiter.rs:55-65 | exactly when the answer is the least wait since the last refill after which a call is admitted |
| TokenBucket.CallerWaitExact | eval/corpus-code/rate_limiter.rs:55-65 | exactly when the answer is what a caller must wait, for a call at any time |
| TokenBucket.AccruingWait | eval/corpus-code/rate_limiter.rs:55-65 | what a caller must wait at any time: the answer less the time since the last refill |
| TokenBucket.StaleAnswer | eval/corpus-code/rate_limiter.rs:55-65 | a bucket that would admit at once and answers a second |
| TokenBucket.Limiter.Refill | eval/corpus-code/rate_limiter.rs:37-41 | adds what accrued, up to the capacity, and moves the clock |
| TokenBucket.Limiter.TryAdmit | eval/corpus-code/rate_limiter.rs:45-53 | admits and spends one token exactly when one is there |
| TokenBucket.Limiter.TimeUntil | eval/corpus-code/rate_limiter.rs:59-65 | the least wait since the last refill when tokens accrue and one fits, and exactly when it is the caller's |
| TokenBucket.TryAll | eval/corpus-code/rate_limiter.rs:45-53 | a caller's answers are the admissions of the run |
| PercentEncoding.EncodePathComponent | ministr-api/src/client.rs:1671-1686 | the byte loop produces the encoding, and decoding gives the bytes back |
| PercentEncoding.DecodeUndoesEncode | ministr-api/src/client.rs:1668-1686 | decoding undoes encoding for every byte string |
| PercentEncoding.EncodeInjective | ministr-api/src/client.rs:1668-1686 | different byte strings encode differently |
| PercentEncoding.EncodedIsSafe | ministr-api/src/client.rs:1676-1683 | the output holds none of `/ ? # & =` |
| PercentEncoding.ByteExact | ministr-api/src/client.rs:1676-1683 | letters, digits and six marks stand for themselves, every other byte is a percent sign and two upper-case hexadecimal digits |
| PercentEncoding.ParseUndoesBuild | ministr-api/src/client.rs:781-785 | splitting on `&` and `=` and decoding gives back exactly the pairs rendered, in order |
| PercentEncoding.SymbolAndQuery | ministr-api/src/client.rs:781-786 | the encoded symbol ends at the first `?` or at the end, so symbol and query, empty or not, are both recovered |
| RequestQueries.ParamsRecovered | ministr-api/src/client.rs:761-786 | the symbol is recovered, and each optional parameter is found exactly when given, with the value given |
| RequestQueries.ReferencesSuffix | ministr-api/src/client.rs:762-785 | the reference query renders exactly its parameters |
| RequestQueries.ImpactSuffix | ministr-api/src/client.rs:851-877 | the impact query renders exactly its parameters |
| RequestQueries.DefinitionSuffix | ministr-api/src/client.rs:699-725 | the definition query renders exactly its parameters |
| RequestQueries.ReferencesRoundTrip | ministr-api/src/client.rs:761-787 | the server reads back symbol and reference request, numbers included; a false flag looks unset |
| RequestQueries.ImpactRoundTrip | ministr-api/src/client.rs:850-878 | the server reads back symbol and impact request, every field |
| RequestQueries.DefinitionRoundTrip | ministr-api/src/client.rs:698-727 | the server reads back symbol and definition request, numbers and booleans included |
| JsonWalk.Visit | benchmarks/agent-task/run_sxs.py:676-692 | the stack loop visits in the order of the recursive walk |
| JsonWalk.WalkVisitsEachOnce | benchmarks/agent-task/run_sxs.py:676-692 | the walk is a rearrangement of document order: every node exactly once |
| Transcript.ScanEvent | benchmarks/agent-task/run_sxs.py:676-692 | the stack loop on one line makes exactly the writes of the recursive definition, and raises exactly on ids that cannot be keys |
| Transcript.RaisesExactly | benchmarks/agent-task/run_sxs.py:686-689 | a line raises exactly when one of the keys it would write is a list or a dictionary, which no dictionary takes as a key |
| Transcript.IdExact | benchmarks/agent-task/run_sxs.py:686-688 | an id counts as given unless it is missing, null, false, zero or empty |
| Transcript.KeyExact | benchmarks/agent-task/run_sxs.py:687-689 | two values are one key exactly when they are equal, or equal as numbers |
| Transcript.ResultIsRecorded | benchmarks/agent-task/run_sxs.py:688-689 | a tool result is recorded under the id it answers |
| Transcript.LinesExact | benchmarks/agent-task/run_sxs.py:672 | splitting into lines cuts right after every newline and nowhere else, and loses nothing |
| Transcript.ScanFile | benchmarks/agent-task/run_sxs.py:664-693 | a file contributes the tool uses and results of its lines in order; lines that do not parse contribute nothing |
| Transcript.NewRecords | benchmarks/agent-task/run_sxs.py:696-710 | files are scanned from their checkpoints, and their uses and results merged |
| Transcript.CountPass | benchmarks/agent-task/run_sxs.py:725-731 | the number of keys whose last event is a call, an error exactly for an id that cannot be a key or a last name that is not a string, and never more than distinct ids plus events without an id, with the exact condition for equality |
| Transcript.CountCalls | benchmarks/agent-task/run_sxs.py:722-734 | polls until a pass finds a call or raises or the deadline has passed, and returns what that pass must answer |
| Transcript.GrownFileReadsNewLines | benchmarks/agent-task/run_sxs.py:669-671 | a grown file is read from where it had ended, and nothing is cut if and only if that was a line boundary |
| Transcript.TruncatedFileReadsAll | benchmarks/agent-task/run_sxs.py:705-706 | a truncated file is read whole |
| Transcript.OnlyNewLinesCount | benchmarks/agent-task/run_sxs.py:652-661 | over grown files only the added text counts |
| Transcript.PlaceKeyInjective | benchmarks/agent-task/run_sxs.py:683-686 | different places have different keys, whatever colons the paths hold |
| Transcript.FoundIsMatching | benchmarks/agent-task/run_sxs.py:687 | all matching keys are counted if and only if no matching event is displaced by a last one under its key that does not match |
| Transcript.CountExact | benchmarks/agent-task/run_sxs.py:713-733 | the count never exceeds distinct matching ids plus matching events without an id, and equals it if and only if no id spells a place and none is displaced |
| Transcript.MatchesExactly | benchmarks/agent-task/run_sxs.py:728-731 | a call counts exactly when its name starts with the server's prefix |
| Transcript.NameExact | benchmarks/agent-task/run_sxs.py:730 | a missing name is no call, and exactly a name that is not a string raises |
| Transcript.DisplacedCallIsLost | benchmarks/agent-task/run_sxs.py:687 | a file whose one call is displaced under its id counts none |
| Transcript.SpelledPlaceIsLost | benchmarks/agent-task/run_sxs.py:686-687 | a file whose two calls share a key, one by id and one by place, counts one |
| Routing.FirstLabelStays | ministr-backend/src/lib.rs:562-570 | whatever is set later, the first non-blank label stays, trimmed |
| Routing.PrimaryLabel.Set | ministr-backend/src/lib.rs:565-570 | records only a first non-blank label |
| Routing.TrimCuts | ministr-backend/src/lib.rs:567-568 | trimming takes blanks off both ends and nothing else |
| Routing.MatchExact | ministr-backend/src/lib.rs:577-586 | a stored label matches exactly its spellings: blanks around it and ASCII case do not matter, anything else does |
| Routing.ResolutionExact | ministr-backend/src/daemon_multi.rs:73-93 | no project is the primary; a linked label always wins, then the primary's corpus id or a spelling of its label, then linked corpus ids; every other name is refused with the accepted routes |
| Routing.ResolutionDeterministic | ministr-backend/src/daemon_multi.rs:73-93 | exactly when the iteration order of the label map cannot change what a name resolves to |
| Routing.LabelsSorted | ministr-backend/src/daemon_multi.rs:95-101 | the labels are the linked labels in lexical order |
| Routing.LabelsDeterministic | ministr-backend/src/daemon_multi.rs:95-101 | the iteration order of the map does not show |
| Routing.RoutesExact | ministr-backend/src/daemon_multi.rs:52-63 | the listed routes are the primary's label first and exactly the linked labels |
| Routing.ListedRoutesResolve | ministr-backend/src/daemon_multi.rs:54-92 | every route an unknown-project error lists resolves |
| Routing.ListedRoutesAccepted | ministr-backend/src/lib.rs:632-707 | the same for every kind of backend through `routed_corpus_id` |
| Routing.BackendRoutesExact | ministr-backend/src/lib.rs:689-698 | the same for every kind of backend |
| Routing.RoutedCorpusExact | ministr-backend/src/lib.rs:632-647 | which corpus id each kind of backend returns, and for which names |
| Routing.BackendsSorted | ministr-backend/src/daemon_multi.rs:110-117 | the primary first, then every linked backend in corpus-id order |
| Routing.BackendsDeterministic | ministr-backend/src/daemon_multi.rs:108-117 | exactly when the iteration order of the label map cannot change the order of all backends |
| Routing.DropDeliveries | ministr-backend/src/lib.rs:856-872 | one call per backend in order, stopping at the first failure |
| Routing.DropConservation | ministr-backend/src/lib.rs:856-872 | each occurrence of an identity is dropped once per backend of its corpus |
| Routing.EachIdentityToItsOwner | ministr-backend/src/lib.rs:837-872 | with distinct corpus ids each identity goes to exactly its owner or to none, and bare ids only to the primary |
| Routing.SharedCorpusDropsTwice | ministr-backend/src/lib.rs:858-869 | a corpus served twice has its identities dropped at least twice |
| Routing.DroppedOnceExact | ministr-backend/src/lib.rs:856-872 | an identity is dropped as often as asked if and only if exactly one backend serves its corpus |
| Routing.NeverTwiceExact | ministr-backend/src/lib.rs:856-872 | no identity is ever dropped twice if and only if corpus ids are distinct |
| Sorting.SortIsSorted | eval/corpus/vector_store.rs:65-71 | sorting gives a sorted permutation |
| Knn.KnnSearch | eval/corpus/vector_store.rs:54-75 | scoring, sorting and truncating returns the exact ranking: min(k, n) distinct entries, best first, none left out that ranks before one returned |
| Knn.SearchIsExact | eval/corpus/vector_store.rs:39-75 | min(k, n) distinct entries with their scores, best first, and every entry left out ranks after every entry returned |
| Knn.SearchIsPrefix | eval/corpus/vector_store.rs:73 | the result for k is a prefix of the result for more |
| Knn.RankingIsDeterministic | eval/corpus/vector_store.rs:50-53 | no other sorted list of the scored entries exists |
| Knn.DotAdds | eval/corpus/vector_store.rs:13-16 | the dot product is additive |
| Knn.DotUnit | eval/corpus/vector_store.rs:13-16 | the dot product with the i-th unit vector is the i-th component |
| Knn.CosineExact | eval/corpus/vector_store.rs:29-37 | the score times the two lengths is the dot product, and zero when a length is |
| Knn.CauchySchwarz | eval/corpus/vector_store.rs:13-16 | dot(a, b)^2 <= dot(a, a) * dot(b, b), also for vectors of different lengths |
| Knn.ScoreIgnoresMagnitude | eval/corpus/vector_store.rs:18-23 | stretching either vector by any positive factor changes no score |
| Knn.SearchIgnoresMagnitude | eval/corpus/vector_store.rs:18-23 | stretching the query and each corpus vector by positive factors changes no search result |
| Knn.CosineSymmetric | eval/corpus/vector_store.rs:29-37 | the score does not depend on which vector comes first |
| Knn.SelfScoreIsOne | eval/corpus/vector_store.rs:29-37 | a nonzero vector scores one against itself, a zero vector zero |
| Knn.ScoreInRange | eval/corpus/vector_store.rs:29-37 | every score lies in [-1, 1] |

## Left out

- Timed reclaim of orphaned jobs: a job whose finish was lost stays orphaned in the model; with reclaim it may run again.
- Queue errors that hide a committed write: a failed claim or finish is modelled as having had no effect.
- Job progress reporting, the ingestion runner and `resolve_sources`: calls into storage and embedding, and one easy match.
- Floating-point rounding, infinities and NaN in the token bucket and the similarity scores: modelled over `real`.
- The hashes behind item cursors: a cursor is any function of the item; the theorems say what they need of it.
- Universal newlines in transcripts: lines end at a line feed only, and decoding of bytes belongs to the parser parameter.
- `bash_grep_outcome`: the tool results it reads are modelled, its use of them is one easy match.
- The corpus id in request paths: it is not encoded by the client, so nothing is claimed about recovering it.
- Registry tenancy checks and lazy restore, and the per-method dispatch of the backend enum: repeated branching over unseen stores.
- Response metadata carried through the paginators unchanged, and the serialisation of snapshots.
- HTTP transport, process handling, wire types and router assembly: plumbing without algorithms of its own.
