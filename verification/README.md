# Verified model of the plugin service

The service keeps a registry of protobuf plugins, runs them for its callers, and
records what it did. This project models the parts of it where a mistake would be
hard to see: the protocols between goroutines, the paging of a changing table, the
bookkeeping of the plugin cache and of the audit log, and the reading, checking,
merging and printing of the configuration. Each module says in its first lines
which source file it follows.

How the code appears here:

- Code that computes a value is a function; code that changes things is a method or
  a class proved against a specification, and the theorems are about that
  specification.
- Goroutines are state machines. A step is one channel operation, one atomic store,
  one critical section or one recovered panic; a run is any list of enabled steps,
  so a theorem over runs is a theorem over interleavings.
- What the service cannot decide is a parameter: what a plugin process, a database
  write or a file operation answers, when a context ends, how the database orders
  text, what a random draw gives. A clock may move forward between any two readings.

| file | what it models |
|---|---|
| Levenshtein, Hints | edit distance as the length of a shortest script; the key suggested for a misspelt one |
| WorkerPool, GenLimiter, Generation | the worker pool, the limit on plugin processes, retried generation |
| Sql, Listing, Pagination, Statements | statements with numbered placeholders, keyset paging, the client's walk over pages |
| Descriptors | dependency-first collection of file descriptors |
| PluginCache | the least-recently-used index of unpacked plugins |
| AuditWorker | batched audit writes |
| Partitions, Maintenance, Creation | monthly partitions and their upkeep |
| LexicalPath, Unpack, UnpackDisk, UnpackLinks, UnpackContents | which archive entries and links are accepted, what they do to a disk with links, and where those lead |
| GoInt, Backoff | retry delays in wrapping 64-bit arithmetic |
| EnvTag, Fields, Yaml, ConfigPrint | the list of settings, and printing it so that it reads back |
| Document, Schema, YamlAlias, AliasTables, MergeKeys | checking a file's keys, renaming former ones, and the keys a merge key brings in |
| Merge, ConfigFile | environment over file over default, and a file from its keys to its settings |
| Strings | the few library functions on text the rest relies on |

## Where the code and its description part

- `acquire` is documented to admit callers up to the depth of the wait line and to
  refuse what lies beyond it. A caller can also be refused while the line is empty:
  a refusal raises the counter before it lowers it again
  (`GenLimiter.RefusedOverAnEmptyLine`; `GenLimiter.RefusedIff` says exactly when).
- `Shutdown` returns 0 when all workers have finished. In a pool that was never
  started that is at once, with jobs still queued (`WorkerPool.PoolNeverStarted`;
  `WorkerPool.ShutdownAnswersEveryone` says exactly when every job was answered).
- A batch whose write panics is dropped without being counted (`AuditWorker.PanickedIsUncounted`),
  so the audit counters and the writes the database acknowledged account for every
  event exactly when no write panics (`AuditWorker.CountersAccountIff`). A write that
  takes effect and still reports an error is stored and counted as lost; to the worker
  it is one that failed, and so it is in the model.
- `evict` is documented to skip entries younger than the minimum age. Between the choice
  of a victim and its removal the directory may be used again, and is then removed at
  any age (`PluginCache.RenewedVictimIsRemoved`; `PluginCache.KeepsAgeIff` says exactly
  when the promise holds).
- `Maintain` is documented so that a wedged month cannot stop retention. It returns before
  retention when creation fails (`Creation.WedgedMonthStopsRetention`;
  `Creation.ExpiredSurviveIff` says exactly when an expired month survives, and
  `Creation.CreationIff` when creation fails).
- `Unpack` is documented never to write a regular file through an existing link, since
  parent directories are made as real ones. Making them follows links that are there, so
  a file beneath the name of an earlier link entry is written through it
  (`UnpackDisk.WrittenThroughLink`); an archive writes nothing through links exactly if
  it has no entry in such a place (`UnpackDisk.NeverThroughLinkIff`). For archives of that
  kind everything that is written stays inside the root on the disk
  (`UnpackDisk.WritesStayInside`); for others the model claims it only lexically.
- `Unpack` is documented to reject links that point outside the directory being unpacked
  into. It cleans a target as text, where `..` takes back the name before it; on the disk
  `..` leaves the place that name leads to. Two accepted links, neither beneath the other,
  can so make one that leads outside (`UnpackLinks.AcceptedLinkLeadsOut`). The promise
  holds for a target that meets no other link (`UnpackLinks.LinkLeadsBelow`), and, with no
  entry beneath a link, for every archive whose targets have their `..` before their first
  name, through any chain of links (`UnpackLinks.ArchiveStaysInside`). Neither is
  necessary: whether a target that climbs after a name stays inside depends on where the
  other links of the archive lead.
- `checkSymlinkTarget` decides containment exactly for roots whose last component is
  a name. Below `/` and `.` it refuses links that stay inside, and below `..` it
  accepts one that leaves (`Unpack.DecidesIffAnchored`).
- The documented backoff formula holds at every attempt for a positive base and a cap of
  at most 2^62 whose product is at most 2^63 (`Backoff.Exact`). For all bases and caps,
  `Backoff.AlwaysExactIff` says exactly when it does. It fails for a base of zero, which
  waits the whole cap every time (`Backoff.ZeroBaseWaitsTheCap`), for a small base under
  a cap beyond 2^62 (`Backoff.HugeCapJumps`), and when a shift wraps to a shorter delay
  (`Backoff.WrapsToAShorterDelay`). A negative number of retries makes no call and
  reports success, and so does the largest integer, whose successor wraps: in the client
  (`Backoff.Invoke`) and in the pool (`Generation.GenerateWithRetries`).
- An in-place table of former names is documented as enough for renaming keys. A key
  that itself contains a dot can be renamed into another former name, which then
  stays (`AliasTables.DottedKeyLeavesOldName`; `AliasTables.TableIsSafeIff` says for
  which tables no document is left with one in writing).
- The check for unknown keys compares dotted names. A setting written as one key with a dot
  in it draws no complaint although nothing reads it (`Schema.DottedKeyIsIgnored`), nor
  does an empty key at the root, which has the dotted name of the document
  (`Schema.EmptyKeyIsAGroup`). Of the keys written inside the groups of settings the
  check lets through no other by mistake (`Schema.SilentlyIgnoredIff`).
- What a merge key brings in is documented as checked where it is written. The check and
  the renaming skip merge keys, and a block may be written in a place the check does not
  enter, such as an anchor holder: a misspelt key in it takes effect, is read by nothing and
  draws no complaint (`MergeKeys.MergedKeyIsIgnored`; `MergeKeys.UnreportedIff` says
  exactly which keys that take effect go unreported). A former key brought in that way
  stays (`MergeKeys.MergedFormerKeyIsLeft`; `MergeKeys.FormerKeysLeftIff` says exactly when
  none does).
- The number `EnsurePartitions` returns counts statements, including those that found
  the partition in place (`Maintenance.Maintainer.EnsurePartitions`).

## Model

| member | source | states |
|---|---|---|
| Levenshtein.EditDistance | internal/config/diagnostics.go:403-431 | the two-row loop computes one cell of the full distance table, for sequences of any items |
| Levenshtein.CellIsShortest | internal/config/diagnostics.go:402-431 | that cell is the length of a shortest script of insertions, deletions and substitutions, and no other number is |
| Levenshtein.ShortestIsAMetric | internal/config/diagnostics.go:402-431 | lengths of shortest scripts are a metric: zero iff equal, symmetric, triangle inequality |
| Hints.Normalise | internal/config/diagnostics.go:386-400 | the byte loop drops separators and folds A to Z, giving the UTF-8 of the letters left |
| Hints.Utf8Shape | internal/config/diagnostics.go:386-400 | the bytes written for a letter have the lead and continuation ranges of section 3 of RFC 3629, which with its code point leaves one choice for each |
| Hints.SameSpelling | internal/config/diagnostics.go:355-364 | two keys normalise to the same bytes iff they can be read side by side, skipping - and _, with every pair one character or the two cases of a letter from A to Z |
| Hints.DistancesAreShortest | internal/config/diagnostics.go:366-372 | what the candidates are compared by is the length of a shortest script between the normalised spellings |
| Hints.FirstMinimumIsUnique | internal/config/diagnostics.go:355-377 | at most one candidate is the first at minimal distance |
| Hints.BestMatch | internal/config/diagnostics.go:355-377 | both passes together return the first candidate at minimal distance, the length of a shortest script between the normalised spellings, iff that is at most 2 |
| WorkerPool.StepKeepsInv | internal/core/pool.go:254-363 | every step of submit, hand-off, take, answer, panic, recover, cancel and close keeps the invariant |
| WorkerPool.EveryJobIsInOnePlace | internal/core/pool.go:254-363 | in every reachable state the queue is bounded, jobs leave it in order, and each accepted job is in exactly one of queue, one worker, answered, and answered at most once |
| WorkerPool.RepliesNeverBlock | internal/core/pool.go:273-316 | a worker about to reply, after a lookup or a panic, always finds the one-slot channel free |
| WorkerPool.CallerIsTold | internal/core/pool.go:254-363 | over every run: a caller returns a reply iff its worker gave its job that reply before it received, or panicked over it unanswered; it has given up iff it was cancelled; else it waits; and no job is given two replies |
| WorkerPool.FailureMeansPanic | internal/core/pool.go:286-316 | the failure that stands for a panic is told after a panic alone |
| WorkerPool.PanicAfterAnswer | internal/core/pool.go:273-316 | a panic after the answer changes nothing: the caller receives the answer and the worker is idle again |
| WorkerPool.AnswerCanBeReceived | internal/core/pool.go:355-359 | a caller whose job is answered can always receive |
| WorkerPool.TurnedAwayIff | internal/core/pool.go:328-352 | a caller is refused iff the pool is closed, and told of overload iff as many jobs as the queue holds are accepted and not taken |
| WorkerPool.WorkersSurvive | internal/core/pool.go:247-316 | panics cost no worker: none ends before the queue is closed and empty |
| WorkerPool.ShutdownAnswersEveryone | internal/core/pool.go:487-506 | once all workers are done, every accepted job was answered iff there were workers or nothing was queued |
| WorkerPool.PoolNeverStarted | internal/core/pool.go:487-506 | without Start, Shutdown can report 0 over an accepted job that nobody answered |
| WorkerPool.WorkerStepsRunOut | internal/core/pool.go:254-316 | in a closed pool each worker step lowers a measure that no other step raises |
| WorkerPool.ClosedPoolDrains | internal/core/pool.go:254-316 | in a closed pool some worker can always move until all have stopped |
| GenLimiter.StepKeepsInv | internal/core/pool.go:220-244 | every step keeps slots held equal to their owners and the counter equal to the admitted plus refusals under way |
| GenLimiter.LimitsHold | internal/core/pool.go:220-244 | over every interleaving slots held and admitted waiters stay within their limits, even while the counter overshoots |
| GenLimiter.Quiescence | internal/core/pool.go:220-244 | both counts are zero iff no caller is inside |
| GenLimiter.RefusedIff | internal/core/pool.go:222-227 | a caller is refused iff admitted callers and refusals under way fill the line |
| GenLimiter.RefusedOverAnEmptyLine | internal/core/pool.go:214-227 | a reachable state in which a caller is refused and nobody waits |
| GenLimiter.CallersKeepOrder | internal/core/pool.go:220-244 | in every interleaving each caller takes its steps in order: a slot or the line, admission or refusal, a slot or the end of its patience, a release for every slot |
| GenLimiter.CallerGetsOut | internal/core/pool.go:220-244 | and any caller can be out in at most three steps of its own |
| GenLimiter.WaitingGetsSlot | internal/core/pool.go:231-244 | a waiting caller runs as soon as a slot is free for it |
| Generation.GenerateWithRetries | internal/core/pool.go:421-455 | the first attempt that is not a transient failure decides, or else the last; the counts of runs and retries are exact, including the counts of retries that run nothing |
| Backoff.ExactIff | sdk/retry.go:97-110 | for any base, cap and attempt: the delay is min(base * 2^attempt, cap) iff a shift that is used has not wrapped, and where none is used the cap is no longer than the formula's delay |
| Backoff.AlwaysExactIff | sdk/retry.go:97-110 | for which bases and caps every attempt is exact |
| Backoff.Exact | sdk/retry.go:97-110 | in particular for a positive base and a cap of at most 2^62 with base * cap at most 2^63 |
| Backoff.Monotone | sdk/retry.go:97-110 | and under those bounds later attempts never wait less |
| Backoff.WrapsToAShorterDelay | sdk/retry.go:97-110 | a base and cap for which a later attempt waits less than the first |
| Backoff.ZeroBaseWaitsTheCap | sdk/retry.go:97-110 | with a base of zero every attempt waits the cap, where the formula waits nothing |
| Backoff.HugeCapJumps | sdk/retry.go:99-110 | under the largest cap, attempt 62 waits it where the formula waits 2^62 |
| Backoff.JitterNeedsRoom | sdk/retry.go:112-114 | adding jitter never shortens a delay iff a quarter more still fits int64 |
| Backoff.QuarterTruncates | sdk/retry.go:112 | a quarter of a delay is cut off towards zero |
| Backoff.BackoffDelay | sdk/retry.go:97-120 | the result is the delay plus the draw, wrapped, under the cap; with room for the jitter it is no less than the delay, by at most a quarter of it more, and under the cap; the draw panics iff the cap is -4 or less |
| Backoff.Invoke | sdk/retry.go:18-54 | which attempt ends a call, with what outcome, after which waits, including the counts of retries that make no call |
| Descriptors.Collector.Collect | cmd/easyp-svc/descriptor.go:64-81 | one call appends what its file reaches and had not been seen, keeping the list distinct and ordered |
| Descriptors.CollectFileDescriptors | cmd/easyp-svc/descriptor.go:64-81 | the list holds exactly the files the root reaches, once each, and dependencies come first iff nothing reached imports its way back to itself |
| Listing.CutIsUnique | internal/adapters/registry/registry.go:388-395 | the first rows of a set in the total order of the key are determined, with or without a limit |
| Listing.BuildQuery | internal/adapters/registry/registry.go:339-395 | the placeholders read 1 to the number of arguments, and over those arguments clauses and limit mean the filter, the key and the size |
| Listing.List | internal/adapters/registry/registry.go:339-410 | for every filter, page and table: exactly the matching rows after the key, in order, cut at the size; groups do not descend, nor names within a group, nor versions within a name |
| Listing.LeftOutIff | internal/adapters/registry/registry.go:339-375 | a row is left out iff a part that is asked for differs or a tag that is asked for is missing |
| Pagination.ListPage | internal/core/core.go:126-163 | one page of the wanted rows, and a continuation key, its last row's, iff more remain; a size of 1 to 1000 is honoured, a larger one gives 1000, any other 100 |
| Pagination.ListPlugins | sdk/client.go:129-177 | the client's loop over a table that changes between its calls: keys strictly increase, every row was there and matched, every key that matched throughout is returned; an error means every call was used up |
| Pagination.FinishedWalk | sdk/client.go:151-171 | so for every finished walk, whatever served its pages |
| Pagination.QuietWalk | sdk/client.go:151-171 | over an unchanging table the result is the whole filtered listing in order |
| Pagination.QuietWalkSucceedsIff | sdk/client.go:151-171 | and the walk ends within the calls it gets iff they hold every row |
| Statements.BuildUpdate | internal/adapters/registry/registry.go:707-730 | the placeholders read 1 to the number of arguments and the statement means the masked update, on every table |
| Statements.Update | internal/adapters/registry/registry.go:672-753 | each refusal and its condition; otherwise only the row of the key changes, and only where the mask says |
| Statements.BuildInsert | internal/adapters/audit/audit.go:69-116 | all placeholders read 1 to the number of arguments, and in every row each column, in the order in which the statement names them, gets the part of the entry it is named for |
| PluginCache.EveryBoundaryAgrees | internal/adapters/registry/cache.go:123-236 | after any interleaving of critical sections the total is the sum of the entries' sizes |
| PluginCache.EntryFollowsRun | internal/adapters/registry/cache.go:123-236 | after any sections a directory is there iff it was recorded or found and not forgotten since, with the size measured when it was, and the instant of its last use |
| PluginCache.PluginCache.TouchDir | internal/adapters/registry/cache.go:174-189 | the critical section of touch |
| PluginCache.PluginCache.ForgetDir | internal/adapters/registry/cache.go:219-236 | the critical section of forget |
| PluginCache.PluginCache.NextVictim | internal/adapters/registry/cache.go:274-306 | whatever the map order: a least recently used entry no younger than the cutoff, or none because none is needed or allowed |
| PluginCache.PluginCache.Evict | internal/adapters/registry/cache.go:243-271 | a solo eviction ends, removes victims one by one while over the limit, and leaves the total within it or every survivor newer than the cutoff |
| PluginCache.OldestFirst | internal/adapters/registry/cache.go:243-306 | victims are the least recently used of the whole cache, in order, never younger than the cutoff, each removed while over the limit |
| PluginCache.SurvivorsAreKept | internal/adapters/registry/cache.go:243-271 | eviction leaves every other entry as it was |
| PluginCache.KeepsAgeIff | internal/adapters/registry/cache.go:243-306 | whatever sections run between the choice of a victim and its removal, evictions of the same directory among them: the entry removed is younger than promised iff one of them renews it and none forgets it after that |
| PluginCache.RenewedVictimIsRemoved | internal/adapters/registry/cache.go:238-265 | a victim used in between is removed at an age of zero |
| PluginCache.PluginCache.Add | internal/adapters/registry/cache.go:193-216 | a new directory is recorded with its size at that instant, other entries stay, then eviction as above |
| PluginCache.PluginCache.WarmUp | internal/adapters/registry/cache.go:123-171 | directories found on disk are indexed with their size, as old enough to evict, known ones stay as they are, then eviction as above |
| AuditWorker.SavedIff | internal/adapters/audit/worker.go:341-379 | a batch is saved iff some attempt that is made succeeds |
| AuditWorker.Worker.Send | internal/adapters/audit/worker.go:214-239 | an event is enqueued, or counted as lost when no room appears in time |
| AuditWorker.Worker.SaveWithRetry | internal/adapters/audit/worker.go:341-379 | the retry loop decides the batch's fate and stores it at most once |
| AuditWorker.Worker.FlushBatch | internal/adapters/audit/worker.go:291-337 | a flush writes the whole batch, counts it if lost and empties it |
| AuditWorker.Worker.Turn | internal/adapters/audit/worker.go:248-287 | one turn of the loop is one step of the ledger |
| AuditWorker.StepKeepsInv | internal/adapters/audit/worker.go:214-337 | every step keeps: accepted events are, in order, those flushed, the batch, the queue; the batch is not full between turns |
| AuditWorker.Conservation | internal/adapters/audit/worker.go:214-397 | after a drained run the events sent are exactly those stored, lost on save, lost on enqueue or in a panicking batch |
| AuditWorker.CountersAccountIff | internal/adapters/audit/worker.go:316-337 | acknowledged rows and both counters add up to the events sent iff no write panicked |
| AuditWorker.PanickedIsUncounted | internal/adapters/audit/worker.go:316-337 | a drained run with one event sent, none stored and none counted |
| AuditWorker.StoredInOrder | internal/adapters/audit/worker.go:248-337 | at every moment the stored rows are whole batches of at most the batch size, contiguous and in order, and pending is the batch's length |
| AuditWorker.TickWritesTheBatch | internal/adapters/audit/worker.go:268-284 | in every run a tick, like the end of the loop, writes the batch it finds, whatever its length, so that no accepted event waits outside the queue |
| AuditWorker.WrittenWhenFull | internal/adapters/audit/worker.go:268-282 | an event taken in is written at once, with the batch, iff it fills it |
| AuditWorker.EveryBatchHasItsStep | internal/adapters/audit/worker.go:248-337 | every batch of a run was written by a tick, by the end or by the event that filled it, with the fate of that write |
| AuditWorker.ClosedWorkerDrains | internal/adapters/audit/worker.go:248-276 | a closed worker comes to its end by receiving what is queued and finishing, whatever becomes of the batches |
| AuditWorker.ClosedWorkerOnlyDrains | internal/adapters/audit/worker.go:248-276 | until then every step finishes, shrinks the queue or is a tick that leaves it alone |
| Partitions.NameThenParse | internal/adapters/audit/partitions.go:476-501 | a name made for a month of the years 0 to 9999 reads back as that month |
| Partitions.ParseThenName | internal/adapters/audit/partitions.go:476-501 | a name that is accepted is the one its month is given |
| Partitions.ReadsBackIff | internal/adapters/audit/partitions.go:476-501 | the name of any month reads back as that month iff its year is 0 to 9999, and otherwise as none |
| Partitions.ParsesIff | internal/adapters/audit/partitions.go:484-501 | the names that are accepted, character by character, and the month each is read as |
| Maintenance.UpcomingMonths | internal/adapters/audit/partitions.go:504-513 | the current month and those ahead; each range's upper bound is the next one's lower bound |
| Maintenance.RangesTile | internal/adapters/audit/partitions.go:319-332 | an instant lies in the range of its own month and in no other |
| Maintenance.MonthlyPartitions | internal/adapters/audit/partitions.go:522-532 | keeps exactly the names that read as months, in order |
| Maintenance.ExpiredPartitions | internal/adapters/audit/partitions.go:536-551 | keeps exactly the names of months before the cutoff, in order |
| Maintenance.LengthsDecide | internal/adapters/audit/partitions.go:375-378 | comparing the two lengths decides whether a drop would leave no month |
| Maintenance.Maintainer.EnsurePartitions | internal/adapters/audit/partitions.go:304-349 | creates the months that are missing, all or none; does nothing without the lock |
| Maintenance.Maintainer.DropExpiredPartitions | internal/adapters/audit/partitions.go:353-395 | drops exactly the expired months, or refuses when none would be left |
| Maintenance.Maintainer.Maintain | internal/adapters/audit/partitions.go:235-264 | a pass for every outcome of the two locks: creation, then retention if creation went through and retention is enabled |
| Maintenance.PassExactly | internal/adapters/audit/partitions.go:235-395 | for every outcome of the locks: what each error means, and without one the catalogue holds exactly what was there or is in sight, less the months more than the retention before this one |
| Maintenance.RunGuarantees | internal/adapters/audit/partitions.go:235-395 | in a run whose creations succeed, no pass meets the would-empty error, and of the names there were or are in sight it keeps exactly those not more than the retention old |
| Maintenance.CoveredWhenReached | internal/adapters/audit/partitions.go:235-395 | with passes no further apart than the months created ahead, every instant is covered by exactly one monthly partition when it is reached |
| Creation.CreateAllIff | internal/adapters/audit/partitions.go:319-340 | creating months goes through iff each is there already, or has neither rows in the default partition nor another range over it |
| Creation.CreationIff | internal/adapters/audit/partitions.go:304-349 | where the catalogue holds only months and the default, no range is ever in the way |
| Creation.NothingStraySucceeds | internal/adapters/audit/partitions.go:235-349 | so every creation of a run goes through if none meets rows of its months in the default partition |
| Creation.CoveredWithoutStrayRows | internal/adapters/audit/partitions.go:235-395 | and every instant is then covered by exactly one monthly partition when it is reached |
| Creation.NoneEverStrays | internal/adapters/audit/partitions.go:235-395 | rows go to the range that takes them in, or else to the default partition: from a catalogue without stray rows, regular passes never meet one |
| Creation.RegularPassesSucceed | internal/adapters/audit/partitions.go:235-395 | so from such a catalogue every creation of regular passes goes through, and every instant is covered by exactly one monthly partition when it is reached |
| Creation.ExpiredSurviveIff | internal/adapters/audit/partitions.go:230-263 | a month more than the retention old outlives a pass that wins both locks iff creation fails in it |
| Creation.WedgedMonthStopsRetention | internal/adapters/audit/partitions.go:230-242 | a catalogue and a pass in which one wedged month keeps a partition years too old |
| LexicalPath.RenderedElements | internal/plugarchive/plugarchive.go:316-346 | a cleaned path, printed, reads back as the same root flag and names |
| Unpack.SafeJoinIff | internal/plugarchive/plugarchive.go:339-346 | a name is accepted iff it is relative and does not climb; the result's names extend the directory's |
| Unpack.SafeJoinByLevel | internal/plugarchive/plugarchive.go:339-346 | by counting: a name is accepted iff it is relative and at no point has gone up more often than down |
| Unpack.AcceptedIff | internal/plugarchive/plugarchive.go:316-335 | a link is accepted iff it is not empty, relative, and resolves from its own directory to the root or below |
| Unpack.DecidesIffAnchored | internal/plugarchive/plugarchive.go:316-335 | that holds for every link exactly for roots whose last component is a name |
| Unpack.CheckEntryIff | internal/plugarchive/plugarchive.go:211-221 | an entry is accepted iff its name, and its target if it is a link, stay lexically inside the directory |
| UnpackDisk.ExtractTo | internal/plugarchive/plugarchive.go:193-312 | the loop stops at the first entry that is not acceptable or cannot be written, with the disk as the entries before it leave it; if none of them is beneath an earlier link, all of that is inside the root and in its place |
| UnpackDisk.NeverThroughLinkIff | internal/plugarchive/plugarchive.go:140-142 | no entry is written through a link on the disk iff none lies beneath the name of an earlier link entry |
| UnpackDisk.WritesStayInside | internal/plugarchive/plugarchive.go:229-312 | then nothing outside the root changes, and each link on the disk is at the place of a link entry and carries the target of the last one there |
| UnpackDisk.WrittenThroughLink | internal/plugarchive/plugarchive.go:250-312 | an archive, contained in the root, whose file is written through a link |
| UnpackContents.UnpackedAsDescribed | internal/plugarchive/plugarchive.go:229-312 | an archive with no entry beneath a link leaves at and below the root exactly the files, directories and links that its entries say |
| UnpackLinks.LinkLeadsBelow | internal/plugarchive/plugarchive.go:293-335 | an accepted link in its own place, looked up without meeting another link, leads to the root or below |
| UnpackLinks.TargetByLevel | internal/plugarchive/plugarchive.go:293-335 | a relative target that never goes up past the root is accepted, and one that ends above it is refused |
| UnpackLinks.NeverLeaves | internal/plugarchive/plugarchive.go:135-139 | on a disk whose links below the root climb before their first name and not past the root, no path of that shape leaves the root, through any chain of links |
| UnpackLinks.ArchiveStaysInside | internal/plugarchive/plugarchive.go:135-139 | so for a whole archive, by the text and places of its entries: no lookup of that shape from inside leaves the root |
| UnpackLinks.LinkTargetsStayInside | internal/plugarchive/plugarchive.go:135-139 | the target of each of its links among them |
| UnpackLinks.AcceptedLinkLeadsOut | internal/plugarchive/plugarchive.go:293-335 | an archive of two accepted links, neither beneath the other, one of which leads outside the root |
| EnvTag.ParseEnvTag | internal/config/fields.go:223-250 | the loop over the options gives the specification's tag or names the first option that is not recognised |
| EnvTag.PrintThenParse | internal/config/fields.go:223-250 | key, prefix and default read back unchanged, whatever white space surrounds the key and whatever the default contains |
| EnvTag.RefusedIff | internal/config/fields.go:223-250 | a tag is refused iff an option before any default is not recognised |
| EnvTag.AcceptedSays | internal/config/fields.go:223-250 | of an accepted tag: the last prefix before the default counts, and the default is all that follows its name |
| Fields.WalkFields | internal/config/fields.go:120-168 | the recursion appends the settings of a type in declaration order, with both names |
| Fields.LeavesAreTheSettings | internal/config/fields.go:120-168 | the list holds exactly the settings there are, in declaration order, each under the keys on the way down, with the prefixes on the way down and its own key for a variable, its own default and secrecy |
| Fields.WalkRefusedIff | internal/config/fields.go:120-152 | the walk fails iff the tags of a setting, or of a section on the way to one, will not do |
| Fields.LeavesAreGrouped | internal/config/fields.go:120-168 | no path leads through another, and what two paths share is shared by all between them |
| ConfigPrint.CommonPrefix | cmd/easyp-svc/config.go:431-438 | the length of the longest common prefix |
| ConfigPrint.WriteConfig | cmd/easyp-svc/config.go:332-371 | the nested loops write the lines of the settings one after another; when one cannot be rendered, exactly those before it and the headers it was to stand under |
| ConfigPrint.PrintedReadsBack | cmd/easyp-svc/config.go:332-371 | what is printed, read as nested block mappings (section 8.2.2 of YAML 1.2.2), is exactly the paths and values; a header printed twice would be refused |
| ConfigPrint.SelectionReadsBack | cmd/easyp-svc/config.go:332-371 | and so for every selection of the settings of a type |
| Schema.ComputeSchema | internal/config/diagnostics.go:159-190 | settings, groups and the keys under each group are exactly those the paths spell; each key is listed once, in the order the settings bring it up |
| Schema.WalkDocument | internal/config/diagnostics.go:232-298 | the walk appends the complaints of the specification |
| Schema.CheckedIff | internal/config/diagnostics.go:232-298 | reported are exactly the keys that are retired, or neither setting nor group, with only groups above them: nothing beneath a setting, a retired key or a key passed over |
| Schema.CheckedOnce | internal/config/diagnostics.go:232-298 | and none twice |
| Schema.ComplaintsAreErrors | internal/config/diagnostics.go:264-296 | every complaint is an error and names the line of its key |
| Schema.ReportedExactly | internal/config/diagnostics.go:232-298 | spelled out for a whole document: which keys are reported |
| Schema.NamesDecide | internal/config/diagnostics.go:159-190 | a dotted name is a setting iff the keys it spells are one, and a group iff a setting lies beneath them, whatever keys it was joined from |
| Schema.AcceptedIff | internal/config/diagnostics.go:159-298 | which documents draw no complaint: those in which every key written outside the anchor holders and merge keys is under a setting, or is not retired and spells a setting or group (or is the empty root key) |
| Schema.UndottedAcceptedIff | internal/config/diagnostics.go:159-298 | a document of keys without dots is accepted iff each key written outside anchor holders and merge keys leads to a setting, is one or is beneath one |
| Schema.SilentlyIgnoredIff | internal/config/diagnostics.go:232-298 | a key written inside groups of settings is let through although it leads to no setting iff it is the empty root key, or contains a dot and spells a setting or a group; merged keys are in MergeKeys |
| Schema.DottedKeyIsIgnored | internal/config/diagnostics.go:255-282 | a setting spelt as one dotted root key is accepted and is not the setting |
| Schema.EmptyKeyIsAGroup | internal/config/diagnostics.go:167-171 | an empty root key draws no complaint |
| YamlAlias.RewriteAliases | internal/config/yamlalias.go:59-119 | the walk over a mapping, with the keys it tracks, computes the specification's document and diagnostics |
| YamlAlias.RewritingKeepsKeysApart | internal/config/yamlalias.go:63-119 | no mapping ends up with a key twice, for any table |
| YamlAlias.RewritingOnlyRenames | internal/config/yamlalias.go:71-118 | order, lines and values stay, everything under a former key stays, and other keys stay |
| YamlAlias.ReportsIff | internal/config/yamlalias.go:71-118 | reported are exactly the former keys written in the document, outside merge keys |
| YamlAlias.ReportsOnce | internal/config/yamlalias.go:71-118 | and none twice |
| YamlAlias.ReportsLines | internal/config/yamlalias.go:88-114 | every diagnostic names the line of its key |
| YamlAlias.ErrorsAreLeft | internal/config/yamlalias.go:88-118 | a diagnostic is an error iff its key is still there afterwards, and else a warning |
| AliasTables.RewritingSucceedsIff | internal/config/yamlalias.go:88-118 | an error iff renaming every former key would spell some key twice; without one the document is that renaming and no former key is left in writing |
| AliasTables.InPlaceRewriting | internal/config/yamlalias.go:33-37 | all of these for in-place tables on documents whose keys have no dots |
| AliasTables.TableIsSafeIff | internal/config/yamlalias.go:33-37 | a table whose names all change their last part, none under another, leaves no document with a former key in writing iff no former name lies at or under a place its names can land |
| AliasTables.ReportsAllIff | internal/config/yamlalias.go:71-86 | for such tables, nested or not: every former key written in any document is reported iff no former name lies under another |
| AliasTables.DottedKeyLeavesOldName | internal/config/yamlalias.go:78-118 | an in-place table and a document with a dotted key that is left with a former key |
| MergeKeys.ReportedIff | internal/config/diagnostics.go:232-298 | a key inside groups is reported iff it is written there and its name is that of no setting or group |
| MergeKeys.UnreportedIff | internal/config/diagnostics.go:241-249 | a key inside groups that takes effect once merge keys are resolved, and leads to no setting, goes unreported iff a merge key brings it in or its name misleads the check |
| MergeKeys.UndottedUnreportedIff | internal/config/diagnostics.go:241-249 | for a key without dots: iff it is not written in its place |
| MergeKeys.MergedKeyIsIgnored | internal/config/diagnostics.go:241-257 | a misspelt key in an anchor holder's block that a section merges in takes effect, leads to no setting and draws no complaint |
| MergeKeys.StillOldIff | internal/config/yamlalias.go:59-119 | for tables that are safe on the document: which former keys take effect after every written one is renamed, those a merge key brings in beside no written key, or beside one that is renamed away |
| MergeKeys.FormerKeysLeftIff | internal/config/yamlalias.go:59-119 | after a rewriting without error no former key takes effect iff no merge key brings one in |
| MergeKeys.MergedFormerKeyIsLeft | internal/config/yamlalias.go:71-76 | for every table and former root key: brought in at the root, it takes effect and is neither renamed nor reported |
| ConfigFile.NamesIff | internal/config/config.go:1100-1110 | the decoded map names a path iff that path takes effect in the document, merge keys resolved and written keys preferred |
| ConfigFile.FormerKeyFillsItsField | internal/config/yamlalias.go:39-45 | from the written file to the merge: the value under a former key is decoded at the setting of its current name, the file decides that setting unless a variable does, the rewrite is reported, and the check reports neither name |
| Merge.SupplierIsUnique | internal/config/alias.go:52-66 | at most one variable supplies a setting |
| Merge.SuppliedIff | internal/config/config.go:1184-1198 | a setting is supplied iff one of its variables holds text: one set to nothing counts as absent |
| Merge.SupplierIsPreferred | internal/config/alias.go:52-66 | the canonical variable wins if it holds text, else the first of the others that does |
| Merge.AliasLookuper.Lookup | internal/config/alias.go:52-66 | the canonical name if set and not empty, else the first alternative that is, which is recorded |
| Merge.DocumentHasKey | internal/config/config.go:873-895 | whether the document writes the key down, whatever its value |
| Merge.MergeFileValues | internal/config/config.go:838-869 | every setting has the value and the origin of its layer: variable, else file if it names the key, else default; the origin is a variable iff one of them holds text; no other field changes |
| Merge.GroupedNamesDiffer | internal/config/fields.go:51-53 | the settings of a type have different dotted names |
| Merge.WalkedAreDistinct | internal/config/fields.go:120-168 | and are different fields, so the merge may tell them apart by either |

## Left out

- gRPC and HTTP transport, TLS, interceptor metadata, MCP, metrics, tracing, logging and generated code.
- Plugin processes, pipes, S3, tar and gzip streams, file writes and Docker builds: what they answer is a parameter, what they do to the disk is not modelled.
- Token bucket, PASETO, sha256, singleflight, regular expressions and glob matching.
- `hintFor`'s choice of candidate lists and wording, `formatSize`, the field checks of `Validate`, `ConcurrencyLimiter` and error classification: easy members that would add little.
- Levenshtein.EditDistance: rows are Go `int`s; their overflow, out of reach for keys in memory, is not modelled.
- Hints.Normalise: input is decoded text; bytes that are not UTF-8, which Go turns into U+FFFD, are not modelled.
- WorkerPool.StepKeepsInv: `Get`'s check of the closed flag and its enqueue are one step, because `run` shuts the pool down only after the server has returned (cmd/easyp-svc/start.go:263-278). Shutdown's timeout branch is not modelled.
- GenLimiter.StepKeepsInv: the semaphore grants to any waiter; its first-in-first-out order is not modelled, and a free slot may be refused to a newcomer.
- Generation.GenerateWithRetries: the classification of an error as transient is a parameter.
- Backoff.Invoke: whether a status is unavailable is part of the reply; the timer is not modelled.
- Descriptors.CollectFileDescriptors: descriptors are their paths; the conversion to protobuf messages is not modelled.
- Listing.List: the statement is kept as clauses and placeholder numbers rather than text; the id and creation time of a row, and rows whose tags are null, are not modelled. The database's collation is any strict total order, and a failing query is left out.
- Pagination.ListPage: audit entries are not modelled.
- Pagination.ListPlugins: a page token is the key it encodes (internal/api/pagetoken.go:30-67); base64, JSON and refused tokens are not modelled, nor is the trimming of filters in internal/api/plugins_list.go:28-33. A call past the last snapshot stands for the deadline or any failing call.
- Statements.Update: validation and the archive checksum are one parameter that succeeds or not; a failing query is left out.
- Statements.BuildInsert: the statement is kept as rows of placeholder numbers rather than text; encoding of metadata is a parameter.
- PluginCache.PluginCache.Evict: removing a directory is not modelled; sizes do not overflow, and no directory has the empty name.
- PluginCache.PluginCache.WarmUp: the directory scan and its errors are a parameter.
- AuditWorker.Worker.Send: is called only before Shutdown closes the queue. A queue with room is taken at once; the choice Go makes when room and deadline arrive together is a parameter.
- AuditWorker.Worker.SaveWithRetry: the doubling delay between attempts is not modelled, and a write that takes effect but reports an error counts as failed. With a negative number of retries the code dereferences a nil error, which its own barrier catches; the model calls that a panic.
- AuditWorker.Conservation: holds for runs that drain; events counted as lost by a Shutdown that timed out may still be written afterwards, and are not modelled.
- Maintenance.CoveredWhenReached: for runs in which creation succeeds; Creation.RegularPassesSucceed shows that it does when the run starts without rows in the default partition. Lock timeouts and the default-partition gauge are not modelled.
- LexicalPath.RenderedElements: Unix paths only.
- Unpack.AcceptedIff: containment is lexical; UnpackDisk says what it comes to on a disk with links.
- UnpackDisk.ExtractTo: unpacks into a directory whose path ends in a name, as the callers' temporary directories do. What an entry that fails leaves half done, modes, contents and the final rename are not modelled.
- UnpackDisk.WritesStayInside: says nothing about archives with an entry beneath an earlier link; such an archive may still stay inside, as UnpackDisk.WrittenThroughLink does.
- UnpackLinks.LinkLeadsBelow: for a root reached by its absolute path without links.
- UnpackLinks.ArchiveStaysInside: goes one way. Which archives with a target that climbs after a name stay inside is decided by following it through their other links, and no simpler condition is given.
- ConfigPrint.WriteConfig: the comments that name origins are not modelled; values are taken as rendered, on one line. Rendering itself is a parameter.
- ConfigPrint.PrintedReadsBack: a scalar is read as the text after the colon; quoting and flow style are not interpreted.
- Fields.WalkFields: reflection is a list of fields; the struct types themselves are not modelled.
- Schema.WalkDocument: documents are trees, each anchor replaced by what it stands for; the value of a merge key is one mapping, not a list of them; hints and wording are left out. A path is kept as its keys and printed with dots.
- YamlAlias.RewriteAliases: documents are values rebuilt by the walk, not nodes overwritten in place, so a node shared through an anchor is renamed only where it is reached.
- Merge.MergeFileValues: decoding a variable and the environment library's first pass are parameters; the warnings about aliases are not modelled beyond the record of their use.
