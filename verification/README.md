# kv9 evidence checking, modelled and proved

kv9 is a replicated key/value store whose scripts decide whether recorded evidence about it can be
believed: histories of concurrent clients, native-batch workload logs, benchmark reports, latency
metrics, probe traffic through a relay, and groups of model-checking jobs. This project models the
decision procedures in Dafny and proves what an accepted piece of evidence guarantees, what every
genuine piece of evidence satisfies, and, where the two differ, exactly when.

Verify everything with `dafny verify dfyconfig.toml`.

## What is proved

**History checker** (`Histories`, `Certificates`, `Search`, `HistorySpec`, `RangeRequests`, `Refinement`,
`Checker`, `Linearizability`, `Provenance`). The depth-first search with its cursor, duplicate-state table, retired progress
and budgets is sound and complete: a `valid` verdict comes with a certificate the replay accepts, an
`invalid` verdict of the unrestricted attempt means no certificate exists. Certificates exist exactly
when the recorded events have a legal execution of the documented model, in which a creation takes
any unused 24-bit number and there are no symbols; the symbolic identities of unobserved creations
are related to numbers by a simulation in both directions. The documented model has its own response
conditions, intervals and chunk counts. Before a range deletion that reports n chunks returns, it has
selected its keys and deleted at least n chunks of them, a confirmed one exactly its n. Without range
deletions, having a legal execution is the same as real-time linearizability.

**Native-batch runs** (`Shapes`, `Parser`, `EventLog`, `Terminals`, `LogTheorems`, `LogExact`, `Accounting`,
`Redirects`, `Workload`, `Dataset`, `Writers`, `Completion`, `Acceptance`). Parsing accepts exactly the
well-ordered, matched and typed record sequences and denotes one history, whose initial state holds exactly
the header's rows. The event loop accepts exactly the logs in which every record may follow the ones before
it, said of the recorded failures, attempts and stages. Its ledger describes the log: identities are dense,
every call returns once after it was invoked, clients alternate, active calls and busy workers correspond
one to one, the recorded peak is the true one, nonces are exactly `0..m-1`. Rows equal tallies of the log
and conserve items, reasons and calls. Of any hundred consecutive nonces exactly the configured number of
generated calls is of each kind, on the items that follow the mixed nonce. A run that `Validate` accepts
is linearizable, and every value a confirmed read returned was written by exactly one call, which was not
refused, began before the read ended and was not overwritten by a confirmed call in between.

**Benchmark reports** (`Buckets`, `Samples`, `Quantiles`, `Reconstruction`, `Histogram`, `Containment`,
`Pairing`, `RetryAccounting`, `Cohort`, `Wire`, `Mixer`, `Latency`). The histogram conditions hold exactly
when samples with that report exist. Of two tallies that samples produce, the containment test passes
exactly when samples behind them pair up with each containing one at least its partner. Retry counters
balance exactly when client calls with those counters exist. Sequential workers finish at most one
call after the cutoff. Wire sizes are lengths of encodings that decode back. The mixer is a bijection.

**Router and scheduler** (`Router`, `Scheduler`). A routed command takes effect at most once, because
only exclusive refusals are retried; every attempt's budget is the time left before the one deadline, and
the answer is the one the last attempt's reply calls for.
The group scheduler keeps its bound for every completion order, reads every finished result before it
delivers or replaces any, and a run without failures delivers every result exactly once.

Three checks accept evidence that nothing genuine produces; which is proved exactly. Retry counters of
writes may claim read-quorum outcomes (`RetryAccounting.QuorumWrites`); the counters of calls that
never do are those with both entries zero (`RetryAccounting.ConsistentIffRealizable`). A cohort may
report call durations too short for its late tails (`Cohort.ShortTailUnnoticed`); with the one missing lower bound the check
is exact (`Cohort.CohortExact`). Latency metrics may report extrema outside the buckets their samples
were counted in (`Latency.LooseExtrema`); with the benchmark report's conditions on extrema and sum
added, the check is exact (`Latency.LatencyExact`).

## Model

| member | source | states |
|---|---|---|
| `Parser.Parse` | scripts/history/checker.py:66-127 | a record sequence of either version is accepted exactly when sequence numbers increase, calls are unique and typed for the version, every return answers one open call with a reply of its kind, and some call exists; the history it returns describes every record, is well formed and starts from a state that holds exactly the header's rows |
| `Parser.ParseDetermined` | scripts/history/checker.py:93-127 | a record sequence denotes one history: operations in invocation order, terminals attached, observed identities sorted |
| `Parser.ParseNext` | scripts/history/checker.py:94-117 | a record that fits keeps the correspondence between records and operations; one that does not leaves no way to read the log |
| `Parser.CatalogFits` | scripts/history/checker.py:81-86 | the initial catalog holds distinct names with distinct observed identities |
| `Shapes.ArgsExact` | scripts/history/checker.py:130-162 | the argument check accepts exactly the calls of the version whose keyspace is a 24-bit number from 1, whose name is not empty and whose texts each spell some bytes, within the limits on batches |
| `Shapes.ResultExact` | scripts/history/checker.py:165-197 | the result check accepts exactly, per outcome and kind, the replies of that kind whose texts spell bytes; only a range deletion of unknown outcome may report chunks |
| `Shapes.HexExact` | scripts/history/checker.py:40-43 | a text is canonical hexadecimal exactly when it is the encoding of some bytes |
| `Shapes.InitialExact` | scripts/history/checker.py:78-90 | the initial state of an accepted header holds an entry exactly when a row gives it, and a name exactly when a row names it |
| `Shapes.InitialDetermined` | scripts/history/checker.py:78-90 | there is only one such state |
| `Certificates.VerifyWitness` | scripts/history/checker.py:299-325 | replay accepts exactly the certificates whose every effect is the only transition with its detail, after its invocation, with no response skipped that its own outcome and reply do not justify |
| `Certificates.MatchesOnly` | scripts/history/checker.py:317-319 | transitions of one operation have distinct details, so a detail names at most one effect |
| `Certificates.SatisfiedIsFinal` | scripts/history/checker.py:279-285 | once a confirmed or refused response is justified, its operation has no further effect |
| `Certificates.ReplaySettled` | scripts/history/checker.py:309-325 | in every state a certificate reaches, each response already passed is still justified |
| `Search.Explore` | scripts/history/checker.py:355-522 | a valid result is a certificate; an unrestricted search that ends without one refutes every certificate; explored states stay within the budget |
| `Search.Advance` | scripts/history/checker.py:288-296 | the cursor stops at the first unjustified response and progress of confirmed returned operations is dropped |
| `Search.AdvancedVisible` | scripts/history/checker.py:293-294 | dropping the progress of returned operations loses nothing a later step can see |
| `Search.ClosedRefutes` | scripts/history/checker.py:412-522 | a set of visited states that contains the start, covers every successor and never reaches the end leaves no certificate |
| `Search.DelayEffect` | scripts/history/checker.py:424-436 | an effect before a boundary can be delayed to the next response that needs justification, so trying effects only there is complete |
| `Search.ChildrenCover` | scripts/history/checker.py:430-519 | the eligible, ranked and expanded children of a state include every useful next effect |
| `HistorySpec.PutAllLastWins` | scripts/history/checker.py:235-239 | the ordered fold of a batch write leaves each key with its last pair's value and nothing else changed |
| `HistorySpec.PageOfListing` | scripts/history/checker.py:248-252 | a scan's rows are a sorted page that leaves something out only when full, and only after its last row |
| `HistorySpec.PageDetermined` | docs/HISTORY-CHECKING.md:38 | there is only one page a scan may return in a state |
| `HistorySpec.SnapshotDetermined` | scripts/history/checker.py:256-262 | the immutable ordered key set a range deletion selects is determined by the state |
| `HistorySpec.JustifiedExact` | scripts/history/checker.py:279-285 | the response test is the documented condition: a refused, confirmed or typed partial response needs its effect, selection or reported chunks, and only an unknown one that reports nothing needs none |
| `HistorySpec.ChunkCountExact` | scripts/history/checker.py:257 | the chunk total is the number of chunks that cover the selected keys with none left over, and the test on it asks whether the keys reach that chunk |
| `KeyOrder.FirstDifference` | scripts/history/checker.py:204-205 | keys are compared lexicographically: a proper prefix or the smaller character at the first difference comes first |
| `RangeRequests.RangeTrail` | scripts/history/checker.py:254-275 | in every legal execution the progress of a range deletion is one selection of the sorted stored keys and then its chunks, each deleted in its own step and nothing else changed by it |
| `RangeRequests.ReportedChunksDeleted` | docs/HISTORY-CHECKING.md:58-66 | in every legal execution past the return of a range deletion that reports n chunks, the selection and at least n chunk deletions took place between its invocation and that return; a confirmed one deleted its whole selection in exactly n chunks, a typed partial one at most n+1 |
| `Refinement.PointMeetsSpec` | scripts/history/checker.py:230-253 | transitions of point, batch and scan operations have the documented effect |
| `Refinement.RangeMeetsSpec` | scripts/history/checker.py:254-275 | selecting and deleting chunk by chunk has the documented effect, including the bound of one unresolved chunk after a typed partial result |
| `Refinement.CreateForward` | scripts/history/checker.py:219-229 | an allocation of any unused number has a counterpart among the candidates, within the bound on symbols |
| `Refinement.CreateBackward` | scripts/history/checker.py:219-229 | every candidate the checker allocates, symbol or listed identity, can be read as some unused number |
| `Refinement.CertifiedIffExplained` | docs/HISTORY-CHECKING.md:36-56 | certificates with symbolic identities exist exactly when a legal execution with numbers exists |
| `Checker.Check` | scripts/history/checker.py:525-544 | valid means a certificate and a legal execution; invalid means no legal execution; some attempt always answers |
| `Linearizability.ExplainedIffLinearizable` | docs/HISTORY-CHECKING.md:50-72 | on histories without range deletion, a legal execution exists exactly when one total order of effects inside the operations' intervals explains every confirmed reply |
| `Provenance.StateExplained` | docs/HISTORY-CHECKING.md:36-40 | the value at an entry is what the last operation in the order that touched it left there, or the initial one |
| `Provenance.ReadProvenance` | docs/HISTORY-CHECKING.md:50-56 | every confirmed answer is still the initial one, or was left by an operation that was not refused, began before the read ended, and after which no confirmed touching operation ran entirely before the read |
| `EventLog.ValidateEvents` | scripts/batch_workload_report.py:202-277 | the event loop computes the ledger of the log, or rejects at the first event that does not fit; which logs those are is `LogExact.ReplayExact` |
| `LogExact.ReplayExact` | scripts/batch_workload_report.py:202-277 | the event loop accepts exactly the logs in which every record may follow the ones before it, said of the log alone: dense identities, an idle client, an unused nonce with the call it generates, an open call to return to, invocations inside the stage of their phase, and terminals whose outcome, stop, receipt, attempts and times agree with the recorded failure; the concurrency bound never rejects |
| `EventLog.CheckAttempts` | scripts/batch_workload_report.py:261-277 | the attempt loop accepts exactly chains with consecutive ordinals, known nodes, refused non-final attempts, redirects to the fixed next peer and durations within the call |
| `EventLog.Population` | scripts/workload_report.py:194-205 | a reason's population is the place of its cause in the report's list of twelve; exactly leader zero, a status code above 16 and a protocol failure have none |
| `Terminals.InvokeShapeExact` | scripts/batch_workload_report.py:207-220 | an invocation fits exactly when setup and verification calls are made by client zero without a nonce, traffic carries a nonce in range and its generated call, and the time lies in the stage of the phase |
| `Terminals.ReturnFitsExact` | scripts/batch_workload_report.py:226-277 | a terminal fits exactly when, on the recorded failures: it succeeded, or was refused by NotLeader or an admission limit, or is unknown after any other server failure; capacity and input rejections occur exactly without attempts, a deadline also without; writes never end in a read-quorum failure; stop, receipt and times follow from these |
| `Terminals.ChainExact` | scripts/batch_workload_report.py:262-277 | attempts fit exactly when they are numbered from one, at known peers, all but the last refused by NotLeader and redirected to the hinted other peer or else the next one in order, with durations that add up to at most the call's |
| `LogTheorems.ReplayTracks` | scripts/batch_workload_report.py:206-224 | an accepted log has dense identities, each return after its one invocation, alternating clients; issued, active and completed tables hold exactly the log's calls; busy workers and active calls correspond one to one |
| `LogTheorems.ConcurrencyBounded` | scripts/batch_workload_report.py:222 | calls in flight never exceed the workers, already without the explicit bound |
| `LogTheorems.PeakIsTrue` | scripts/batch_workload_report.py:222 | the recorded peak is the highest concurrency over all prefixes of the log |
| `LogTheorems.ReplayNonces` | scripts/batch_workload_report.py:215-218 | recorded nonces are the traffic nonces of the log, none used twice |
| `LogTheorems.CompleteLog` | scripts/batch_workload_report.py:278-279 | a closed ledger means every invocation returned later and traffic nonces are exactly the numbers below their count |
| `Accounting.RowsAreTallies` | scripts/batch_workload_report.py:251-258 | every counter of every row equals its measure summed over the log's terminals of that phase and operation |
| `Accounting.RowsConserve` | scripts/batch_workload_report.py:251-258 | a row's twelve reasons sum to its calls; for writes input items equal successful plus refused plus unknown items; for reads the shortfall is the items of unknown outcome |
| `Accounting.CallsConserved` | scripts/batch_workload_report.py:251-253 | the rows' calls sum to the number of terminals and of completed calls |
| `Accounting.TerminalsComplete` | scripts/batch_workload_report.py:278 | with nothing active the log has two records per call |
| `Redirects.RetriesElsewhere` | scripts/batch_workload_report.py:267-273 | a retried attempt was refused by NotLeader, and the next one goes to another node exactly when there are two or more peers |
| `Redirects.HintlessRoundVisitsAll` | scripts/batch_workload_report.py:270-273 | without usable hints, as many consecutive attempts as peers visit every peer exactly once |
| `Redirects.OutcomeJustified` | scripts/batch_workload_report.py:230-269 | at most the last attempt can have taken effect; a call is refused exactly when it was never sent or its last failure is NotLeader or an admission limit, so that no attempt did, and successful or unknown exactly when the last one did or may have; writes never end in a read-quorum failure, capacity and input exactly without attempts; receipts accompany exactly successful writes; a redirected call gives up only when attempts or time are used up |
| `Redirects.AttemptsFitInTime` | scripts/batch_workload_report.py:228-277 | attempts fit in their call, the call between its records, and all attempts of one client's calls in the elapsed time of the run |
| `Workload.KeyInjective` | scripts/batch_workload_report.py:83-84 | distinct items have distinct keys |
| `Workload.ValueIdentifiesWriter` | scripts/batch_workload_report.py:87-90 | writer and item can be read back from every written value, the empty sentinel included |
| `Workload.HashedNonce` | scripts/batch_workload_report.py:94-98 | the generator's inlined copy computes the mixer of nonce xor seed |
| `Workload.SelectIndex` | scripts/batch_workload_report.py:100-105 | for nonnegative weights that cover the slot, the loop stops at the operation whose cumulative weight interval holds it |
| `Workload.IndexHolds` | scripts/batch_workload_report.py:100-105 | from any prefix that the slot has passed, the remaining weights hold a matching operation and the loop stops there |
| `Workload.ExactMix` | scripts/batch_workload_report.py:99-115 | among the calls generated for any hundred consecutive nonces exactly mix[0] are gets, mix[1] puts, mix[2] deletes, mix[3] batch gets and mix[4] batch puts, for every seed |
| `Workload.GeneratedWhen` | scripts/batch_workload_report.py:100-115 | the generated call is of kind k exactly when 73 times the nonce plus 19 plus the seed, modulo 100, falls into that kind's share of the cumulated weights |
| `Workload.GeneratedCall` | scripts/batch_workload_report.py:106-115 | its keys are those of its target items in order, and it writes, exactly when it is a put or a batch put, one value per item stamped with the nonce plus one and the position |
| `Workload.TargetsWalk` | scripts/batch_workload_report.py:99-114 | target i is the mixer of nonce xor seed plus i, modulo the keys; a single-key call has one target and a batch exactly the batch size |
| `Workload.ItemsRotate` | scripts/batch_workload_report.py:99-114 | a batch walks the dataset cyclically: no item comes twice within one round |
| `Workload.ChunksPartition` | scripts/batch_workload_report.py:283-285 | setup chunks are exactly the items in order, in the declared number of nonempty groups of at most the batch size |
| `Dataset.KeyLayout` | scripts/batch_workload_report.py:83-84 | a key spells the run name, a colon and the item in sixteen lowercase hexadecimal digits |
| `Dataset.ValueLayout` | scripts/batch_workload_report.py:87-90 | a value is the writer and the item in eight big-endian bytes each, filled with `v` to the value size; the sentinel's is empty |
| `Dataset.VerificationReads` | scripts/batch_workload_report.py:282-286 | the verification calls are batch reads of one to batch-size keys that together read every key of the dataset and the sentinel once, in order |
| `Dataset.InitializationWrites` | scripts/batch_workload_report.py:282-285 | initialization is those reads and then batch writes of the same keys in order, each with its initial value |
| `Dataset.GeneratedDecodes` | scripts/batch_workload_report.py:93-115 | every generated call of a legal configuration passes the argument check of the history parser |
| `Writers.OriginUnique` | scripts/batch_workload_report.py:87-114 | a value comes from one traffic nonce or one initialization call, never from two |
| `Writers.ValueInjective` | scripts/batch_workload_report.py:87-90 | equal values have the same writer and the same item |
| `Writers.SetupStamped` | scripts/batch_workload_report.py:283-286 | an initialization call writes a value exactly when its chunk holds the value's item |
| `Writers.SentinelUntouched` | scripts/batch_workload_report.py:99-115 | no traffic call touches the sentinel key |
| `Completion.FinalExact` | scripts/batch_workload_report.py:278-292 | the final conditions on the ledger hold exactly when, of the log, every call returned, the traffic nonces are the numbers below their count (all of them at the operation limit), and the setup and verification calls are the prescribed ones in order, all successful, finding first nothing and last the empty sentinel |
| `Completion.CoverageExact` | scripts/batch_workload_report.py:312-316 | coverage holds exactly when some traffic read, some traffic write and some traffic call of every kind with a weight were invoked and returned successfully in the log |
| `Acceptance.Validate` | scripts/batch_workload_report.py:198-317 | an accepted run has a complete, covered, parsed and linearizable history; a run ruled not linearizable has no linearizable reading; anything rejected breaks a recorded condition or the coverage, each said of the log |
| `Acceptance.RecordedExact` | scripts/batch_workload_report.py:202-316 | for every log, the event loop, the final ledger conditions and the coverage test decide exactly the acceptable, complete and exercising logs |
| `Acceptance.WriterUnique` | scripts/batch_workload_report.py:216-287 | no two operations of a recorded run write the same value |
| `Acceptance.ReadsIdentifyWriter` | scripts/batch_workload_report.py:310-311 | in a recorded linearizable run every value read has exactly one writer, not refused, begun before the read ended, and not stale |
| `Buckets.Adjacent` | scripts/batch_benchmark_report.py:152-157 | in both schemes each bucket is nonempty and the next one begins where it ends |
| `Buckets.Ends` | scripts/check-latency-metrics.py:30-31 | the 3776 log-linear and the 65 power-of-two buckets begin at zero and end at 2^64-1 |
| `Buckets.RelativeWidth` | scripts/batch_benchmark_report.py:155-157 | from index 64 on a log-linear bucket is at most one sixty-fourth of its lower bound wide |
| `Buckets.FindSlot` | scripts/check-batch-benchmark-controls.py:105 | the linear search finds a bucket holding the sample, the only one |
| `Buckets.BitLengthBucket` | scripts/workload_report.py:117-120 | a sample's bit length is the index of its power-of-two bucket |
| `Samples.Choose` | scripts/batch_benchmark_report.py:181-194 | any total between the sums of lower and upper bounds is the sum of values within them |
| `Quantiles.Percentile` | scripts/benchmark_report.py:45-55 | of any samples behind the buckets, the scan returns the bucket of the sample that at least percentile of a hundred samples do not exceed and fewer than that many are below, and nothing only for none |
| `Quantiles.RankLeast` | scripts/check-latency-metrics.py:58 | the rank is the least number that is at least percentile hundredths of the count |
| `Quantiles.QuantileIsNearestRank` | scripts/benchmark_report.py:48-54 | that sample is exactly the one whose place in sorted order is the nearest rank |
| `Quantiles.RankReached` | scripts/check-latency-metrics.py:55-63 | the scan stops at the bucket of the nearest-rank sample |
| `Quantiles.ReachedHoldsRank` | scripts/batch_benchmark_report.py:196-203 | the bucket where the scan stops holds the nearest-rank sample |
| `Quantiles.Cumulative` | scripts/check-latency-metrics.py:58-62 | cumulated counts are the samples up to the bucket's upper bound |
| `Histogram.HistogramCheck` | scripts/batch_benchmark_report.py:160-204 | the report is accepted exactly when some samples have those buckets, extrema, sum and percentiles, said of the samples, and the mean is within one part in 10^14 of the number that times the count is the sum |
| `Reconstruction.NeverClipped` | scripts/batch_benchmark_report.py:185-187 | once the extrema sit in the outermost occupied buckets, the inner emptiness check cannot fail |
| `Reconstruction.GenuineBounded` | scripts/batch_benchmark_report.py:172-194 | every nonempty list of samples meets the extrema, single-sample and tightened sum conditions |
| `Reconstruction.Realize` | scripts/batch_benchmark_report.py:172-194 | counts, extrema and sum that meet the conditions are those of some samples |
| `Histogram.OccupiedSums` | scripts/batch_benchmark_report.py:181-189 | the loop computes the least and greatest sums of clipped buckets |
| `Histogram.Constant` | scripts/check-batch-benchmark-controls.py:101-112 | every constant histogram describes that many equal samples, percentiles included |
| `Containment.DominanceCheck` | scripts/batch_benchmark_report.py:207-222 | the loop accepts exactly equal counts, ordered extrema and prefix counts that never exceed |
| `Containment.PairedPass` | scripts/batch_benchmark_report.py:207-222 | samples that pair up with each containing one at least its partner always pass |
| `Pairing.ContainmentExact` | scripts/batch_benchmark_report.py:207-222 | two tallies that samples produce pass exactly when samples behind them pair up with each containing one at least its partner |
| `Containment.PassYieldsPairing` | scripts/batch_benchmark_report.py:216-222 | bucket vectors that pass admit a one-to-one pairing with each containing bucket at or after its partner's |
| `RetryAccounting.IndexPlaces` | scripts/workload_report.py:21-23 | a reason's index is its place in the report's list of twelve, with one entry for all status codes |
| `RetryAccounting.GenuineBalanced` | scripts/batch_benchmark_report.py:274-291 | counters aggregated from legal calls satisfy every identity |
| `RetryAccounting.Realize` | scripts/batch_benchmark_report.py:274-291 | balanced counters are the aggregate of legal calls |
| `RetryAccounting.ConsistentIffRealizable` | scripts/batch_benchmark_report.py:255-291 | the identities hold exactly of the counters of legal calls; keeping read-quorum outcomes out of writes takes two more zeros |
| `RetryAccounting.RangesImplied` | scripts/batch_benchmark_report.py:246-274 | of balanced counters with calls in range, every other counter is a 64-bit value |
| `RetryAccounting.ReportExact` | scripts/batch_benchmark_report.py:246-291 | with the ranges the report check puts on every counter, it accepts exactly the counters of legal calls of at most 10,500,000 per outcome |
| `RetryAccounting.CountEquationRedundant` | scripts/batch_benchmark_report.py:282-290 | the attempt-count equation follows from the per-reason ones |
| `RetryAccounting.QuorumWrites` | scripts/batch_benchmark_report.py:274-291 | any writes of which one claims a read-quorum outcome pass, though no calls that keep those out of writes have their counters |
| `RetryAccounting.QuorumWriteUnnoticed` | scripts/batch_benchmark_report.py:274-291 | a concrete write that claims a read-quorum outcome passes |
| `Cohort.OwnedTotal` | scripts/batch_benchmark_report.py:391-394 | the workers' strided slot counts add up to the offered slots |
| `Cohort.SameResidue` | scripts/batch_benchmark_report.py:391-394 | a slot is in a worker's stride exactly when its remainder is the worker's number, so it has exactly one owner |
| `Cohort.OfferedExactly` | scripts/batch_benchmark_report.py:119-123 | a slot is offered exactly when its time falls inside the measurement |
| `Cohort.OnlyLastAfter` | scripts/batch_benchmark_report.py:397-402 | of a sequential worker that starts nothing at or after the cutoff, only the last call can end at or after it |
| `Cohort.DurationsFit` | scripts/batch_benchmark_report.py:418-431 | a worker's call durations sum to at most its last terminal and to at least what a late tail forces, and no single call is longer than that terminal |
| `Cohort.CohortCheck` | scripts/batch_benchmark_report.py:373-400 | the worker loop evaluates the slot, total, cutoff and duration conditions |
| `Cohort.SlotsForceTotal` | scripts/batch_benchmark_report.py:374-398 | per-worker slot counts imply that issued plus dropped is offered |
| `Cohort.GenuineAccepted` | scripts/batch_benchmark_report.py:373-431 | the report of every cohort of sequential workers is accepted |
| `Cohort.CohortExact` | scripts/batch_benchmark_report.py:373-431 | with a lower bound on durations that late tails force, acceptance is exactly being the report of some cohort |
| `Cohort.ShortTailUnnoticed` | scripts/batch_benchmark_report.py:395-431 | for every measurement of 1 to 60000 ms and every last terminal past it, a named report whose one call is shorter than that tail forces is accepted though no cohort has it |
| `Wire.VarintRoundTrip` | scripts/batch_benchmark_report.py:60-61 | a base-128 varint decodes back to its value, whatever follows it |
| `Wire.VarintLength` | scripts/batch_benchmark_report.py:60-61 | the size formula is the length of the varint |
| `Wire.MessageRoundTrip` | scripts/batch_benchmark_report.py:64-65 | an encoded message decodes to the same fields |
| `Wire.SizesAreLengths` | scripts/batch_benchmark_report.py:127-146 | the request and response sizes are the byte lengths of the encoded messages for every configuration, keys and values |
| `Wire.PointGetIsBatch` | scripts/batch_benchmark_report.py:129-131 | a point GET and its found reply are byte for byte a one-element batch GET and its reply |
| `Mixer.MixBijective` | scripts/batch_benchmark_report.py:307-311 | the mixer and its inverse undo each other on 0..2^64-1 and stay inside it |
| `Mixer.UnfoldFold` | scripts/batch_benchmark_report.py:309-311 | a xor-shift whose third multiple exceeds the width is undone by two xor-shifts, on either side |
| `Mixer.ShrQuotient` | scripts/batch_benchmark_report.py:309-311 | a right shift is the quotient by the power of two |
| `Mixer.TimesInverse` | scripts/batch_benchmark_report.py:309-310 | multiplication by an invertible constant modulo 2^64 is undone by its inverse |
| `Latency.LatencyCheck` | scripts/check-latency-metrics.py:45-64 | accepts exactly unsaturated, conserving, mean-bounded snapshots whose percentiles are the buckets of the percentile samples of whatever was counted |
| `Latency.RecordedAccepted` | scripts/check-latency-metrics.py:45-54 | every snapshot an observer can record meets the conservation and mean conditions |
| `Latency.LatencyExact` | scripts/check-latency-metrics.py:45-64 | snapshots some samples produce are exactly the accepted ones whose extrema lie in the outermost occupied buckets and whose sum those leave possible |
| `Latency.LooseExtrema` | scripts/check-latency-metrics.py:50-52 | one sample counted in the bucket of zero, reported with any other equal minimum, maximum and sum, is accepted though no samples produce it |
| `Latency.Delta` | scripts/benchmark_report.py:99-106 | for a snapshot that extends another, the differences and their percentiles describe exactly the samples recorded in between |
| `Router.RefusedIff` | scripts/chaos_client.py:13-18 | a result is retried exactly when it is exit 1 with no output and the refusal text of some node id of at least one or unknown, with or without the relay's line |
| `Router.Route` | scripts/chaos_client.py:21-47 | every attempt but the last is an exclusive refusal; attempt k goes to candidate k-1 modulo n; one record per command; every budget is the positive time that was left before the one deadline at a moment after the previous attempt ended and before this one began, a tenth of a second less than the one before; at most ten attempts per second of timeout; the answer is the output of a last attempt that exits zero, the error text of one that fails otherwise, an unknown outcome exactly when the last attempt timed out, and exhaustion when it was a refusal or none began in time; at most one command takes effect, none when refusals exhaust the deadline |
| `Router.Probe` | scripts/chaos_client.py:61-82 | only single-key commands without an address of their own are run; the admitted candidates are tried in cyclic order and the excluded node never receives one; the answer follows from the last reply as for a routed command; excluding every candidate is an argument error; at most one command takes effect |
| `Router.AdmittedPositions` | scripts/chaos_client.py:65-67 | the admitted candidates are exactly those at the positions of the other nodes, in order |
| `Router.Try` | scripts/chaos_client.py:28-42 | one command is issued, timed and recorded |
| `Router.Backoff` | scripts/chaos_client.py:26-46 | the pause never makes a further attempt start less than a tenth of a second later |
| `Router.World.Invoke` | scripts/chaos_client.py:74-80 | one command is issued, with any reply; it takes effect at most once and not at all when it is refused |
| `Scheduler.BoundedGroups` | scripts/check-raw-group-protocol.py:204-228 | jobs are submitted in order and at most once, never more than the parallelism in flight, none after a failed result is read, waiting only with a full pool or nothing left; a job is read once, after it finished, and delivered only after it and everything finished was read; nothing is submitted or awaited while a finished result is unread or undelivered; a finished run reads and delivers every result, each exactly once; nothing stays in flight; a failed job is never delivered |
| `Scheduler.RunsSound` | scripts/check-raw-group-protocol.py:204-228 | every trace of the pool's state machine keeps those promises, and the machine's pool, unread and ready jobs are those of the trace |
| `Scheduler.Collect` | scripts/check-raw-group-protocol.py:216-220 | its steps keep those promises: finished results are all read before any is delivered and all delivered before the next round, and a failure cancels what is pending |

## Left out

- Search.Expand: the ranking and pruning heuristics of the guided attempts (`following_read`, `observation_distance`, priorities) are arbitrary choices here; soundness and completeness do not depend on them.
- Checker.Check: the wall clock is an arbitrary interruption, so nothing is claimed about when an attempt gives up.
- Histogram.HistogramCheck: the mean and its tolerance are exact reals; the rounding of the floating-point division is not modelled.
- Parser.Parse: the client and phase fields are taken to be of their types, and JSON shapes are typed values.
- Latency.LatencyCheck: metric inventory, apply-lag pairs and floating-point rates are not modelled.
- Acceptance.Validate: the report's echo of the rows, its latency histograms and the byte, hash, stage and build identity checks are not modelled; the configuration's transport, addresses and history-size bounds are not part of `Workload.Legal`.
- EventLog.ValidateEvents: client names are numbers, and the list of recognized traffic phases is abstracted to a tag.
- Cohort.CohortCheck: the bound on each latency maximum (scripts/batch_benchmark_report.py:425-427) is shown of genuine workers (`Cohort.DurationsFit`) but is not part of the modelled check; stage boundaries, the operation-limit stop and throughput rates are not modelled.
- RetryAccounting.ConsistentIffRealizable: the coupling of counters to attempt histograms and of scheduled to whole-call sums is not modelled.
- Router.World.Invoke: that a node which answers with an exclusive refusal did nothing is an assumption about the store, and the at-most-once result of `Router.Route` and `Router.Probe` rests on it.
- Router.Route: exceptions other than a timeout of the remote command are not modelled; times are exact reals, and a pause is taken to last at least its argument.
- Scheduler.BoundedGroups: a job is known by its position and is never the empty item that ends the source's iterator early; threads appear only as nondeterministic completion.
- Prefix minimization, coverage reports and the command lines of the other scripts.
- Workload logs of the single-key recorder in scripts/workload_report.py, whose validator repeats the structure of the native-batch one.
- Build provenance, process and resource inspection, fault injection, end-to-end fixtures and the protocol models that the scripts drive.
