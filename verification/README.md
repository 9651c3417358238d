# Proofs about theodb_rs

This project models parts of `theodb_rs`, a PostgreSQL extension in Rust, and proves what those parts are for. It covers
six groups, without PostgreSQL, HTTP or SIMD underneath.

**The graph engine** (`graph.rs`, `graph_pgq.rs`). `Graph.dfy` defines the specification: the ball of a radius around
seeds, and that it is what walks of at most that many edges reach. `BuildCsr.dfy` builds the undirected adjacency by
counting and cursor fill; `Adjacency.dfy` searches it with a visited bitset; `MultiSource.dfy` searches it from many
seed sets at once with one bit of a 64-bit word per set, in tiles of 64; `SeedLanes.dfy` groups the SQL arguments into
sets. `PageRank.dfy` proves what Personalized PageRank keeps over every run of the power iteration, and
`PageRankSeries.dfy` its closed form as a discounted random walk; `PathPattern.dfy` has what a path pattern binds,
`PatternGrammar.dfy` the pattern's forms one by one, and `CsrBytes.dfy` that the persisted form is read back. Bit words
are `bv64`, and `Bits.dfy` relates them to sets of positions.

**The vectorizer's job queue** (`vectorizer.rs`). `JobQueue.dfy` has each SQL statement as a step of a transition system
and as a method of the job table; `QueueRuns.dfy` proves what holds in every run of those steps, for any workers, in any
interleaving, with any crashes (a crashed worker takes no further steps), and `QueueOrder.dfy` that jobs are taken in
the order they arrived, by one worker at a time, and not before a lease or backoff is over.

**Quantizers and two-stage search** (`sbq.rs`, `pq.rs`, `sq8.rs`, `vindex.rs`). `Sbq.dfy` and `SbqBytes.dfy` have the
unary bit codes and their Hamming distance; `KMeans.dfy` Lloyd's descent; `Pq.dfy` product quantization and its lookup
table, and `PqRanking.dfy` when the table orders codes rightly; `TwoStage.dfy` the search that ranks by codes and
reranks exactly, over either kind of code; `Sq8.dfy` scalar quantization; `Ranking.dfy` and `VIndex.dfy` the filtered
top-k, and `Probing.dfy` what it returns when only some partitions are probed.

**Caches** (`arrow_cache.rs`, `lexical_core/src/cache.rs`, `load_cached_csr` in `graph.rs`). `EpochCache.dfy` proves
when a per-backend cache keyed by an epoch is invisible, over committed histories and reads at any snapshots.

**The circuit breaker** (`http.rs`). `Breaker.dfy` has the breaker, the retry loop and runs of calls against an
endpoint.

**The columnar store and the splitter** (`am/columnar_codec.rs`, `am/zonemap.rs`, the flush and scan of
`am/columnar.rs`, `chunk.rs`). `ColumnCodec.dfy`, `StripeFormat.dfy`, `ZoneMap.dfy`, `StripeScan.dfy` and
`DirectoryFold.dfy` go from bytes to a table scan with chunk groups skipped, and `FloatValues.dfy` says what float
statistics stand for; `TextChunks.dfy` and `Chunking.dfy` have the three chunking strategies.

The models take the source's form: loops over buffers are methods with invariants proved against specification
functions, the job table, the caches, the breakers and the relation are classes, and what only computes is a function.
Floats are reals, except in column statistics, where they are bit patterns in PostgreSQL's order. The square root that
`l2_distance` takes is a parameter `root`, constrained only to be non-negative and to square to its argument.

## Where code and documentation disagree

The model follows the code in each case.

- `adc_lut` documents squared distances (`theodb_rs/src/pq.rs:71-72`), but fills the table with `l2_distance`, which
  takes the root (`theodb_rs/src/vec.rs:66-70`). The table sum is then exact only when at most one subspace differs, and
  can order two codes against their true distances (`Pq.AdcAgainstDistance`, `PqRanking.MisrankedCorpus`). Codes that
  differ in one subspace are ordered rightly, and a codebook orders all codes rightly for all queries exactly when at
  most one subspace has two different centroids (`PqRanking.AlwaysRanksRightIff`). A vector's own code still has the
  least sum.
- Chunks are said to be packed "up to `size`" (`theodb_rs/src/chunk.rs:145-147`). Carried-over atoms are not counted
  when the next atom is pushed, so a chunk may have `size + overlap + 1` characters (`Chunking.ChunkBoundAttained`); the
  documented bound holds for all texts exactly when the strategy is `fixed` or the overlap is 0
  (`Chunking.TextsFitIff`). Splitting at the separator ". " drops the full stop (`Chunking.RecursiveKeepsIff`).
- Whitespace-only text is said to have no chunks (`theodb_rs/src/chunk.rs:18-19`). The `fixed` strategy checks only for
  empty text, so a space is a chunk (`Chunking.BlankChunk`); blank text has no chunks exactly when the strategy is not
  `fixed` or the text is empty (`Chunking.BlankTextIff`).
- Skipping a chunk group is said to lose no match because NaN never matches a comparison
  (`theodb_rs/src/am/zonemap.rs:80-83`, and the comment at `theodb_rs/src/am/zonemap.rs:312-313`). PostgreSQL orders NaN
  above every other float (section 8.1.3 of the PostgreSQL documentation), the statistics leave NaN out, and `>` and
  `>=` are pushed for float columns (`theodb_rs/src/am/columnar_agg.rs:444-500`), so such a scan loses NaN rows
  (`ZoneMap.SkipLosesARowIff`, `ZoneMap.SkipLosesNaN`). `StripeScan.SkippingIsExactIff` says exactly when a scan loses
  rows.
- The coalescing trigger makes the last operation win (`theodb_rs/src/vectorizer.rs:87-90`), but only within one pending
  row. A job whose worker crashed is claimed again with its old operation after a newer job on the same key completed
  (`QueueRuns.RetryMayBeStale`). A claim is stale exactly when the job was being processed while the key's latest event
  arrived (`QueueRuns.ClaimIsStaleIff`); first claims always carry the latest operation.
- A path pattern with a bare `*` takes the caller's maximum unchecked, so its bounds are an empty range exactly when
  that maximum is below 1 (`PathPattern.RangeIsEmptyIff`, `PathPattern.BareStarMayBeEmpty`).
- The graph cache's epoch is a build time in microseconds; two rebuilds within one microsecond are indistinguishable
  (`EpochCache.BuildTimeCacheIff`, `EpochCache.SharedMicrosecond`).
- Training the scalar quantizer is said to be order-independent (`theodb_rs/src/sq8.rs:22`). The first vector fixes the
  number of dimensions, so reordering vectors of different lengths may change the codebook; it stays the same exactly
  when the first vectors have equal length (`Sq8.TrainingIsOrderIndependent`).

## Model

| member | source | states |
|---|---|---|
| Graph.BallIsWithinHops | theodb_rs/src/graph.rs:93-132 | the specification of the search, level by level, is the set of nodes that a walk of at most h edges reaches from a valid seed |
| Graph.BallFixpoint | theodb_rs/src/graph.rs:126-128 | stopping at an empty frontier is right: a hop that adds nothing ends the search for good |
| Graph.BallStable | theodb_rs/src/graph.rs:110-130 | nnodes - 1 hops reach everything there is to reach |
| Graph.HopCompletesBall | theodb_rs/src/graph.rs:111-130 | expanding only the newest nodes completes the next ball, and the frontier condition holds again |
| Graph.AscendingMembers | theodb_rs/src/graph.rs:131 | the returned list has exactly the reached nodes |
| Graph.AscendingSorted | theodb_rs/src/graph.rs:131 | the returned list is strictly increasing |
| Adjacency.ExpandHop | theodb_rs/src/graph.rs:111-130 | one round of the frontier loop marks exactly the next ball and collects exactly its new nodes |
| Adjacency.Expand | theodb_rs/src/graph.rs:94-132 | the search returns the nodes within max(max_hops, 0) hops of a valid seed, ascending, for every adjacency in bounds, every seeds and every hop count |
| Adjacency.ExpandReaches | theodb_rs/src/graph.rs:93-132 | for a non-negative hop count the returned list is, strictly increasing, exactly the nodes a walk of at most that many edges reaches from a valid seed; for a negative one it is the valid seeds |
| Bits.ClearLowestBits | theodb_rs/src/graph.rs:199-206 | `m & (m - 1)` removes exactly the lowest set bit |
| MultiSource.OrView | theodb_rs/src/graph.rs:169-170 | or-ing a mask into a vertex's word adds the vertex to the lanes of the mask and to no other lane |
| MultiSource.NewBits | theodb_rs/src/graph.rs:185-191 | masking with the complement of seen offers a neighbour to exactly the lanes that have not reached it |
| MultiSource.OfferLanes | theodb_rs/src/graph.rs:183-193 | each lane gains the neighbour once, in its newest set too, and the vertex is listed once in the next frontier |
| MultiSource.SweptAll | theodb_rs/src/graph.rs:179-196 | sweeping the shared frontier completes the next ball of all 64 lanes at once |
| MultiSource.MultiHop | theodb_rs/src/graph.rs:173-197 | one hop takes every lane's seen set from its ball of radius h to radius h + 1, and leaves in its visit set the difference |
| MultiSource.ExtractWord | theodb_rs/src/graph.rs:199-206 | a vertex is handed to exactly the lanes whose bit is set |
| MultiSource.ExpandMulti | theodb_rs/src/graph.rs:141-210 | for any number of seed sets, lane k's list is the very list that the single search returns for set k |
| SeedLanes.FirstSeenDistinct | theodb_rs/src/graph.rs:518-546 | each set number owns one lane |
| SeedLanes.NoSeedsUnseen | theodb_rs/src/graph.rs:518-546 | a set number has a lane exactly when it has a seed |
| SeedLanes.GroupSeedLanes | theodb_rs/src/graph.rs:521-546 | lane k holds, in order, the seeds of the k-th set number to appear; NULL pairs are skipped and unequal lengths rejected |
| SeedLanes.GraphExpandMulti | theodb_rs/src/graph.rs:479-515 | a pair (set, node) is returned, once, exactly when the node is within the hops of a seed of that set; the rows come set by set in order of first appearance, nodes ascending |
| BuildCsr.FillOne | theodb_rs/src/graph.rs:329-335 | writing at a node's cursor fills a free slot of that node, appends to its list and touches no other node's list |
| BuildCsr.TotalSlots | theodb_rs/src/graph.rs:322-328 | the offsets end at twice the number of edges |
| BuildCsr.SlotsMonotone | theodb_rs/src/graph.rs:322-327 | the offsets never decrease |
| BuildCsr.RoomForRow | theodb_rs/src/graph.rs:329-337 | when an edge is filled in, both endpoints have room left, also for a self-loop |
| BuildCsr.IncidentCounts | theodb_rs/src/graph.rs:331-337 | v is in u's list once for each edge joining them, and a self-loop counts twice |
| BuildCsr.IncidentSymmetric | theodb_rs/src/graph.rs:331-337 | u is in v's list as often as v is in u's |
| BuildCsr.BuildCsr | theodb_rs/src/graph.rs:277-340 | a negative or too large identifier is rejected, at the first offending row; otherwise nodes run to the largest identifier, the slots are in bounds and number twice the edges, and each node's slice is its neighbours over all edges in order |
| BuildCsr.AcceptedIff | theodb_rs/src/graph.rs:288-312 | rows are accepted exactly when every identifier is between 0 and 4294967295 |
| BuildCsr.RejectionReason | theodb_rs/src/graph.rs:288-312 | a row with a negative identifier is rejected as negative, also when its other one is too large |
| BuildCsr.BuiltIsSymmetric | theodb_rs/src/graph.rs:329-340 | the built adjacency is an undirected multigraph |
| CsrBytes.FromBytes | theodb_rs/src/graph.rs:65-91 | a buffer is accepted exactly when its length is the announced one, and what is read from it serialises to it |
| CsrBytes.StoredFields | theodb_rs/src/graph.rs:52-63 | the node and edge counts, every offset and every slot stand little-endian at their byte positions |
| CsrBytes.SerializedInjective | theodb_rs/src/graph.rs:52-63 | two adjacencies with the same bytes are equal |
| CsrBytes.SaveLoad | theodb_rs/src/graph.rs:52-91 | reading back what was written returns it |
| CsrBytes.BuiltIsStorable | theodb_rs/src/graph.rs:300-340 | every adjacency that is built fits the stored widths |
| CsrBytes.BuildSaveLoad | theodb_rs/src/graph.rs:356-372 | what a build persists, loaded back, represents the edge table |
| PageRank.ColumnIsDegree | theodb_rs/src/graph.rs:243-254 | in an undirected graph a node is gathered from as often as it has neighbours |
| PageRank.WalkConserves | theodb_rs/src/graph.rs:243-254 | summed over all nodes, what is gathered is what the non-isolated nodes had |
| PageRank.IterateNonNegative | theodb_rs/src/graph.rs:240-256 | no iterate has a negative score |
| PageRank.IterateMass | theodb_rs/src/graph.rs:240-256 | total mass stays at most 1, and after the first round is 1 exactly when the damping is 0 or no restart mass is on an isolated node |
| PageRank.NextContracts | theodb_rs/src/graph.rs:240-256 | a round brings any two vectors closer in L1 by the damping factor |
| PageRank.StepShrinks | theodb_rs/src/graph.rs:240-256 | the k-th step is at most d^k times the first |
| PageRank.StepBound | theodb_rs/src/graph.rs:240-256 | the k-th step moves at most 2 d^k |
| PageRank.IteratesConverge | theodb_rs/src/graph.rs:240-256 | the iterates converge without supposing a limit: any m rounds past the k-th move at most (2 d^k - 2 d^(k+m)) / (1 - d) |
| PageRank.ApproachesStationary | theodb_rs/src/graph.rs:212-215 | iterates approach any stationary vector geometrically |
| PageRank.StationaryIsUnique | theodb_rs/src/graph.rs:212-258 | with damping below 1 there is at most one stationary vector |
| PageRank.RestartIsDistribution | theodb_rs/src/graph.rs:224-239 | the restart vector is non-negative and sums to 1, with repeated seeds and with none valid |
| PageRank.RestartByCount | theodb_rs/src/graph.rs:224-239 | the restart mass of a node is how often it is among the seeds over how many seeds are in range, and uniform when none is |
| PageRank.RankedIsReached | theodb_rs/src/graph.rs:221-257 | after k rounds the nodes with a positive score are the ball of radius k around the seeds |
| PageRank.GatherNode | theodb_rs/src/graph.rs:244-252 | the inner loop sums the shares of the node's neighbours |
| PageRank.Ppr | theodb_rs/src/graph.rs:216-258 | the loops compute exactly `iters` rounds, one for `iters` below 1, from the restart vector with the damping clamped to [0, 0.999] |
| PageRank.BuiltIsUndirected | theodb_rs/src/graph.rs:329-340 | a built adjacency meets what the mass theorems need |
| PageRank.ScoresAreSubDistribution | theodb_rs/src/graph.rs:212-258 | scores over a built graph are non-negative and sum to at most 1, and to 1 exactly when the damping is not positive or no restart mass is isolated |
| PageRank.ScoredAreExpanded | theodb_rs/src/graph.rs:94-258 | with damping and a valid seed, the nodes with a positive score are exactly those that a walk of at most `iters` edges, one for `iters` below 1, reaches from a valid seed, which is what the search returns for that many hops |
| RealSums.ClampIsNearest | theodb_rs/src/graph.rs:221 | clamping gives the value of the interval nearest to the given one |
| PageRankSeries.WalkedEntry | theodb_rs/src/graph.rs:243-254 | a round gives a node, from every node, its mass over its degree once for each time it lists it |
| PageRankSeries.WalkedMix | theodb_rs/src/graph.rs:240-256 | the walk is linear in the vector it starts from |
| PageRankSeries.IterateIsSeries | theodb_rs/src/graph.rs:240-256 | after k rounds a node has the discounted visits of a random walk from the restart vector at steps 0 to k - 1, weighted by 1 - d, and d^k times the walk at step k |
| PageRankSeries.ScoresAreVisits | theodb_rs/src/graph.rs:212-258 | the scores are that closed form with k = iters, and one step of it for iters below 1 |
| PathPattern.RangeIsEmptyIff | theodb_rs/src/graph_pgq.rs:11-42 | accepted bounds are an empty range exactly when the pattern's first star has no quantifier and the default maximum is below 1 |
| PathPattern.BareStarMayBeEmpty | theodb_rs/src/graph_pgq.rs:20-24 | the pattern `*` with default maximum 0 has the bounds 1 to 0 |
| PatternGrammar.NumeralParses | theodb_rs/src/graph_pgq.rs:24-41 | the decimal numeral of n parses as n, and fails above 2147483647 |
| PatternGrammar.PlainEdge | theodb_rs/src/graph_pgq.rs:11-17 | a pattern without a star has the bounds 1 and 1 |
| PatternGrammar.BareStar | theodb_rs/src/graph_pgq.rs:18-23 | a star followed by neither digit nor dot has the bounds 1 and the default |
| PatternGrammar.StarCount | theodb_rs/src/graph_pgq.rs:38-41 | `*N` has the bounds N and N, whatever stands before the star and after the numeral, or is rejected when N does not fit 32 bits |
| PatternGrammar.StarRange | theodb_rs/src/graph_pgq.rs:24-37 | `*A..B` has the bounds A and B, or is rejected for A, for B, or for B below A, in that order |
| PatternGrammar.StarUpTo | theodb_rs/src/graph_pgq.rs:24-37 | `*..B` has the bounds 1 and B, and is rejected for B below 1 |
| PatternGrammar.StarFrom | theodb_rs/src/graph_pgq.rs:24-37 | `*A..` has the bounds A and the default, and is rejected for a default below A |
| PatternGrammar.DistanceIsShortestWalk | theodb_rs/src/graph_pgq.rs:49-52 | a node at distance d is reached by a walk of at most d edges and by no shorter one |
| PathPattern.DistanceUnique | theodb_rs/src/graph_pgq.rs:49-52 | a node has at most one distance |
| PathPattern.BallDifferenceIsShell | theodb_rs/src/graph_pgq.rs:67-100 | the set difference of the two searches is the nodes whose distance is in the range |
| PathPattern.ShellsPartition | theodb_rs/src/graph_pgq.rs:49-52 | adjacent ranges split the joint range's nodes between them |
| PathPattern.PgqMatch | theodb_rs/src/graph_pgq.rs:54-103 | a pattern is rejected exactly when its bounds do not parse; otherwise its bindings are, ascending, exactly the nodes at a distance within the bounds |
| PatternGrammar.MatchCount | theodb_rs/src/graph_pgq.rs:38-103 | matching `*N` binds exactly the nodes at distance N |
| PatternGrammar.MatchRange | theodb_rs/src/graph_pgq.rs:24-103 | matching `*A..B` binds exactly the nodes at a distance from A to B |
| PatternGrammar.MatchEdge | theodb_rs/src/graph_pgq.rs:11-103 | matching a pattern without a star binds exactly the neighbours of the valid seeds that are not seeds themselves |
| JobQueue.JobTable.Enqueue | theodb_rs/src/vectorizer.rs:81-99 | inserts a pending row or overwrites the operation of the one pending for the key |
| JobQueue.JobTable.Select | theodb_rs/src/vectorizer.rs:222-229 | selects claimable rows nobody has locked, oldest first, until the batch is full or none is left |
| JobQueue.JobTable.ClaimBatch | theodb_rs/src/vectorizer.rs:201-249 | the selected rows become this owner's, with a new lease and one attempt burned, and nothing else changes |
| JobQueue.JobTable.MarkDone | theodb_rs/src/vectorizer.rs:255-270 | deletes the row and says so exactly when this owner still holds it |
| JobQueue.JobTable.MarkFailed | theodb_rs/src/vectorizer.rs:277-306 | the guarded retry with backoff or dead letter; aborts without effect when a newer row is pending for the key |
| JobQueue.JobTable.RenewLease | theodb_rs/src/vectorizer.rs:313-328 | extends and counts the listed jobs that this owner still holds |
| JobQueue.JobTable.ReapOrphans | theodb_rs/src/vectorizer.rs:632-647 | fails exactly the rows stuck at the attempt cap with an expired lease |
| JobQueue.JobTable.PurgeDeadLetters | theodb_rs/src/vectorizer.rs:655-668 | keeps the failed rows with the highest numbers |
| QueueRuns.RunInv | theodb_rs/src/vectorizer.rs:42-67 | in every reachable state there is at most one pending row per key, pending rows have no owner and attempts below the cap, processing rows have an owner, a lease and 1 to cap attempts |
| QueueRuns.ClaimsBounded | theodb_rs/src/vectorizer.rs:219-230 | a job is claimed at most max_attempts times, and its attempts count its claims |
| QueueRuns.HolderIsLatestClaimant | theodb_rs/src/vectorizer.rs:255-270 | a processing row is held by the owner of its latest claim |
| QueueRuns.CompletedOnceByLatestClaimant | theodb_rs/src/vectorizer.rs:255-270 | a job is completed at most once, and only by the owner of its latest claim |
| QueueRuns.StaleOwnerChangesNothing | theodb_rs/src/vectorizer.rs:251-328 | whatever an owner that lost its lease reports, the row is unchanged |
| QueueRuns.PendingLeavesByClaim | theodb_rs/src/vectorizer.rs:219-230 | a row leaves pending only through a claim |
| QueueRuns.NoWriteLost | theodb_rs/src/vectorizer.rs:81-99 | after each trigger event, a row carrying the key's latest event is still pending, or one has been claimed since |
| QueueRuns.LatestIsNoOlder | theodb_rs/src/vectorizer.rs:81-99 | the latest event named there is that trigger event or a later one |
| QueueRuns.FirstClaimIsFresh | theodb_rs/src/vectorizer.rs:219-230 | a job claimed for the first time carries its key's latest operation |
| QueueRuns.StaleIffMissed | theodb_rs/src/vectorizer.rs:81-99 | a job carries its key's latest event exactly when it was pending right after that event's trigger ran, that is, when before it the job was pending or not there |
| QueueRuns.ClaimIsStaleIff | theodb_rs/src/vectorizer.rs:87-90 | a claim takes a job with an older operation exactly when the job was being processed while the key's latest event arrived |
| QueueRuns.QuietClaimsAreFresh | theodb_rs/src/vectorizer.rs:87-90 | when no event arrives on a key while one of its jobs is being processed, every claim on the key, retries included, takes the latest operation |
| QueueRuns.RetryMayBeStale | theodb_rs/src/vectorizer.rs:219-230 | a run in which a delete is claimed again after a newer upsert on the same key was completed |
| QueueRuns.JobsKeepPlace | theodb_rs/src/vectorizer.rs:87-90 | over any stretch of a run a job keeps its key and its place in line, whatever events touch it and however often it is retried |
| QueueRuns.EldersGoFirst | theodb_rs/src/vectorizer.rs:222-229 | every job taken by a claim that passes over a claimable, unlocked job is at least as old as it |
| QueueRuns.PassedOverBound | theodb_rs/src/vectorizer.rs:87-90 | claims that could take a job pass over it at most cap times for each job at least as old |
| QueueOrder.ArrivalOf | theodb_rs/src/vectorizer.rs:42-99 | every job was inserted by one trigger event on its key, and its place in line is the time of that event |
| QueueOrder.NumbersAreArrivals | theodb_rs/src/vectorizer.rs:42-99 | of two jobs the one with the lower number was inserted first and is at least as old, in every reachable state |
| QueueOrder.ClaimsFollowArrival | theodb_rs/src/vectorizer.rs:219-230 | first in, first out: when a claim passes over a claimable, unlocked job, every job it takes was inserted before that one, or at the same time |
| QueueOrder.BackoffTable | theodb_rs/src/vectorizer.rs:277-306 | the delays after the first to the eighth failure are 2, 4, 8 and so on to 256 seconds, and 300 from the ninth on |
| QueueOrder.FailureOutcome | theodb_rs/src/vectorizer.rs:277-306 | a reported failure changes nothing unless the owner still holds the job; at the cap the job is dead, also when another is pending for its key; below it the job is pending again, unless another is, and then nothing changes |
| QueueOrder.ClaimableIff | theodb_rs/src/vectorizer.rs:219-306 | until something else happens to it, a claimed, renewed or failed job is claimable exactly when its lease or its backoff is over and it has attempts left |
| QueueOrder.LeaseIsExclusive | theodb_rs/src/vectorizer.rs:219-328 | until the end of its lease a claimed job is not claimed again by anyone, and stays its owner's, unless the owner reports a failure or renews it |
| QueueRuns.NoLimbo | theodb_rs/src/vectorizer.rs:219-230 | once the clock passes its lease, a live job is either claimable or reapable, and reaping fails it |
| QueueRuns.PurgeKeepsNewest | theodb_rs/src/vectorizer.rs:655-668 | purging leaves the newest keep dead letters, or all when there are fewer |
| QueueRuns.WorkBetween | theodb_rs/src/vectorizer.rs:219-306 | from any point on, the effective steps are bounded by the work left and 3 cap + 1 for each new event |
| QueueRuns.WorkIsBounded | theodb_rs/src/vectorizer.rs:219-306 | a whole run has at most 3 cap + 1 effective claims, reports and reaps per trigger event |
| Sbq.BucketMonotone | theodb_rs/src/sbq.rs:74-82 | a larger component never gets fewer bits |
| Sbq.BucketThreshold | theodb_rs/src/sbq.rs:74-82 | the bucket count exceeds j exactly when the z-score is at least (4 j + 2) / bits - 2 |
| Sbq.Quantize | theodb_rs/src/sbq.rs:63-86 | the packed code has dimension d's unary run at bits d·bits onward, across word boundaries, and clear bits elsewhere |
| Sbq.BitsAreThresholds | theodb_rs/src/sbq.rs:63-86 | with one bit, the bit of a dimension is set exactly when the component is above the mean; with more, bit j is set exactly when the component's z-score reaches the j-th threshold |
| Sbq.HammingIsDiff | theodb_rs/src/sbq.rs:155-158 | Hamming distance is the number of bit positions where the codes differ |
| Sbq.HammingIsL1 | theodb_rs/src/sbq.rs:63-86 | Hamming distance of two codes is the L1 distance of the unary counts |
| Sbq.CodesFormAMetric | theodb_rs/src/sbq.rs:155-158 | on the codes of any three vectors it is a metric: symmetric, triangle inequality, zero exactly for equal counts |
| SbqBytes.ByteBits | theodb_rs/src/sbq.rs:160-164 | bit k of byte b is bit 8 b + k of the little-endian word |
| SbqBytes.BytesAgree | theodb_rs/src/sbq.rs:160-164 | byte-wise Hamming distance of stored codes equals the word-wise one |
| SbqBytes.FromMetaBytes | theodb_rs/src/sbq.rs:117-152 | accepts exactly the buffers of the announced length, and what it reads is stored as that buffer |
| SbqBytes.StoredFields | theodb_rs/src/sbq.rs:101-115 | the bits, the dimension and every mean and deviation stand at their byte positions |
| SbqBytes.StoreLoad | theodb_rs/src/sbq.rs:101-152 | a stored codebook loads as itself |
| KMeans.NearestCentroid | theodb_rs/src/pq.rs:91-102 | comparing rooted distances finds the first centroid of least squared distance |
| KMeans.SqDistIsSum | theodb_rs/src/vec.rs:66-70 | the squared distance is the sum over the dimensions of the squared differences |
| KMeans.ReassignmentHelps | theodb_rs/src/pq.rs:121-123 | assigning points to nearer centroids does not raise the cost |
| KMeans.MeanIsBest | theodb_rs/src/pq.rs:128-140 | the mean minimises a cluster's squared error in each coordinate |
| KMeans.StepIsBest | theodb_rs/src/pq.rs:117-145 | for the assignment it makes, a round moves the centroids to a place of least cost among all places |
| KMeans.EmptyClusterStays | theodb_rs/src/pq.rs:128-132 | the centroid of a cluster without points stays where it is |
| KMeans.CostByCluster | theodb_rs/src/pq.rs:118-140 | the cost is the sum over clusters of the sum over coordinates |
| KMeans.StepDescends | theodb_rs/src/pq.rs:117-145 | an iteration never raises the sum of squared distances to the nearest centroids, empty clusters included |
| KMeans.StepsDescend | theodb_rs/src/pq.rs:117-145 | nor does any number of them |
| KMeans.PicksDistinct | theodb_rs/src/pq.rs:109-115 | the initial centroids are at distinct corpus positions for every seed |
| KMeans.PicksEvenlySpaced | theodb_rs/src/pq.rs:109-115 | the first pick is at the offset, and each next one goes on by n / k, rounded down or up, wrapping round the corpus |
| KMeans.LloydKmeans | theodb_rs/src/pq.rs:106-147 | the loops return the iterate after the first round that moves no coordinate by more than the tolerance, or after 25 rounds, of no higher cost than the start |
| KMeans.StillMeans | theodb_rs/src/pq.rs:133-144 | the iteration stops at a round that moves no coordinate by more than 2 to the power of -23 |
| Pq.Train | theodb_rs/src/pq.rs:37-59 | rejects exactly no subspaces, an empty corpus, no dimension or an uneven split; otherwise every subspace has the codebook of its sub-vectors |
| Pq.Encode | theodb_rs/src/pq.rs:62-69 | the code is the nearest centroid of every subspace |
| Pq.EncodingMinimisesAdc | theodb_rs/src/pq.rs:62-88 | a vector's own code has the least table sum of all codes |
| Pq.EntryIsSquareIff | theodb_rs/src/pq.rs:71-82 | a table entry is the documented square exactly when the distance is 0 or 1 |
| Pq.AdcAgainstDistance | theodb_rs/src/pq.rs:71-88 | the table sum is never below the distance to the reconstructed vector, is zero only with it, and equals it exactly when at most one subspace differs |
| PqRanking.OneSubspaceRanksRight | theodb_rs/src/pq.rs:71-88 | codes that agree outside one subspace are ordered by the table as by their distances to the query, for every quantizer and query |
| PqRanking.AlwaysRanksRightIff | theodb_rs/src/pq.rs:71-88 | a codebook's tables order every two codes rightly for every query exactly when at most one subspace has two different centroids |
| PqRanking.MisrankedCorpus | theodb_rs/src/pq.rs:37-88 | training on two vectors gives a codebook whose table orders the vectors' own codes against their distances |
| Pq.RootSumExact | theodb_rs/src/pq.rs:85-88 | roots sum to the root of the sum exactly when at most one term is not zero |
| TwoStage.KeptIsNear | theodb_rs/src/pq.rs:220-226 | of the candidates kept by the first stage each has fewer than k · over_fetch others with a strictly smaller coarse distance |
| TwoStage.DroppedIsFar | theodb_rs/src/pq.rs:220-226 | and each dropped one has more than k · over_fetch, itself included, with none greater |
| TwoStage.ResultsAreNear | theodb_rs/src/pq.rs:215-239 | results are at most k candidates, none more often than in the pool, in order of exact distance, and each has fewer than k · over_fetch others with a strictly smaller coarse distance |
| TwoStage.LeftOutIsFar | theodb_rs/src/pq.rs:215-239 | a candidate is left out only when more than k · over_fetch have no greater coarse distance, or k results have no greater exact distance |
| TwoStage.RerankLength | theodb_rs/src/pq.rs:226-236 | there are k results, or as many as candidates were kept |
| TwoStage.ProductSearch | theodb_rs/src/pq.rs:217-239 | both statements for table sums: each result against its own code's sum, each candidate left out against its own |
| TwoStage.QueryCodeIsLeast | theodb_rs/src/pq.rs:217-225 | no candidate has a smaller table sum than the query's own code |
| TwoStage.StoredQueryIsFound | theodb_rs/src/pq.rs:215-239 | a query stored in the pool comes first in the results when at most k · over_fetch candidates have a table sum as small as its code's |
| TwoStage.HammingIsCountDistance | theodb_rs/src/sbq.rs:226-231 | ranking by Hamming distance ranks by the L1 distance of the bit counts |
| TwoStage.BitSearch | theodb_rs/src/sbq.rs:226-239 | both statements for bit codes: each result, and each candidate left out, against its count distance to the query |
| TwoStage.OverFetchImproves | theodb_rs/src/pq.rs:215-239 | fetching more candidates worsens no position of the reranked result |
| TwoStage.FullFetchIsExact | theodb_rs/src/pq.rs:215-239 | the result never beats the exact ranking of the pool, and has its distances when k · over_fetch covers the pool |
| Ranking.SortMembers | theodb_rs/src/vindex.rs:57-61 | sorting keeps every entry with its multiplicity |
| Ranking.SortSorted | theodb_rs/src/vindex.rs:57-61 | sorting by a total order sorts |
| Ranking.MoreIsNoWorse | theodb_rs/src/vindex.rs:57-61 | a ranking of more entries below every threshold is no worse at any position |
| VIndex.Build | theodb_rs/src/vindex.rs:77-102 | the columns hold the rows in order, each with its nearest centroid's number |
| VIndex.Index.ExactIsBest | theodb_rs/src/vindex.rs:106-112 | the exact answer is in order, and leaves out a labelled row only when k rows come no later |
| VIndex.Index.ExactHoldsLabelled | theodb_rs/src/vindex.rs:106-112 | every entry of the exact answer is a labelled row's score, none more often than there are such rows, and there are k or as many as labelled rows |
| VIndex.Index.FullProbeIsExact | theodb_rs/src/vindex.rs:119-141 | probing every partition, or having no centroids, gives the exact answer as a sequence |
| Probing.ProbedIffNear | theodb_rs/src/vindex.rs:46-55 | a partition is probed exactly when fewer than `probes` centroids are nearer to the query, ties by number, or none is |
| Probing.HitsAreNear | theodb_rs/src/vindex.rs:119-141 | every hit is a labelled row of such a partition with its distance, and hits are in order |
| Probing.NearIsFound | theodb_rs/src/vindex.rs:119-141 | a labelled row of such a partition is left out only when k hits come no later |
| VIndex.Index.ProbesImprove | theodb_rs/src/vindex.rs:119-141 | more probes worsen no position, and none beats the exact answer |
| Sq8.Train | theodb_rs/src/sq8.rs:25-50 | each dimension's bounds are the least and greatest value of the corpus in it |
| Sq8.TrainingIsOrderIndependent | theodb_rs/src/sq8.rs:22-50 | corpora of the same vectors give the same codebook exactly when they are empty or their first vectors have equal length |
| Sq8.ErrorBound | theodb_rs/src/sq8.rs:53-79 | a value within the bounds comes back within vdiff/510 |
| Sq8.CodeRoundTrip | theodb_rs/src/sq8.rs:53-79 | decoding and encoding a code returns it when the dimension has any width |
| Sq8.EncodingIsMonotone | theodb_rs/src/sq8.rs:53-66 | larger values get no smaller codes, and codes are bytes |
| Sq8.TrainEncodeDecode | theodb_rs/src/sq8.rs:25-79 | every corpus vector, encoded and decoded, is within vdiff/510 per dimension |
| Sq8.FromMetaBytes | theodb_rs/src/sq8.rs:101-126 | accepts exactly the buffers that hold what their header announces, and reads what they start with |
| Sq8.StoredFields | theodb_rs/src/sq8.rs:87-99 | the dimension, every minimum and every width stand at their byte positions |
| Sq8.StoreLoad | theodb_rs/src/sq8.rs:87-126 | a stored codebook loads as itself, whatever follows it |
| EpochCache.TransparentIff | theodb_rs/src/am/arrow_cache.rs:76-106 | cached answers equal fresh ones in every run exactly when equal epochs mean equal contents |
| EpochCache.GenerationCacheIsTransparent | theodb_rs/src/am/arrow_cache.rs:25-46 | with generations bumped by every writing or columnarizing transaction, every run of reads at any snapshots, with any evictions, is answered as by fresh builds |
| EpochCache.BuildTimeCacheIff | theodb_rs/src/graph.rs:389-426 | the build-time cache is transparent exactly when no two different rebuilds share a microsecond |
| EpochCache.SharedMicrosecond | theodb_rs/src/graph.rs:389-426 | two different graphs built in one microsecond, and a run of reads that gets the wrong one |
| EpochCache.EntryCache.GetOrBuild | theodb_rs/lexical_core/src/cache.rs:29-40 | a hit returns the entry and changes nothing; a miss builds, stores and returns |
| EpochCache.EntryCache.MakeRoom | theodb_rs/src/am/arrow_cache.rs:95-102 | evicts entries unchanged until a new table fits, and none for a table already there |
| EpochCache.EntryCache.GetOrBuildBounded | theodb_rs/src/am/arrow_cache.rs:79-106 | as above with eviction; a failed build changes nothing, and a cache within its cap stays within it |
| Breaker.Breakers.BreakerAllow | theodb_rs/src/http.rs:48-64 | refuses exactly while open, and turns half-open for the probe it lets through |
| Breaker.Breakers.BreakerRecord | theodb_rs/src/http.rs:68-89 | success closes and resets; failure counts, and opens at K or from half-open |
| Breaker.Breakers.PostJson | theodb_rs/src/http.rs:166-247 | an admitted call sends until the first outcome that is not retried or three times, and records exactly one outcome; a refused call sends nothing |
| Breaker.Call.Sends | theodb_rs/src/http.rs:185-247 | every send but the last had a retryable outcome, and the last was final or the third |
| Breaker.SendsStopAt | theodb_rs/src/http.rs:203-246 | a call goes on exactly after a connection error or a 429, 502 or 503, and stops after three sends |
| Breaker.EntryIsHistory | theodb_rs/src/http.rs:21-30 | between calls the breaker is never half-open, is closed below K trailing failures, and from K on is open until open_ms after the last |
| Breaker.RejectionsNeverTrip | theodb_rs/src/http.rs:220-226 | a call that ends in a status below 500 other than 429 closes the breaker and clears its count |
| Breaker.FailuresTrip | theodb_rs/src/http.rs:220-240 | one that ends in a connection error, a 429 or a status from 500 on adds a failure, and opens the breaker at the fifth or from half-open |
| Breaker.WindowBound | theodb_rs/src/http.rs:21-30 | against an endpoint that only fails, a window of length T admits at most K + ⌊T/open_ms⌋ calls |
| Breaker.WindowBoundIsTight | theodb_rs/src/http.rs:21-30 | for every m there is a run that admits K + m calls in m · open_ms |
| Breaker.SendsBound | theodb_rs/src/http.rs:21-30 | those calls send at most three requests each |
| ColumnCodec.EncodeBitmap | theodb_rs/src/am/columnar_codec.rs:220-229 | bit i is set exactly for a present value, padding bits are clear |
| ColumnCodec.BitIsDigit | theodb_rs/src/am/columnar_codec.rs:220-229 | a bit of a bitmap byte is its binary digit |
| ColumnCodec.EncodeColumn | theodb_rs/src/am/columnar_codec.rs:210-251 | the bytes are the bitmap, if anything is NULL, and the present values; the counts and flags are those of the column |
| ColumnCodec.StreamOpens | theodb_rs/src/am/columnar_codec.rs:230-250 | a present value is stored as its bytes, or as its length in four bytes and its bytes; a NULL takes none |
| ColumnCodec.ParseIff | theodb_rs/src/am/columnar_codec.rs:277-311 | any bytes are read as the values they start with, which are unique, or fail to be read |
| ColumnCodec.DecodeColumn | theodb_rs/src/am/columnar_codec.rs:257-314 | arbitrary bytes give exactly row_count values or an error, and which is what the parse says |
| ColumnCodec.DecodesEncoded | theodb_rs/src/am/columnar_codec.rs:203-314 | the bytes of a column decode to its values and NULLs, fixed or variable width |
| ColumnCodec.RoundTrip | theodb_rs/src/am/columnar_codec.rs:203-314 | encoding and decoding a column returns it |
| ColumnCodec.DecodedIsHeld | theodb_rs/src/am/columnar_codec.rs:257-314 | bytes decode to values exactly when they hold them |
| StripeFormat.HeaderRoundTrip | theodb_rs/src/am/columnar_codec.rs:61-102 | a header read back is the header written |
| StripeFormat.HeaderAccepted | theodb_rs/src/am/columnar_codec.rs:76-102 | a buffer is accepted exactly when long enough with the magic and version, and the header read from it is written as its first 40 bytes |
| StripeFormat.HeaderErrors | theodb_rs/src/am/columnar_codec.rs:76-102 | a header is rejected as too short below 40 bytes, else for a magic other than 0x54435331, else for a version other than 1 |
| StripeFormat.EntryRoundTrip | theodb_rs/src/am/columnar_codec.rs:122-165 | a directory entry with its flags reads back |
| StripeFormat.FlagBits | theodb_rs/src/am/columnar_codec.rs:118-165 | bits 0, 1 and 2 of the flags are has_nulls, has_minmax and all_null |
| StripeFormat.DeserializeDirectory | theodb_rs/src/am/columnar_codec.rs:178-194 | fails exactly on a buffer shorter than the entries, and otherwise reads entry i at its stride |
| StripeFormat.DirectoryRoundTrip | theodb_rs/src/am/columnar_codec.rs:167-194 | a directory read back, also from a padded buffer, is the directory written |
| ZoneMap.WideningKeepsOrder | theodb_rs/src/am/columnar_codec.rs:345-357 | widening a single to a double keeps the order of bit patterns, subnormals, infinities and NaN included |
| FloatValues.RankIsValueOrder | theodb_rs/src/am/columnar_codec.rs:345-357 | on finite patterns the order is that of the binary64 values they stand for, with the infinities and then NaN beyond them |
| FloatValues.WideningKeepsValue | theodb_rs/src/am/columnar_codec.rs:345-350 | widening keeps the value of every finite single, subnormals included |
| FloatValues.FloatsReadByValue | theodb_rs/src/am/columnar_codec.rs:345-356 | a float is read exactly when its bytes suffice, a single as the double of its value and a double as its own pattern |
| FloatValues.BoolsReadByValue | theodb_rs/src/am/columnar_codec.rs:326-327 | a boolean is its first byte, and an empty value is 0 |
| ZoneMap.ComputeMinMax | theodb_rs/src/am/columnar_codec.rs:319-370 | the range encloses every readable value that is not NaN and both ends are such values; there is none when there is no such value |
| ZoneMap.IntegersRankByValue | theodb_rs/src/am/columnar_codec.rs:319-344 | a stored integer's 64-bit pattern stands in the order where its signed value does |
| ZoneMap.SkippedMatches | theodb_rs/src/am/zonemap.rs:84-130 | of a skipped chunk's values exactly the NaNs under > or >= match |
| ZoneMap.SkipLosesARowIff | theodb_rs/src/am/zonemap.rs:84-130 | a skipped chunk holds a matching row exactly when the comparison is > or >= and it holds a NaN |
| ZoneMap.SkipIsExact | theodb_rs/src/am/zonemap.rs:117-130 | without NaN, an inequality skips a chunk exactly when nothing in it matches |
| ZoneMap.EqualitySkipIff | theodb_rs/src/am/zonemap.rs:117-130 | an equality scans a chunk exactly when some value is at most and some at least the constant; a `<>` always scans it |
| ZoneMap.SkipLosesNaN | theodb_rs/src/am/zonemap.rs:94-106 | a chunk of 10 and NaN is skipped for `> 100`, which the NaN satisfies |
| StripeScan.Relation.WriteChunk | theodb_rs/src/am/columnar.rs:2042-2063 | the bytes are on the pages the returned range names, at least one |
| StripeScan.FlushStripe | theodb_rs/src/am/columnar.rs:2065-2155 | the header's page leads to the directory, whose entry (group, column) leads to that chunk's compressed bytes and has its statistics |
| StripeScan.DecodeStripe | theodb_rs/src/am/columnar.rs:764-851 | on any pages returns rows or an error; on a written stripe the wanted columns' rows without the skipped groups |
| StripeScan.SkipsIff | theodb_rs/src/am/columnar.rs:801-830 | a group is skipped exactly when one of the predicates alone skips it |
| StripeScan.SkipsExactly | theodb_rs/src/am/columnar.rs:801-830 | without NaN, an inequality skips a group of a written stripe exactly when none of the group's rows matches it |
| StripeScan.GroupOfRow | theodb_rs/src/am/columnar.rs:764-851 | row r lies in group r / 10000 |
| StripeScan.ScanProjects | theodb_rs/src/am/columnar.rs:764-851 | without skipping, scanned row r has the wanted columns' cells of the table's row r |
| StripeScan.ScanReturnsTable | theodb_rs/src/am/columnar.rs:764-851 | without skipping, a scan of all columns is the table row by row |
| StripeScan.WrittenFits | theodb_rs/src/am/columnar.rs:2065-2155 | when the table's sizes and the relation's block numbers fit their fields, so does everything a flush stores |
| StripeScan.RoundTrip | theodb_rs/src/am/columnar.rs:2518-2547 | a table flushed and scanned back through its header and directory is the table row by row |
| StripeScan.SkippingKeepsRowsIff | theodb_rs/src/am/columnar.rs:801-830 | with one predicate, skipping and re-checking gives the rows of scanning and re-checking exactly unless it is > or >= and a skipped group holds a NaN |
| StripeScan.SkippingIsExactIff | theodb_rs/src/am/columnar.rs:801-830 | for any conjunction, skipping and re-checking gives the rows of scanning and re-checking exactly when no skipped group has a row that is a NaN under > or >= for each predicate that rules the group out and passes the others |
| StripeScan.SkippingIsSafe | theodb_rs/src/am/columnar.rs:801-830 | any conjunction may skip when no > or >= reads a float column with a NaN |
| DirectoryFold.EndIsExtreme | theodb_rs/src/am/columnar.rs:1617-1625 | a range's end is its values' minimum, and for integers their maximum |
| DirectoryFold.DirectoryMinMax | theodb_rs/src/am/columnar.rs:1626-1714 | the directory does not answer exactly for an unordered type, the maximum of floats, a group without statistics, or pending values that are all NaN; otherwise the answer is the extreme of all stored and pending values, and NULL only when there is none |
| TextChunks.FixedChunks | theodb_rs/src/chunk.rs:39-56 | the loop returns the windows at multiples of size - overlap |
| TextChunks.WindowsReassemble | theodb_rs/src/chunk.rs:38-56 | the windows without their overlaps are the text |
| TextChunks.WindowsShape | theodb_rs/src/chunk.rs:38-56 | all windows but the last are full, and each next opens with the last overlap characters and goes on |
| TextChunks.SplitSentences | theodb_rs/src/chunk.rs:60-87 | the loop returns the trimmed pieces between sentence ends |
| TextChunks.SentencesKeep | theodb_rs/src/chunk.rs:58-87 | splitting into sentences loses and reorders only whitespace |
| TextChunks.SentencesAreSentences | theodb_rs/src/chunk.rs:58-87 | each sentence is trimmed, not empty, and has no terminator before whitespace inside |
| TextChunks.SentencesEndAtTerminators | theodb_rs/src/chunk.rs:67-78 | every sentence but the last ends in `.`, `!` or `?` |
| Chunking.PackWithOverlap | theodb_rs/src/chunk.rs:148-178 | the loops return the joined atom ranges of the greedy packing |
| Chunking.PackCovers | theodb_rs/src/chunk.rs:145-178 | the ranges cover the atoms in order; each opens with the longest suffix of the previous that fits in the overlap, and goes on with the atom that did not fit |
| Chunking.PackBound | theodb_rs/src/chunk.rs:148-178 | no chunk exceeds size + overlap + 1 |
| Chunking.PackBoundAttained | theodb_rs/src/chunk.rs:148-178 | for every size and positive overlap some atoms make a chunk of exactly size + overlap + 1 |
| Chunking.PackBoundNoOverlap | theodb_rs/src/chunk.rs:148-178 | without overlap no chunk exceeds the size |
| Chunking.CarriedTooLong | theodb_rs/src/chunk.rs:148-178 | for any overlap, atoms whose second chunk is too long |
| Chunking.ChunksFitIff | theodb_rs/src/chunk.rs:145-147 | all chunks of all lists of atoms within the size stay within the size exactly when there is no overlap |
| Chunking.ChunkBoundAttained | theodb_rs/src/chunk.rs:21-37 | for every size and positive overlap the recursive strategy cuts some text into a chunk of exactly size + overlap + 1 |
| Chunking.SentenceTooLong | theodb_rs/src/chunk.rs:91-106 | for every size and positive overlap the sentence strategy cuts some text into a chunk of size + 2 |
| Chunking.TextsFitIff | theodb_rs/src/chunk.rs:21-37 | all chunks of all texts stay within the size exactly when the strategy is fixed or there is no overlap |
| Chunking.PackKeeps | theodb_rs/src/chunk.rs:148-178 | without overlap the chunks hold all atoms in order |
| Chunking.SentenceChunks | theodb_rs/src/chunk.rs:91-106 | the strategy packs the sentences, the long ones cut into windows |
| Chunking.SplitRecursively | theodb_rs/src/chunk.rs:121-143 | the loop over pieces returns the atoms of the recursion over separators |
| Chunking.SplitIsExact | theodb_rs/src/chunk.rs:131 | the pieces with the separator between them are the text, and no piece contains it |
| Chunking.RecursiveFits | theodb_rs/src/chunk.rs:119-143 | every atom is at most the size |
| Chunking.RecursiveKeeps | theodb_rs/src/chunk.rs:121-143 | without overlap exactly the counted characters of the separators split at are dropped |
| Chunking.ChunkBound | theodb_rs/src/chunk.rs:21-37 | no chunk of any strategy exceeds the size, or size + overlap + 1 when atoms are packed with overlap |
| Chunking.ChunksKeep | theodb_rs/src/chunk.rs:21-178 | without overlap every strategy keeps the text but whitespace, in order, and the recursive one but whitespace and full stops |
| Chunking.ShortTextIsOneChunk | theodb_rs/src/chunk.rs:18-19 | a text within the size that is not blank is one chunk under every strategy: itself, trimmed, or its sentences joined |
| Chunking.BlankTextIff | theodb_rs/src/chunk.rs:18-19 | blank text has no chunks exactly when the strategy is not fixed or the text is empty |
| Chunking.BlankChunk | theodb_rs/src/chunk.rs:38-56 | a single space is a chunk of the fixed strategy |
| Chunking.NoEmptyChunk | theodb_rs/src/chunk.rs:18-19 | no chunk of any strategy is empty |
| Chunking.RecursiveKeepsIff | theodb_rs/src/chunk.rs:110-143 | the recursive strategy keeps full stops too exactly when no overlong line of an overlong paragraph has one before a space |
| Chunking.RecursiveDropsStop | theodb_rs/src/chunk.rs:115 | a text that loses its full stop |
| Chunking.Chunk | theodb_rs/src/chunk.rs:21-37 | zero size, overlap not below the size and unknown strategies are rejected in that order |
| Chunking.RejectionsInOrder | theodb_rs/src/chunk.rs:21-37 | exactly size 0, then an overlap not below the size, then a strategy other than the three is rejected |
| LittleEndian.DecodeEncode | theodb_rs/src/graph.rs:52-91 | a little-endian integer that fits its width reads back |
| LittleEndian.EncodeDecode | theodb_rs/src/graph.rs:52-91 | bytes are those of the integer they are read as |
| LittleEndian.ByteIsDigit | theodb_rs/src/graph.rs:52-63 | byte i is the i-th digit to base 256 |

## Left out

- SPI, SQL text, privileges, advisory locks, settings and pgrx datums: glue; settings are parameters. `FOR UPDATE SKIP
  LOCKED` is an atomic claim that takes the locked rows as a parameter.
- Floating-point rounding, NaN and infinity outside column statistics; the sum of f32 squares is exact. Sizes and
  counters are unbounded except where bytes are stored: wrap-around of `attempts`, `fails` and `generation` is not
  modelled.
- The worker loop, target-table writes and embedding calls: a worker may write its target before a guarded mark tells it
  that its lease is lost (`theodb_rs/src/vectorizer.rs:604-612`), so nothing is claimed about the target.
- `ON DELETE CASCADE` of a vectorizer, and `last_error`.
- The job rows' `stamp` and the queue's `events` number trigger events for the theorems; no statement reads them.
- Candidate generation by IVF carriers in `knn`: the pool is an arbitrary list; its two sorts and truncations are
  functions, not loops. The IVF centroids of the column index are an arbitrary input.
- Rendering, merging and the row cursor of the scan above the decoded rows; the executor's re-check is a filter.
- Training the SBQ means and deviations; the codebook is arbitrary with deviations that are not zero.
- The three caches hold any content; a backend does not fill its cache inside a transaction that has written and later
  aborts (the source says why, `theodb_rs/src/am/arrow_cache.rs:51-56`). Dropped tables whose number is reused are not
  modelled.
- The breaker's clock is monotone and each backend makes one call at a time. The egress guard, the parse of the body,
  the warnings and the sleeps between attempts are not modelled.
- zstd is a pair of functions of which one undoes the other. `page.rs` is not part of this model: a page holds one item,
  and reading a run of pages concatenates their items; other backends' pages are not interleaved.
- Heap tuples: a row is its cells. Tables have at least one column, since the scan indexes the first one's entry.
- StripeScan.DecodeStripe: sizes that do not fit the 32-bit directory fields are truncated as the casts do, and what is
  then read back is not stated.
- ZoneMap.ComputeMinMax: equal values keep the first pattern, where `f64::min` may return either zero.
- DirectoryFold.DirectoryMinMax: takes the column's entries of all visible stripes in order; stripe visibility is not
  modelled.
- Sq8.Train: goes dimension by dimension where the source goes vector by vector; the guard for dimensions that stay
  infinite is not modelled, as values are finite.
- Chunking.SplitRecursively: separators are not empty; `char::is_whitespace` is the Unicode White_Space list.
- DataFusion, Arrow, Parquet, Tantivy, HNSW and page formats, fsync and rename.
