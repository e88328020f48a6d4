# Verification models for agent_workspace

Dafny models of the stateful and algorithmic parts of `agent_workspace`, with proofs of what they are for. `dafny verify dfyconfig.toml` checks everything.

| files | models |
|---|---|
| `Hashing`, `MerkleTree`, `MerkleProofs` | SHA-256 as an arbitrary function, the bottom-up Merkle tree, generation and verification of membership proofs |
| `AuditChain`, `AuditLedger` | the hash chain, the ledger table and its operations |
| `AuditConsensus`, `ReplicationProtocol`, `ReplicationCatchUp`, `ReplicationHistory` | the handlers of the consensus daemon, and any number of honest nodes over a network that loses, duplicates, delays and reorders |
| `StageGraph` | the stage-graph check of the workflow linter |
| `Basics`, `Text`, `Dictionaries`, `Sorting` | shared functions and facts, decimal and joined texts, Python's insertion-ordered dictionaries and stable sort |
| `QueryCache`, `MemoryTable`, `MemoryQueries`, `MemoryStore`, `DiversitySelection` | the LRU query cache, the table of memories, questions and their cache keys, the cached query path of the memory store, re-ranking and partitioning |
| `RateLimiter`, `QuotaRouter` | two kinds of sliding windows with pruned state |
| `DebateBudget` | the semaphore and counters of a debate under every interleaving |
| `TopologyState` | the topology snapshot: writing, reading back, restarting |
| `TokenBounding` | the two truncation loops of the delegation packet |
| `ChaosRules` | the lazily pruned fault rules |

Methods that change state are methods of classes or loops over local values, each proved against a function of the inputs or of a history; the lemmas are about those functions. Histories are ghost: the program's pruned or evicted state is always compared with everything that ever happened.

## Assumptions

- Hashes: no injectivity is assumed of SHA-256. Where collision resistance is needed, a lemma requires that no two of the texts actually hashed (by a tree, a climb, or the nodes of a run) collide, and where the empty ledger matters, that none of them hashes to 64 zeros.
- JSON: `json.loads(json.dumps(v)) == v`, and the dump of a dictionary ends in `}`. Timestamps contain no `}`.
- Each handler, each body under a lock and each stretch between two awaits is one atomic step. Queries of the memory store and its writes do not interleave; `LateStoreExactly` says what is lost when they do. Time is an input that does not go back, except where a lemma says what a wrong order costs. Numbers that are floats in the program are reals.
- Ledgers of the replication protocol hold one tenant and are not reset, so ids are 1..n. Messages carry the fields their types have. The key `peer:count` of a pending request is the pair.
- The query cache holds at least one entry; the store makes it for 128.
- The rows a store starts with are stored under their own session and id, as every writer in the repository stores them.
- Backend search and query parsing are deterministic functions of the stored rows and the query; new rule ids of the fault manager are fresh.

## What the code does that its documentation does not say

- `verify_merkle_proof` also accepts the 128-character text of an inner node as an event hash. Hashing leaves once (merkle.py:20, and core-merkle.md) is not domain separation. Membership is exact for every other string, so for every real event hash.
- Roots of lists of different lengths can coincide, exactly when their paddings do: `[a, b, c]` and `[a, b, c, c]`.
- A chain hash covers previous hash, payload and timestamp without a separator. Moving a character from the timestamp to the payload goes unnoticed; replacing one genuine record by another does not. Event type, tenant and id are not sealed.
- The joined cache key belongs to one question only when that question is distinctive: its session and domain are given, the session has no colon and is not the text `None`, the domain is not that text and has no numeral of a limit from 1 to 100 as a segment before a colon, and its text has no colon. Every other question can be given another one's answer, the default question without session and domain included, once somebody asks with the domain or session `None` as a text: domains are not validated on the way in (routes/chat.py:421-444), and `None` passes the session pattern (core/security.py:20). Distinctive questions are always answered as by the backend; other safe ones only while nothing but safe questions has been asked since the cache was cleared. Setting a key that is present does not keep LRU order, except at one end; `query` never does that. `cli.py:127` writes to the backend past the cache, so the refinement holds for mutation through the store only.
- "Fetch more candidates" (long_term_memory.py:720) never gets more than the limit: `query` cuts its answer to the result limit whatever was fetched.
- Where the age of an episodic record cannot be read, the handler calls `rec.get` on a record that has no such method (long_term_memory.py:767-768), so one record with a date-only or free-text time makes the whole retrieval fail. That a text is no ISO time is a fact about the library, and a parameter here; the zone put after it is modelled.
- The total of bounded files stays within the budget exactly when the budget has 50 tokens for each file (delegation_packet.py:91 promises it always), also with the counter of four characters a token.
- A partition with an empty side blocks more than the pairs across it, because an empty list stands for all nodes.

## Model

| member | source | states |
|---|---|---|
| MerkleTree.BuildTree | agent_workspace/core/merkle.py:16-34 | the level-by-level loop computes the root the specification gives, the zero hash for no leaves |
| MerkleTree.PairUp | agent_workspace/core/merkle.py:24-32 | one pass makes the level above, the odd last node being paired with itself |
| MerkleTree.RootIsPerfectTree | agent_workspace/core/merkle.py:16-34 | the loop's root is that of the perfect binary tree over the leaves padded by repetition, and hashes nothing else |
| MerkleTree.TreeBinds | agent_workspace/core/merkle.py:20-32 | two trees of 64-character leaves with one root are the same tree, whatever their shapes |
| MerkleTree.RootsCoincideExactly | agent_workspace/core/merkle.py:16-34 | two leaf lists of any lengths, empty ones included, have one root if and only if their paddings are one list |
| MerkleTree.RootBindsLeaves | agent_workspace/core/merkle.py:16-34 | lists of one length have one root if and only if they are equal |
| MerkleTree.PaddedExtends | agent_workspace/core/merkle.py:27-28 | padding only appends to the leaves |
| MerkleTree.OddLeafRepeated | agent_workspace/core/merkle.py:27-28 | repeating an odd last leaf leaves the root unchanged |
| MerkleProofs.BuildLevels | agent_workspace/core/audit_ledger.py:266-280 | the levels kept for a proof are those of the tree, each the parents of the one below |
| MerkleProofs.SiblingStep | agent_workspace/core/audit_ledger.py:288-300 | the sibling and the side it stands on, a lone last node being its own sibling |
| MerkleProofs.ProofPath | agent_workspace/core/audit_ledger.py:284-301 | the steps are the siblings of the ancestors of the node, one for each level below the root |
| MerkleProofs.VerifyMerkleProof | agent_workspace/core/audit_ledger.py:309-330 | accepts exactly non-empty texts whose climb through complete steps ends in the root |
| MerkleProofs.OnlyLeftMatters | agent_workspace/core/audit_ledger.py:321-328 | any position but "left" is read as right |
| MerkleProofs.PathAccepted | agent_workspace/core/audit_ledger.py:284-330 | completeness: the path of any node of any level of any tree is accepted against the tree's root, whatever the parities |
| MerkleProofs.AcceptedIsTreeInput | agent_workspace/core/audit_ledger.py:309-330 | whatever is accepted, with a proof of any length, was hashed in building the tree |
| MerkleProofs.MembershipSound | agent_workspace/core/audit_ledger.py:309-330 | an accepted 64-character event hash is one of the leaves, also for the empty tree |
| MerkleProofs.ProvableExactly | agent_workspace/core/audit_ledger.py:309-330 | the texts with an accepted proof are exactly the leaves and the texts of inner nodes |
| MerkleProofs.MembershipExactUnlessInner | agent_workspace/core/audit_ledger.py:309-330 | acceptance means membership if and only if the text is not that of an inner node, so for every text that has not 128 characters |
| AuditChain.HashFixesHistory | agent_workspace/core/audit_ledger.py:102-109 | in two chains one hash stands at one position only and everything up to it was sealed over the same texts |
| AuditChain.TipFixesHistory | agent_workspace/core/audit_ledger.py:102-109 | chains that would be continued from one hash have one length and one history, empty ones included |
| AuditChain.GenuineAgree | agent_workspace/core/audit_ledger.py:96-109 | records as the ledger makes them that were sealed over one text have one payload and one timestamp |
| AuditChain.RewriteUnnoticedExactly | agent_workspace/core/audit_ledger.py:153-167 | a record rewritten in place passes the check if and only if canonical payload and timestamp still join to the same text |
| AuditChain.GenuineRewriteNoticed | agent_workspace/core/audit_ledger.py:153-167 | a genuine record cannot be replaced by another genuine one unnoticed |
| AuditChain.MetadataUnsealed | agent_workspace/core/audit_ledger.py:108 | changing event type, tenant or id of a record never changes whether the chain is valid |
| AuditChain.BoundaryShiftUnnoticed | agent_workspace/core/audit_ledger.py:155-163 | moving the first character of the time to the end of the payload is not noticed |
| AuditLedger.UpsertContents | agent_workspace/core/audit_ledger.py:229-235 | insert-or-replace maps the id to the new row and leaves every other row |
| AuditLedger.BatchAppendsExactly | agent_workspace/core/audit_ledger.py:673-682 | a batch only appends if and only if its ids go on from those of the table |
| AuditLedger.AuditLedger.RecordEvent | agent_workspace/core/audit_ledger.py:94-124 | one row more: it holds the event, its payload is the dump of the dictionary given, it names the last hash or 64 zeros and is sealed over hash, payload and time; all other rows stay |
| AuditLedger.AuditLedger.VerifyChainIntegrity | agent_workspace/core/audit_ledger.py:126-173 | valid exactly on chains, with the tree's root; otherwise the first row whose link or content fails, link first, and a zero root |
| AuditLedger.Select | agent_workspace/core/audit_ledger.py:175-195 | exactly the rows of the tenant, and of the event type if one is given, in id order |
| AuditLedger.After | agent_workspace/core/audit_ledger.py:210-220 | exactly the rows with greater ids, in id order |
| AuditLedger.AuditLedger.GetLogs | agent_workspace/core/audit_ledger.py:175-195 | the loop returns every row of the tenant and type asked for, none else and none twice, in id order |
| AuditLedger.AuditLedger.GetLogsAfter | agent_workspace/core/audit_ledger.py:210-220 | the loop returns every row with a greater id, none else and none twice, in id order |
| AuditLedger.AuditLedger.InsertRawEvent | agent_workspace/core/audit_ledger.py:224-238 | afterwards the table holds the row, every old row with another id, and nothing else, in id order |
| AuditLedger.AuditLedger.GenerateMerkleProof | agent_workspace/core/audit_ledger.py:240-307 | nothing exactly for unknown ids; otherwise the tree's own root, the row's hash, and a proof that verification accepts |
| AuditLedger.RecordedLedgersAreChains | agent_workspace/core/audit_ledger.py:94-124 | any sequence of recordings from empty leaves a valid chain with ids 1..n |
| AuditLedger.EventsReadBack | agent_workspace/core/audit_ledger.py:94-124 | row i of a recorded ledger holds event i, and its payload is read back |
| AuditConsensus.AuditConsensusDaemon.BroadcastStatus | agent_workspace/core/audit_ledger.py:496-509 | one ping with the root over all rows and the count of the default tenant |
| AuditConsensus.AuditConsensusDaemon.ProcessPing | agent_workspace/core/audit_ledger.py:528-587 | peer state, pending requests, table and messages after a ping are those of the protocol's step; queries are answered with the status, and pings of the node itself or of nobody ignored |
| AuditConsensus.PingExactly | agent_workspace/core/audit_ledger.py:535-587 | what a ping leaves, field by field: the peer as it reported itself with the status the comparison gives, one request for exactly what is missing, a fork recorded with both roots |
| AuditConsensus.AuditConsensusDaemon.ProcessRequest | agent_workspace/core/audit_ledger.py:589-609 | a request addressed to the node is answered once, on the requester's channel, with exactly the rows of greater id in id order; any other is not |
| AuditConsensus.AuditConsensusDaemon.VerifyIncoming | agent_workspace/core/audit_ledger.py:627-658 | fails exactly when some record does not link or does not match its hash |
| AuditConsensus.AuditConsensusDaemon.InsertAll | agent_workspace/core/audit_ledger.py:672-682 | the table after the loop is the old one with the batch upserted in order |
| AuditConsensus.AuditConsensusDaemon.Restore | agent_workspace/core/audit_ledger.py:672-697 | the batch is upserted, the pending request cleared and the recovery recorded |
| AuditConsensus.AuditConsensusDaemon.ProcessResponse | agent_workspace/core/audit_ledger.py:611-697 | rejects with a violation event or inserts with a recovery event, as the protocol's step says |
| ReplicationProtocol.AcceptedExactly | agent_workspace/core/audit_ledger.py:620-658 | a slice of an honest ledger passes the link check exactly on nodes whose whole history is the part before it |
| ReplicationProtocol.AcceptedAppends | agent_workspace/core/audit_ledger.py:620-682 | so its ids go on from the local ones, nothing is replaced, and the ledger stays honest |
| ReplicationProtocol.NextKeeps | agent_workspace/core/audit_ledger.py:528-697 | every step keeps every ledger a chain of genuine records with ids 1..n and every message once true |
| ReplicationProtocol.RunInvariant | agent_workspace/core/audit_ledger.py:528-697 | the same in every state of every run, with no check of ids in the code |
| ReplicationProtocol.RunAppendOnly | agent_workspace/core/audit_ledger.py:224-238 | over a whole run ledgers only grow by appending: no row is ever replaced |
| ReplicationProtocol.LogMatching | agent_workspace/core/audit_ledger.py:94-124 | records with one hash, on any nodes at any times of a run, have one id and all earlier records agree |
| ReplicationProtocol.PingClassifiesExactly | agent_workspace/core/audit_ledger.py:541-587 | synchronized exactly for equal hash sequences, a fork event exactly for equal counts and different ones, a request exactly when the peer has more and none is pending |
| ReplicationProtocol.ForkEventsAreReal | agent_workspace/core/audit_ledger.py:575-587 | in reachable states a fork event is recorded exactly when the histories really differ |
| ReplicationCatchUp.RequestAnswered | agent_workspace/core/audit_ledger.py:589-609 | an honest node answers, on the requester's channel, with all its rows from the requested one on |
| ReplicationCatchUp.CatchUpExactly | agent_workspace/core/audit_ledger.py:535-697 | ping, request and answer delivered in turn leave the shorter node with exactly the rows it lacked and its recovery event, if its history was the other's; if not, with its own rows and a violation event |
| ReplicationHistory.OneRequestBetweenRestarts | agent_workspace/core/audit_ledger.py:560-573 | between its restarts a node publishes at most one request for a peer and a length, so a lost one is not repeated until the ledger has grown |
| ReplicationHistory.LastRowIsOwn | agent_workspace/core/audit_ledger.py:660-697 | in every run the last row of a ledger is one its own node sealed |
| ReplicationHistory.AgreementIsCoincidence | agent_workspace/core/audit_ledger.py:690-697 | two nodes with one ledger that has rows have each sealed its last row themselves, at one time over one history |
| StageGraph.CollectIds | agent_workspace/workflow_lint.py:167-172 | accepts exactly unique ids and names the first repeated one |
| StageGraph.CheckDependencies | agent_workspace/workflow_lint.py:174-179 | accepts exactly known dependencies other than the stage itself and names the first that is not |
| StageGraph.StageVisitor.Visit | agent_workspace/workflow_lint.py:185-194 | terminates; either the stage and all it needs are finished in dependency order and the stack is restored, or a real cycle runs through the reported stage |
| StageGraph.OrderExcludesCycle | agent_workspace/workflow_lint.py:181-197 | a graph with a topological order has no cycle |
| StageGraph.GraphIsStages | agent_workspace/workflow_lint.py:181 | the graph searched has an order exactly when the stages have one, and its cycles are those of the stages |
| StageGraph.FindCycle | agent_workspace/workflow_lint.py:182-197 | nothing exactly where the stages can be ordered, otherwise a stage on a cycle |
| StageGraph.ValidateStageGraph | agent_workspace/workflow_lint.py:166-198 | accepts exactly lists with unique ids and known dependencies whose stages have an order in which each comes after all it lists; a rejection names a fault that is there, for a cycle a stage on a cycle of stages |
| QueryCache.FTS5QueryCache.Get | agent_workspace/long_term_memory.py:129-136 | the stored value, and its key moved to the end |
| QueryCache.FTS5QueryCache.Set | agent_workspace/long_term_memory.py:138-144 | a full cache first drops its first key; a present key keeps its place |
| QueryCache.RecencyOrdersByLastTouch | agent_workspace/long_term_memory.py:129-144 | recency order lists every touched key, ordered by last touch |
| QueryCache.HitKeepsLru | agent_workspace/long_term_memory.py:129-136 | a hit keeps dictionary order recency order and the cache the last keys touched |
| QueryCache.MissKeepsLru | agent_workspace/long_term_memory.py:138-144 | storing a missing key does so too, evicting the least recently used |
| QueryCache.StorePresentLruExactly | agent_workspace/long_term_memory.py:138-144 | storing a present key does so only if the cache is full and the key the oldest, or not full and the key the newest |
| MemoryQueries.NormalizeLimit | agent_workspace/long_term_memory.py:64-86 | refuses exactly limits below 1; otherwise the limit cut at 100, and three times that to fetch for a domain or oversampling |
| MemoryQueries.AnswerExactly | agent_workspace/long_term_memory.py:416-467 | one answer fits a question, and it is the one computed: in order, the first matching records of what the search returns for parsed or raw text, as many as there are up to the limit |
| MemoryQueries.KeyInjective | agent_workspace/long_term_memory.py:429 | safe queries with one cache key ask the same question; domains with colons are safe unless a segment before a colon is the numeral of a limit |
| MemoryQueries.SameQuestionSameAnswer | agent_workspace/long_term_memory.py:433-467 | the fields of the key decide the answer |
| MemoryQueries.DistinctiveKey | agent_workspace/long_term_memory.py:429 | the key of a distinctive question is that of no other question, safe or not |
| MemoryQueries.ConfusableExactly | agent_workspace/long_term_memory.py:429-433 | for each question: some other question can be given its answer, or it the other's, if and only if it is not distinctive |
| MemoryQueries.ConfusableWithSafeExactly | agent_workspace/long_term_memory.py:429-433 | for each question: the other can be a safe one if and only if this one is not safe |
| MemoryQueries.DomainConfuses | agent_workspace/long_term_memory.py:429-433 | for any session the domain None as a text is confused with no domain, and the domain 7:b with another question |
| MemoryStore.LateStoreExactly | agent_workspace/long_term_memory.py:450-470 | an answer searched before a write and stored after it leaves the cache coherent if and only if the write did not change that answer |
| MemoryStore.LongTermMemoryStore.RunQuery | agent_workspace/long_term_memory.py:416-486 | a question that misses the cache, and a distinctive question always, gets the first matching records of what the engine finds now; any safe question does while all asked before were safe; the cache stays LRU |
| MemoryTable.ReadAfterWrite | agent_workspace/memory_backends.py:218-248 | a write is read back under its key and leaves every other key alone |
| MemoryTable.ReadAfterDelete | agent_workspace/memory_backends.py:303-318 | a deleted key is gone and every other key is as it was |
| Text.LessExactly | agent_workspace/long_term_memory.py:635 | texts are ordered by where they first differ |
| MemoryTable.PrunedExactly | agent_workspace/long_term_memory.py:628-640 | pruning leaves exactly the rows that have not expired |
| MemoryTable.MovedExactly | agent_workspace/long_term_memory.py:678-708 | every record found under an item ends in the new category, every other record stays |
| MemoryTable.MovableCounts | agent_workspace/long_term_memory.py:678-708 | the rows counted are the items that name one |
| MemoryStore.LongTermMemoryStore.WriteRecord | agent_workspace/long_term_memory.py:860-862 | the row is inserted or replaced and the cache agrees with the backend again |
| MemoryStore.LongTermMemoryStore.AddRecord | agent_workspace/long_term_memory.py:492-619 | a stored record is returned, with the caller's fields and without writing; a new one is written with its embedding; coherence is kept |
| MemoryStore.LongTermMemoryStore.AddRouteOutcome | agent_workspace/long_term_memory.py:367-392 | the outcome is written with its embedding and the cache agrees with the backend again |
| MemoryStore.LongTermMemoryStore.DeleteRecord | agent_workspace/long_term_memory.py:621-626 | true exactly when the row was there; its key reads as gone, every other as before; coherence is kept |
| MemoryStore.LongTermMemoryStore.PruneExpired | agent_workspace/long_term_memory.py:628-640 | exactly the expired rows go, and are counted; coherence is kept |
| MemoryStore.LongTermMemoryStore.UpdateRecord | agent_workspace/long_term_memory.py:642-676 | an existing row is revised field by field and embedded, every other row is as it was, a missing one is refused; coherence is kept |
| MemoryTable.RewriteKeepsMovable | agent_workspace/long_term_memory.py:685-705 | moving one record does not change which of the other items are found |
| MemoryStore.LongTermMemoryStore.BatchMove | agent_workspace/long_term_memory.py:678-708 | exactly the records found under an item move, and are counted; coherence is kept |
| DiversitySelection.Rank | agent_workspace/long_term_memory.py:731-771 | every candidate with its score in order; an error exactly when some episodic record has a time that cannot be read or a decay factor is zero, and the first such decides which |
| DiversitySelection.FailsExactlyUnreadable | agent_workspace/long_term_memory.py:755-768 | with a decay rate that is not negative ranking fails exactly when some episodic record's time cannot be read |
| DiversitySelection.DateOnlyFails | agent_workspace/long_term_memory.py:755-768 | one record with a date for a time fails the ranking of all candidates it is among, since a zone right after a date does not read |
| DiversitySelection.ScoreExactly | agent_workspace/long_term_memory.py:739-770 | the score: weight 3 for preferences, 2 for facts, 1 otherwise, by the confidence kept between 0.1 and 1, over the rank and over the growth of an episodic record's age |
| DiversitySelection.PositiveExactly | agent_workspace/long_term_memory.py:739-770 | a score is positive exactly when the decay factor is |
| DiversitySelection.SortedDescends | agent_workspace/long_term_memory.py:774 | the sort is descending |
| DiversitySelection.SortIsStable | agent_workspace/long_term_memory.py:774 | equal scores keep their order |
| DiversitySelection.SelectDiverse | agent_workspace/long_term_memory.py:776-790 | the loop with its early exit keeps exactly the greedy selection |
| DiversitySelection.GreedyTakesExactly | agent_workspace/long_term_memory.py:776-790 | a candidate is taken exactly when those taken before leave room for it, and for an episodic one room under the cap |
| DiversitySelection.ChosenExactly | agent_workspace/long_term_memory.py:776-790 | the records returned are those taken, each once, in order |
| DiversitySelection.GreedyBest | agent_workspace/long_term_memory.py:776-790 | no selection within both limits has a greater total score |
| DiversitySelection.TakesNoNegativeExactly | agent_workspace/long_term_memory.py:776-790 | the greedy selection takes no negative score exactly when there is none, no room for one, or only such as the episodic cap shuts out, counted over the candidates |
| DiversitySelection.GreedyOptimalExactly | agent_workspace/long_term_memory.py:776-790 | the greedy selection is optimal if and only if that holds of the candidates |
| DiversitySelection.PartitionBestExactly | agent_workspace/long_term_memory.py:774-790 | sorting and selecting reach the best total over the candidates in the order found, if and only if that holds of them |
| DiversitySelection.CandidatesAnswer | agent_workspace/long_term_memory.py:719-727 | the candidates are the answer to the query with the limit cut at 100, never more than that |
| DiversitySelection.RetrieveRecords | agent_workspace/long_term_memory.py:719-790 | from query to selection: fails exactly when a candidate cannot be scored; otherwise the best selection of what the backend holds now, for any decay rate that is not negative |
| RateLimiter.EveryWindow | agent_workspace/core/rate_limit.py:35-47 | no closed window of the configured length holds more than the limit of a tenant's accepted requests |
| RateLimiter.TenantsApart | agent_workspace/core/rate_limit.py:35-47 | what passes of a tenant is what would pass without all others |
| RateLimiter.RefusedExactly | agent_workspace/core/rate_limit.py:25-42 | over any history, a request passes exactly when its closed window has room |
| RateLimiter.TenantRequestRateLimiter.Create | agent_workspace/core/rate_limit.py:14-19 | a limiter without history exactly for a positive limit and window |
| RateLimiter.TenantRequestRateLimiter.Consume | agent_workspace/core/rate_limit.py:21-50 | refused exactly when the closed window that ends with the request holds the limit of accepted requests already; the pruned table is the recent part of that history |
| RateLimiter.TenantRequestRateLimiter.EveryWindowWithinLimit | agent_workspace/core/rate_limit.py:21-48 | the bound on every window, in every reachable state of the limiter |
| QuotaRouter.PrunedWindowExactly | agent_workspace/core/account_manager.py:64-75 | the pruned lists show the full window exactly when no earlier reading with a later cutoff dropped one of its requests |
| QuotaRouter.RisingCutoffsLoseNothing | agent_workspace/core/account_manager.py:64-75 | with cutoffs that do not go back the metrics are those of the full history |
| QuotaRouter.WindowCounts | agent_workspace/core/account_manager.py:64-75 | the full window has one sample for each request made in it |
| QuotaRouter.BackoffGrowsExactly | agent_workspace/core/account_manager.py:42 | the delay never exceeds its cap, and never shrinks if and only if the base is not negative |
| QuotaRouter.BackoffDoubles | agent_workspace/core/account_manager.py:42 | the first delay is the base, each next one twice the last, up to the cap |
| QuotaRouter.StrikesCount | agent_workspace/core/account_manager.py:37-38 | the marks counted are all those ever made of the account |
| QuotaRouter.QuotaAwareRouter.MarkRateLimited | agent_workspace/core/account_manager.py:34-44 | the delay given or the backoff of all marks so far, and the account cools until then |
| QuotaRouter.QuotaAwareRouter.IsAccountCooling | agent_workspace/core/account_manager.py:46-55 | the answer of the last mark ever made, whatever was evicted |
| QuotaRouter.QuotaAwareRouter.RecordRequestTelemetry | agent_workspace/core/account_manager.py:57-62 | both lists gain the request at one time |
| QuotaRouter.QuotaAwareRouter.GetRateMetrics | agent_workspace/core/account_manager.py:64-75 | counts and sums over what is kept, over the full history exactly when nothing was lost; both lists keep the same times |
| QuotaRouter.NoCandidateExactly | agent_workspace/core/account_manager.py:83-99 | the candidate list is empty exactly when every account is nameless, cooling or out of budget |
| QuotaRouter.ActiveOrFirst | agent_workspace/core/account_manager.py:107-115 | the first active account, the first account if none is active |
| QuotaRouter.Choose | agent_workspace/core/account_manager.py:101-115 | the first candidate no other outranks: preferred provider, then active |
| QuotaRouter.BestIsPreferred | agent_workspace/core/account_manager.py:101-115 | the best candidate is the first usable account of the whole list that no usable one outranks |
| QuotaRouter.QuotaAwareRouter.GetAvailableAccount | agent_workspace/core/account_manager.py:77-115 | fails exactly when every account is nameless, cooling or out of budget, otherwise the first usable one that no usable one outranks |
| DebateBudget.DebateExecutionBudget.Create | agent_workspace/core/debate_budget.py:181-193 | a fresh budget exactly for limits in range |
| DebateBudget.DebateExecutionBudget.AcquireProvider | agent_workspace/core/debate_budget.py:198-209 | admitted exactly below the cap; a refusal gives its permit back |
| DebateBudget.DebateExecutionBudget.ReleaseProvider | agent_workspace/core/debate_budget.py:211-213 | one attempt fewer, one permit more |
| DebateBudget.DebateExecutionBudget.ConsumeRetry | agent_workspace/core/debate_budget.py:215-219 | counted below the limit, refused and recorded at it |
| DebateBudget.DebateExecutionBudget.ConsumeHealing | agent_workspace/core/debate_budget.py:221-225 | counted below the limit, refused and recorded at it |
| DebateBudget.DebateExecutionBudget.CheckNestedDepth | agent_workspace/core/debate_budget.py:227-232 | refused exactly beyond the limit; the peak covers the depth |
| DebateBudget.ProviderAttempt.Enter | agent_workspace/core/debate_budget.py:148-151 | marked as acquired exactly when admitted |
| DebateBudget.ProviderAttempt.Exit | agent_workspace/core/debate_budget.py:153-156 | releases exactly what was acquired |
| DebateBudget.RunBalanced | agent_workspace/core/debate_budget.py:195-213 | in every interleaving permits and running attempts make up the semaphore, calls counted are attempts admitted, within the cap, and refusals happen only at it |
| DebateBudget.PeakIsHighWater | agent_workspace/core/debate_budget.py:206-209 | the peak is the greatest number that ever ran at once, never above the semaphore |
| DebateBudget.CountersSaturate | agent_workspace/core/debate_budget.py:198-232 | each counter is the number of requests cut at its limit, the peak depth the deepest allowed and the current one the last allowed |
| DebateBudget.ReasonIsLastRefusal | agent_workspace/core/debate_budget.py:198-232 | the exhaustion reason is that of the last refusal, none if nothing was refused |
| DebateBudget.EntersExactly | agent_workspace/core/debate_budget.py:198-209 | no permit leaks: a waiting attempt can enter exactly while fewer than the limit run, and is admitted exactly while fewer than the cap have entered |
| DebateBudget.QuietReturnsPermits | agent_workspace/core/debate_budget.py:153-156 | when nothing runs every permit is back |
| Sorting.SortTwice | agent_workspace/topology_bridge.py:169 | sorting again changes nothing |
| Sorting.SortKeepsAscending | agent_workspace/topology_bridge.py:169 | sorting a sorted list changes nothing, ties included |
| Sorting.SortIsStable | agent_workspace/topology_bridge.py:169 | entries with one key keep their order, and none is lost |
| Sorting.SortForgetsOrder | agent_workspace/topology_bridge.py:200 | sorted by distinct keys, values come in one order however they were inserted |
| Sorting.LoadSorted | agent_workspace/topology_bridge.py:300-337 | a dictionary comes back from its sorted values with the same entries, in sorted order |
| TopologyState.CalculateStats | agent_workspace/topology_bridge.py:226-256 | the loop's counts and sums over all nodes |
| TopologyState.StatsExactly | agent_workspace/topology_bridge.py:226-256 | the counts are the numbers of nodes of each status, the totals the sums over all of them |
| TopologyState.StatsForgetOrder | agent_workspace/topology_bridge.py:209-210 | statistics do not depend on the order of insertion |
| TopologyState.EventsRoundTrip | agent_workspace/topology_bridge.py:169-197 | allowed events are read back from the nodes written for them, status included |
| TopologyState.TopologyEmitter.LoadExistingState | agent_workspace/topology_bridge.py:280-337 | the emitter of the file if it is of this session, skipping what the constructor of events refuses |
| TopologyState.TopologyEmitter.BuildState | agent_workspace/topology_bridge.py:167-224 | the snapshot of the emitter's nodes and edges |
| TopologyState.TopologyEmitter.Emit | agent_workspace/topology_bridge.py:121-146 | an event of another session is refused and changes nothing; otherwise node and edge are recorded and the file is the snapshot |
| TopologyState.EmittedShown | agent_workspace/topology_bridge.py:121-224 | the file written shows the event: a node with its fields and the viewer's status, an edge from its parent to it, its time |
| TopologyState.BuildShows | agent_workspace/topology_bridge.py:167-224 | a snapshot has one node for each node known and one entry for each edge |
| TopologyState.ReopenedSame | agent_workspace/topology_bridge.py:280-337 | a restart keeps nodes, edges, start time and the names of the file, and takes the file's order |
| TopologyState.SnapshotRoundTrip | agent_workspace/topology_bridge.py:167-337 | read back and written with the same time, a snapshot is the same, ties included |
| TopologyState.SameSnapshots | agent_workspace/topology_bridge.py:167-224 | with the same entries, the same statistics and edges, and the same nodes if no two share a timestamp |
| TopologyState.RestartsInvisible | agent_workspace/topology_bridge.py:121-134 | a run stopped and reloaded anywhere, any number of times and under any names, ends with the nodes and edges of the run that was not |
| TopologyState.LastEventWins | agent_workspace/topology_bridge.py:128-131 | each node and edge is what the last event about it said, and none is dropped |
| TopologyState.EdgesCoincideExactly | agent_workspace/topology_bridge.py:152-165 | two events name one edge if and only if their edge types agree and parent and node run together to one text |
| TopologyState.TiesMayReorder | agent_workspace/topology_bridge.py:169 | one event more, with and without a restart before it, lists nodes with one timestamp in different orders |
| TokenBounding.TruncateFile | agent_workspace/core/delegation_packet.py:113-131 | the longest prefix of the lines reached by the first loop that fits with the notice |
| TokenBounding.CandidateIsJoined | agent_workspace/core/delegation_packet.py:118-124 | where stripping takes nothing but the first line break, the text measured is the lines joined |
| TokenBounding.TruncationUnique | agent_workspace/core/delegation_packet.py:113-131 | which is one text |
| TokenBounding.TruncationFits | agent_workspace/core/delegation_packet.py:127-131 | it fits the share of the file, or is the notice alone |
| TokenBounding.BoundedFits | agent_workspace/core/delegation_packet.py:104-133 | over budget every file fits its share and all of them the budget or 50 tokens each |
| TokenBounding.FitsShareExactly | agent_workspace/core/delegation_packet.py:106 | a file fits its share exactly if it has at most 50 tokens or as many files of its size would fit the budget |
| TokenBounding.CutExactly | agent_workspace/core/delegation_packet.py:97-133 | a file is cut exactly when the files together are over budget and it is over its share |
| TokenBounding.ExtractAndBoundFiles | agent_workspace/core/delegation_packet.py:85-133 | scrubbed files as they are within the budget, otherwise each unchanged or truncated |
| TokenBounding.BudgetKeptExactly | agent_workspace/core/delegation_packet.py:89-133 | for any counter with a text of 50 tokens, n files are always brought within the budget if and only if it has 50 tokens for each |
| TokenBounding.ApproximateBudgetKeptExactly | agent_workspace/core/token_counter.py:77-78 | so it is for the counter of four characters a token, with files of 200 characters |
| ChaosRules.PruningInvisible | agent_workspace/core/chaos.py:188-201 | what is unexpired of the pruned table is what was injected, not cleared and not expired |
| ChaosRules.ActiveExactly | agent_workspace/core/chaos.py:69-71 | a rule is active from its injection on, exactly until its duration is over |
| ChaosRules.MeshChaosManager.InjectFault | agent_workspace/core/chaos.py:92-126 | refused exactly for a probability or delay out of range; otherwise the rule, with its expiry, is added and nothing else changes |
| ChaosRules.MeshChaosManager.CreatePartition | agent_workspace/core/chaos.py:128-152 | exactly the two rules of the partition are added |
| ChaosRules.MeshChaosManager.IsolateNode | agent_workspace/core/chaos.py:154-169 | exactly the rule of the isolation is added |
| ChaosRules.MeshChaosManager.ClearFault | agent_workspace/core/chaos.py:171-178 | true exactly when the rule was still in the table |
| ChaosRules.MeshChaosManager.ClearAllFaults | agent_workspace/core/chaos.py:180-186 | empties the table and counts it, expired rules included |
| ChaosRules.MeshChaosManager.ListActiveFaults | agent_workspace/core/chaos.py:188-201 | exactly the active rules in order of injection |
| ChaosRules.Evaluate | agent_workspace/core/chaos.py:222-270 | blocked exactly when some applying rule blocks; delay and tampering only from the rules before the first that does |
| ChaosRules.OneMoreRule | agent_workspace/core/chaos.py:222-270 | one more rule blocks, delays or tampers as its type says, exactly if it names the pair, the dice allow it and nothing before it blocks |
| ChaosRules.OneOutcome | agent_workspace/core/chaos.py:222-270 | the outcome is determined, and nothing happens without rules |
| ChaosRules.MeshChaosManager.EvaluateTraffic | agent_workspace/core/chaos.py:203-270 | that outcome over the active rules |
| ChaosRules.PartitionExactly | agent_workspace/core/chaos.py:128-152 | the two rules block exactly the pairs across, both ways, if and only if neither side is empty |
| ChaosRules.PartitionEffect | agent_workspace/core/chaos.py:128-152 | on any manager a partition adds exactly the pairs across it to what is blocked while it lasts, and nothing when it is over |
| ChaosRules.IsolationEffect | agent_workspace/core/chaos.py:154-169 | isolation adds exactly the traffic from and to the node, exactly while it lasts |
| ChaosRules.PartitionHeals | agent_workspace/core/chaos.py:171-178 | clearing both rules leaves everything as if the partition had not been made |

## Left out

- Ledger: `reset_ledger`, the migration of old tables, certificate revocation, the zero-knowledge proof and signatures; several tenants in one replicated ledger; convergence of replicas, which does not hold (`ReplicationHistory.AgreementIsCoincidence`).
- Protocol: malformed messages, dishonest nodes, crashes in the middle of a handler.
- StageGraph: schema, path and checkpoint checks of the linter.
- Memory store: the text search, query parser, embeddings and redaction (parameters), validation of session ids, the checks of workflow memories before they are stored, logging of latency, the prompt text built from the selection; the rows are kept in the order written, where the table orders reads by creation time.
- Quota router: the fallback choice among other providers, account storage and its flags.
- Debate budget: classification of failures, cost and token totals; the order in which the semaphore wakes its waiters.
- Topology: nodes of files that lack required keys, the retry loop of the atomic write, replay logging; what the order of nodes with one timestamp is after a restart; it can differ (`TopologyState.TiesMayReorder`).
- Token bounding: the redaction patterns and the token counter (parameters), the delegation packet around it.
- Chaos rules: the random dice (a parameter), rule ids (fresh by assumption), logging.
- Raft, vector memory, mesh tunnel, command line, web service and their plumbing: not part of these models.
- MemoryStore.LongTermMemoryStore.AddRecord: stands for the four add operations that look for an existing record; how each forms the record, its id and the returned fields is a parameter.
- TopologyState.LastEventWins: two edges whose hyphenated ids coincide are one edge, as in the code.
