# OpenPact: the replicated ledger and the protocol state around it

OpenPact lets the peers of a *pact* share an append-only log of signed entries. Each peer
linearises the log and runs one reducer over it; the reducer fills a sorted key-value view
that every query reads. Around that ledger the daemon keeps state of its own: invite tokens,
a heartbeat and an authentication table per peer link, a fan-out request that redeems an
invite through whichever peer answers, and the registry of pacts on the host.

This project models those parts in Dafny and proves what they promise over every run,
every interleaving or every input.

## How the model is laid out

- **Ledger.** `Entries` is the data, `Store` the view (a class over a string-keyed map with
  get, put, del, peek and range streams) and the host. `Ledger` says what one log node does to
  an abstract record of sets and maps; `LedgerKeys` says which rows represent that record;
  `Apply` is the reducer as an imperative pass over the nodes, proved to keep the rows
  representing the record. Run-level results follow in `BrowsableRows`, `Registers`,
  `Authority`, `Nonces` and `Leaving`; `Admission` says what becomes of each node in terms of the
  node itself, and which keys of the view hold it. `Lexicographic` is the key order, `EntryIds` the ids.
- **Queries.** `Views` holds the daemon's range scans, `Pagination` the client's page walk,
  `ReverseIndex` what the queries find in a view the reducer built, on one replica and on two.
- **Tasks.** `Tasks` is the reducer of a task's history, `TaskSafety` what it guarantees,
  `TaskLookup` what looking a task up finds in terms of the log.
- **Invites.** `Invites` runs the lock and the three operations as interleaved steps,
  `InviteCalls` has the operations' bodies, `InviteSafety` what the lock buys.
- **Peer links.** `Liveness` (ping/pong), `AuthTable` (outstanding authentication requests),
  `PeerLinks` (the record both update in place), `FanOut`, `RedeemCall` and `FanOutSafety`
  (redeeming through every connected peer).
- **Registry.** `Registry` has each operation as one whole, `Daemon` the class that performs
  them, `RegistryOutcomes` each outcome exactly, `RegistrySafety` and `RegistryAliases` what
  sequences of them keep. `RegistrySteps` takes
  the operations apart at their awaits; `RegistryOverlap` and `ConcurrentInstalls` say what is
  left when they interleave, and `RegistryWitnesses` has concrete interleavings that go wrong.

Methods carry the program's loops and state changes; each is proved against a function of the
same state (`Ledger.Step`, `Liveness.Step`, `AuthTable.Step`, `FanOut.Step`, `Registry.Step`,
`Invites.Atomically`, `Tasks.Reported`), and the theorems are about runs of those functions.

## What is taken as given

- Log order is given; a run is any sequence of nodes. Signatures, hashing and encryption are
  outside, and the peer handle is any function of the writer key (`derive`).
- Schema validation leaves lower-case 64-hex writer keys, 48-hex nonces and non-empty timestamps
  (`Entries.ValidNode`). A node's position is the first eight hex characters of its writer key and
  its sequence number, a safe integer; results that need ids to be distinct say so.
- View timestamps are compared as strings, as the reducer does; `Date.parse` is any partial
  function to milliseconds. Strings compare by code point, which is what the view's UTF-8 keys do
  and what `localeCompare` does on ids.
- Each stretch of code between two awaits is one step, and reads and writes of a JSON file are
  atomic. `Registry.Step` and the methods of `Daemon` are coarser: a whole operation with no other
  in between. Nothing in the program ensures that, so it is a hypothesis of the results about
  sequences of registry operations; `RegistryOverlap.SerialRuns` discharges it for every run in
  which no operation loads the file before the others have ended. Clocks, random tokens and which
  sends, reads or writes fail are inputs.
- Random tokens of authentication requests and invites do not repeat; results that need it say so.

## Where the code and its documentation differ

The model follows the code.

- `redeemThroughPeers` is documented to report the last terminal error, and `NOT_INDEXER` if there
  is none (daemon.ts:790-795, 851-853). It reports the first terminal error to arrive, and otherwise
  `NO_INDEXER_REACHABLE`.
- `peekHasMore` is documented to be skipped when the page did not fill (views.ts:141-145). It is
  skipped only when the page is empty, and it counts rows the filter would drop.
- `redeemInvite` is documented to make its two entries confirm together (pact.ts:626-630). They
  are two appends, and a failure between them or of the save after them leaves the invite
  redeemable: see `InviteSafety.SecondPairExactlyWhenTorn` and `InviteSafety.OneTokenTwoWriters`.
- Revocation is documented as a local delete (invites.ts:25-26); it sets a flag.
- The reducer computes `isMember` and never uses it (apply.ts:127-134): any writer's entry with the
  right handle is stored, and no result here claims otherwise.
- The task lifecycle says a claim past its time limit is treated as open (tasks-state.ts:98-99). Each
  update is judged by its own timestamp, and on an assigned task by the assignment too.
- `_isSoleIndexer` treats a failed read as "not sole" (pact.ts:779-796), so a peer can still remove
  itself as last indexer after one: see `Leaving.LeavingEmptiesExactlyWhen`.

## What the code does not ensure

Each of these fails on some input. When it holds is proved exactly, mostly with a concrete
case of the failure beside it.

- Indexers are members, and are never empty: fails when the last indexer is removed
  (`Authority.IndexersAreMembersExactlyWhen`, `Authority.StaysNonEmptyExactlyWhen`,
  `Authority.StrangerTakesOver`).
- Leaving never empties the indexers: fails after a read that broke off
  (`Leaving.LeavingEmptiesExactlyWhen`, `Leaving.FailedReadEmpties`).
- One redemption for each invite: fails after a redemption that failed half way
  (`InviteSafety.SecondPairExactlyWhenTorn`, `InviteSafety.OneTokenTwoWriters`).
- The reverse index is exact: fails for references that extend a target by a slash
  (`ReverseIndex.IndexIsExactWhenSeparated`, `ReverseIndex.SlashTargetIsInexact`).
- The code a failed fan-out reports does not depend on the order: fails when terminal codes
  differ (`FanOutSafety.OrderIsInvisibleExactlyWhen`).
- Every pact created or joined is listed: fails when two such calls are between load and save at
  once, as nothing locks the file (`ConcurrentInstalls.InstallsListedExactlyWhen`,
  `RegistryWitnesses.LostRow`). For operations of all kinds the whole call has to be left free
  (`RegistryOverlap.SerialRuns`, `RegistryWitnesses.RemovedWhileOpening`).
- The daemon's current alias is the file's: fails, even without such an overlap, when the last call
  to save itself as current is not the last to end
  (`ConcurrentInstalls.SoundWithoutOverlapExactlyWhen`, `RegistryWitnesses.CurrentAliasLags`).
- The default alias is accepted: fails for long taken names and for upper-case join keys
  (`RegistryAliases.DefaultAliasRefusedExactlyWhen`, `RegistryAliases.DefaultJoinAliasExactlyWhen`).

## Model

| member | source | states |
|---|---|---|
| Lexicographic.PrefixRange | packages/daemon/src/apply.ts:6-10 | The range from `p/` up to but excluding `p0` holds exactly the strings that start with `p/` |
| Lexicographic.PrefixRangeToFFFF | packages/daemon/src/pact.ts:783 | The range from `p` to `p` followed by U+FFFF holds `p` and those of its continuations whose next character is below U+FFFF |
| Lexicographic.Sorted | packages/daemon/src/api/views.ts:116 | The keys of a set come out ascending, none missing and none added |
| EntryIds.RoundTrip | packages/daemon/src/entry-id.ts:34-50 | Decoding an encoded id gives back the eight-character prefix and the sequence number, for every hex key and every safe integer |
| EntryIds.RoundTripBack | packages/daemon/src/entry-id.ts:34-50 | Encoding a decoded id gives the id back if and only if its digits have no leading zero |
| EntryIds.EncodeInjective | packages/daemon/src/entry-id.ts:1-6 | Two ids are equal if and only if the key prefixes and the sequence numbers are |
| EntryIds.ValidHasNoSlash | packages/daemon/src/entry-id.ts:11 | A valid id contains no key separator |
| EntryIds.TenthEntry | packages/daemon/src/entry-id.ts:34-43 | A concrete id, character by character |
| Entries.TrimSplits | packages/daemon/src/apply.ts:240 | Trimming a display name takes off nothing but white space, and all of it at both ends |
| Ledger.RefRows | packages/daemon/src/apply.ts:206-212 | An entry gets one reverse reference for each non-empty target and no other |
| Ledger.EventAt | packages/daemon/src/apply.ts:84-215 | The event reported for a node is the event of its own step in the state reached before it |
| Admission.EventExactlyWhen | packages/daemon/src/apply.ts:84-215 | Over every log, the event of every node in terms of the node: a value that failed validation is reported with its reason, and past that a node is refused if and only if it has no writer key, carries a handle that is not its writer's, administers or redeems while others are indexers and it is not (removing itself apart), or redeems a nonce that an earlier node was reported to redeem |
| Admission.RowsExactlyWhen | packages/daemon/src/apply.ts:194-215 | In the view of every log, an entry is under a key if and only if some node with its writer's handle posted it and the key is `<type>/<timestamp>/<id>` or `ref/<target>/<id>` of one of its non-empty targets, the id being eight characters of the writer key, a hyphen and the length |
| LedgerKeys.KeysApart | packages/daemon/src/apply.ts:6-27 | No two ledger slots share a key, across members, indexers, invites, names, registers, entries and references, whatever the strings in them |
| LedgerKeys.PutRepresents | packages/daemon/src/apply.ts:35-40 | Writing a slot's key changes that slot of the represented ledger and nothing else |
| LedgerKeys.DelRepresents | packages/daemon/src/apply.ts:35-40 | Deleting a slot's key empties that slot and nothing else |
| LedgerKeys.Reads | packages/daemon/src/apply.ts:219-227 | What a read under each prefix finds is what the ledger holds there |
| LedgerKeys.MembersPeek | packages/daemon/src/apply.ts:129 | The peek over `_members/` finds nothing if and only if nobody is a member |
| LedgerKeys.IndexersPeek | packages/daemon/src/apply.ts:139 | The peek over `_indexers/` finds nothing if and only if nobody is an indexer |
| Store.Stream | packages/daemon/src/api/views.ts:116 | A range read delivers the keys in the range, all of them and no others, ascending, or descending when it is reversed |
| Views.StreamInOrder | packages/daemon/src/api/views.ts:116 | A range read delivers its keys in ascending order, or in descending order when reversed |
| Store.View.Peek | packages/daemon/src/apply.ts:39 | A peek returns the first row of the range in read order, and nothing if and only if the range is empty |
| Apply.UpsertAgentName | packages/daemon/src/apply.ts:235-251 | The rows come to represent the ledger with the agent named, unless a stamp as new is already there |
| Apply.IsMemberKey | packages/daemon/src/apply.ts:224-227 | True if and only if the writer is in the member set |
| Apply.IsIndexerKey | packages/daemon/src/apply.ts:219-222 | True if and only if the writer is in the indexer set |
| Apply.Bootstrap | packages/daemon/src/apply.ts:126-144 | The writer joins an empty member set and an empty indexer set, and the result says whether it is then an indexer |
| Apply.PutPactMetaIfNewer | packages/daemon/src/apply.ts:303-316 | The register keeps its value unless the new timestamp is strictly greater |
| Apply.ApplyAdminEntry | packages/daemon/src/apply.ts:253-301 | The rows follow the admin action, and the host is called for writer changes only |
| Apply.PutRefs | packages/daemon/src/apply.ts:206-212 | The rows come to represent the ledger with the entry's reverse references added |
| Apply.PutPost | packages/daemon/src/apply.ts:196-214 | The rows come to represent the ledger with the entry and its references stored, and the event carries its key |
| Apply.ApplyNode | packages/daemon/src/apply.ts:84-215 | One node does to the rows, the host and the events what the ledger step does to the sets and maps the rows represent |
| Apply.Apply | packages/daemon/src/apply.ts:83-216 | The string-keyed view refines the abstract ledger over every run: rows, one event for each node in order, and the host calls of accepted writer changes |
| BrowsableRows.StepRows | packages/daemon/src/apply.ts:196-214 | A post adds its own row and references; every other node leaves all rows and references alone |
| BrowsableRows.RowsAreThePosts | packages/daemon/src/apply.ts:196-214 | The browsable rows and the reverse references are exactly those of the posts in the log, and there are as many rows as entry events |
| BrowsableRows.LinearisationIndependent | packages/daemon/src/apply.ts:196-212 | Any two orders of the same nodes leave equal rows and equal reverse references |
| BrowsableRows.AppendOnly | packages/daemon/src/apply.ts:196-199 | A stored row is never overwritten or removed by the rest of a run |
| Registers.AgentNameIsLastWrite | packages/daemon/src/apply.ts:235-251 | After any run the name of a handle is the write with the greatest timestamp, the earliest in log order on ties, among the nodes whose writer key derives to it |
| Registers.NameWrittenExactlyWhen | packages/daemon/src/apply.ts:235-251 | A node names its agent if and only if its value is valid, the handle is its writer's and the display name is not all white space; the name is what trimming leaves |
| Registers.AgentNamesIgnoreOrder | packages/daemon/src/apply.ts:235-251 | With distinct timestamps for an agent, any two orders of the same nodes leave the same name |
| Registers.InfoIsLastWrite | packages/daemon/src/apply.ts:267-284 | After any run the pact's name and purpose are the accepted write with the greatest timestamp, the earliest on ties |
| Registers.StampsNeverDecrease | packages/daemon/src/apply.ts:303-316 | Stored timestamps never go back, and a register once written stays written |
| Authority.StepSets | packages/daemon/src/apply.ts:126-170 | What each kind of entry does to members and indexers, with and without authority |
| Authority.WritersAfter | packages/daemon/src/apply.ts:126-176 | Members and indexers after any node, in terms of the node: the first writer is let in, indexers add and remove, and anyone removes itself |
| Authority.HostAgrees | packages/daemon/src/apply.ts:288-300 | If the last indexer is never removed, a host that starts with the founding writer and makes the calls of the run has exactly the ledger's members as writers and exactly its indexers |
| Authority.LeavesByRemoval | packages/daemon/src/apply.ts:159-167 | A member or indexer key leaves only by its own removal or by an indexer's |
| Authority.IndexersHaveProvenance | packages/daemon/src/apply.ts:126-170 | In every run each indexer has a finite chain of grants, each by an indexer at the time, back to a bootstrap writer |
| Authority.EmptiesExactlyWhen | packages/daemon/src/apply.ts:287-300 | A node empties the indexer set if and only if the only indexer removes itself |
| Authority.IndexersAreMembersExactlyWhen | packages/daemon/src/apply.ts:126-144 | A step keeps indexers among members if and only if it is not a stranger bootstrapping into an empty indexer set while there are members |
| Authority.BootstrapsOnce | packages/daemon/src/pact.ts:752-757 | If the last indexer is never removed, indexers stay members and, after the first admissible node, are never empty |
| Authority.StaysNonEmptyExactlyWhen | packages/daemon/src/pact.ts:752-757 | Over every run, the indexers are empty only before the first admissible node if and only if no node removes the last indexer |
| Authority.BootstrapIsFirstAdmissible | packages/daemon/src/apply.ts:136-144 | Under the same condition the implicit indexer is chosen at the first admissible node and at no other |
| Authority.StrangerTakesOver | packages/daemon/src/apply.ts:126-170 | Without it a concrete three-node log leaves an indexer that is no member |
| Nonces.StepInvites | packages/daemon/src/apply.ts:172-194 | Only an indexer's redemption of a nonce without a row writes its row; no node of any kind overwrites or deletes it |
| Nonces.RowIsFirstRedemption | packages/daemon/src/apply.ts:172-194 | After any run a nonce has a row if and only if an indexer redeemed it, and the row is the first such redemption's |
| Nonces.AcceptedExactlyOnce | packages/daemon/src/apply.ts:172-194 | A redemption is reported as accepted if and only if it is the first with authority; later ones are reported as already spent |
| Leaving.ScanIsIndexers | packages/daemon/src/pact.ts:783-790 | The scan up to U+FFFF meets exactly the rows of the indexers in every reachable view |
| Leaving.IsSoleIndexer | packages/daemon/src/pact.ts:779-796 | True if and only if the indexers are this peer alone and the read did not fail before a second row |
| Leaving.LeaveAsWriter | packages/daemon/src/pact.ts:759-772 | The self-removal is appended if and only if the peer can write, has a key and was not found to be sole indexer |
| Leaving.LeavingEmptiesExactlyWhen | packages/daemon/src/pact.ts:745-796 | Leaving appends an entry that empties the indexer set it checked if and only if this peer can write, is the sole indexer, and the read failed before it reached a second row |
| Leaving.FailedReadEmpties | packages/daemon/src/pact.ts:779-796 | A concrete case: the only indexer, whose read fails at once, appends its removal and leaves none |
| Views.ClampLimit | packages/daemon/src/api/views.ts:169-172 | The page size is 50 for a missing number or one below 1, and otherwise the number rounded down, at most 1000 |
| Views.InPageRange | packages/daemon/src/api/views.ts:109-114 | A key is in a page's range if and only if it is of the type and strictly after the cursor in listing order |
| Views.TakePassing | packages/daemon/src/api/views.ts:118-125 | The loop keeps exactly the first `max` rows that pass the filter and the key of the last of them |
| Views.ListByType | packages/daemon/src/api/views.ts:98-139 | A page is the first passing rows after the cursor; a cursor is refused if and only if it is of another type; more is reported if and only if the page has rows and any row at all lies past it |
| Views.PeekHasMore | packages/daemon/src/api/views.ts:146-167 | True if and only if there is a last key and some row lies past it |
| Views.GetById | packages/daemon/src/api/views.ts:210-221 | The entry of the type with the id that comes first in key order, and none if and only if there is none |
| Views.FindRefs | packages/daemon/src/api/views.ts:227-237 | The entries of the type that have the id or refer to it, in key order |
| Views.FindReferencedBy | packages/daemon/src/api/views.ts:255-266 | The entries of the index under the target, in key order |
| Pagination.WalkPage | packages/daemon/src/api/views.ts:118-136 | A page added to a walk keeps it in order, without repetition, and passes over no row that was there from the start |
| Pagination.PageExactlyWhen | packages/daemon/src/api/views.ts:103-137 | A page is in order and holds no more than the limit; a row that passes the filter after the cursor is on it, or it is full and all of it comes before that row |
| Pagination.NothingLeft | packages/daemon/src/api/views.ts:146-167 | When a page reports no more, every passing row of the first view has been yielded |
| Pagination.CursorBelongs | packages/daemon/src/api/views.ts:179-188 | Every cursor a walk emits is accepted by the next request |
| Pagination.BusyBound | packages/sdk/src/resources/paginate.ts:12-25 | On a fixed view a walk that still has more to fetch has made at most ceil(n/limit) requests |
| Pagination.Paginate | packages/sdk/src/resources/paginate.ts:12-25 | On a view that only grows, no row is yielded twice, every value yielded is its row's, and an ended walk has yielded every passing row of the first view; on a fixed view it ends within ceil(n/limit)+1 requests with exactly the one-scan result, for every filter, limit and direction |
| ReverseIndex.ReferencedBy | packages/daemon/src/api/views.ts:255-266 | The indexed lookup yields exactly the posts that refer to the target or to a string extending the target and a slash |
| ReverseIndex.IndexIsExactWhenSeparated | packages/daemon/src/api/views.ts:251-266 | The indexed lookup yields exactly the posts whose references contain the target if and only if no post refers only to extensions of it |
| ReverseIndex.SlashFreeIsSeparated | packages/daemon/src/apply.ts:208-211 | Targets without a slash always meet that condition |
| ReverseIndex.SlashTargetIsInexact | packages/daemon/src/apply.ts:208-211 | A concrete case: a post that refers to `a/b` is found for the target `a` |
| ReverseIndex.FoundRefs | packages/daemon/src/api/views.ts:227-237 | The linear scan yields exactly the posts of the type that have the id or refer to it |
| ReverseIndex.LookupsAreOrdered | packages/daemon/src/api/views.ts:227-268 | In every view the reducer built, both lookups give one entry for each row they find, in key order |
| ReverseIndex.IndexAgreesWithScan | packages/daemon/src/api/views.ts:227-266 | On each type, the target itself set aside, the index and the scan find the same entries |
| ReverseIndex.ReplicasAgree | packages/daemon/src/apply.ts:196-212 | Two replicas of the same nodes hold the same row at every key under an entry type and under `ref/` |
| ReverseIndex.ReplicasFindTheSame | packages/daemon/src/api/views.ts:227-237 | They answer a history lookup with the same entries in the same order |
| ReverseIndex.Replay | packages/daemon/src/apply.ts:83-216 | Applying a log to an empty view reaches a view that represents that log, with its events |
| Tasks.SortById | packages/daemon/src/api/tasks-state.ts:107 | Sorting keeps the entries of the history |
| Tasks.SortSorts | packages/daemon/src/api/tasks-state.ts:107 | The sorted history is in id order |
| Tasks.LatestIsGreatest | packages/daemon/src/api/tasks-state.ts:127-130 | The update time is the greatest timestamp of the history |
| Tasks.FoldUpdates | packages/daemon/src/api/tasks-state.ts:136-139 | The loop applies every entry but the create entry, in order |
| Tasks.ReduceTaskHistory | packages/daemon/src/api/tasks-state.ts:101-157 | The loop computes the reported state, which the results about created, claimed, completed and expired tasks are about |
| Tasks.ArrivalOrderIsIrrelevant | packages/daemon/src/api/tasks-state.ts:106-107 | However the entries of a history with distinct ids arrive, the reported state is the same |
| TaskSafety.CreateEntryIsReported | packages/daemon/src/api/tasks-state.ts:101-139 | A state is reported if and only if some entry refers to nothing; id, title, description, assignee and time are those of the first such entry in id order, the history is all the entries in id order, and the update time is their greatest |
| TaskSafety.UntouchedIsAsCreated | packages/daemon/src/api/tasks-state.ts:113-139 | Without updates the status, the claimer and the result are those of the create entry |
| TaskSafety.OnlyAssigneeHolds | packages/daemon/src/api/tasks-state.ts:176-190 | A task created open and unclaimed for someone is held by that one or nobody, whatever the history |
| Tasks.GetTaskState | packages/daemon/src/api/tasks-state.ts:234-241 | A lookup reduces the history that the scan of the view finds |
| TaskLookup.HistoryExactlyWhen | packages/daemon/src/api/views.ts:227-237 | The history a lookup reduces holds an entry if and only if some node of the log with its writer's handle posted that task entry and it has the id or refers to it |
| TaskLookup.LookupExactlyWhen | packages/daemon/src/api/tasks-state.ts:234-241 | A lookup reports a task if and only if the log has a task post with that id that refers to nothing, and then with the id, title, description, assignee and time of that post |
| TaskSafety.ClaimHolds | packages/daemon/src/api/tasks-state.ts:168-193 | After an accepted claim the claimer keeps it until the next accepted claim, its own release or a completion |
| TaskSafety.ClaimExclusion | packages/daemon/src/api/tasks-state.ts:168-193 | Between two consecutive accepted claims the first claimer released, or strictly more than the time limit passed between their timestamps |
| TaskSafety.CompletionBelongsToClaimer | packages/daemon/src/api/tasks-state.ts:195-214 | A completion after an accepted claim is the claimer's own, unless it released first or its claim had run out |
| TaskSafety.EarliestClaimWins | packages/daemon/src/api/tasks-state.ts:169-193 | Of racing claims the permitted one with the smallest id wins |
| TaskSafety.UpdatesKeepSound | packages/daemon/src/api/tasks-state.ts:159-229 | Updates keep a claimed state claimed by someone, an open state unclaimed, and an assigned one with nobody but the assignee |
| TaskSafety.SoundExactlyWhenCreated | packages/daemon/src/api/tasks-state.ts:113-134 | Every history has those properties if and only if its create entry does, which an open unclaimed one does |
| TaskSafety.CompleteIsAbsorbing | packages/daemon/src/api/tasks-state.ts:195-228 | Once complete, nothing changes any more |
| TaskSafety.FirstCompletionFixesResult | packages/daemon/src/api/tasks-state.ts:195-214 | The result is the first accepted completion's and no later update is accepted |
| TaskSafety.IneffectiveUpdatesDoNotMatter | packages/daemon/src/api/tasks-state.ts:136-139 | Dropping every update that was not accepted leaves the folded state unchanged |
| TaskSafety.ReportedOpenIsClaimable | packages/daemon/src/api/tasks-state.ts:141-193 | If open is reported at `now`, a permitted claim stamped no earlier that sorts last is accepted and reported until it runs out |
| TaskSafety.ReportedClaimedIsNotClaimable | packages/daemon/src/api/tasks-state.ts:141-193 | If claimed is reported at `now`, a claim stamped no later that sorts last changes nothing |
| TaskSafety.ExpiryIsReportedExactlyWhen | packages/daemon/src/api/tasks-state.ts:141-154 | If and only if the folded claim is past its limit at the observer's clock, the state is reported open and unheld with the instant of the limit; otherwise as folded |
| TaskSafety.OriginalIsTheTask | packages/daemon/src/api/tasks-state.ts:109-111 | The create entry of a looked-up history is the entry with the id asked for, or there is none |
| TaskSafety.ReplicasReportTheSame | packages/daemon/src/api/tasks-state.ts:231-241 | Two replicas of the same nodes report the same state at the same clock |
| Invites.FindNonce | packages/daemon/src/pact.ts:670 | The first invite with the nonce, or none if there is none |
| Invites.LockLinearises | packages/daemon/src/pact.ts:555-568 | Under every interleaving critical sections never overlap and run in call order, and the file and the log are those of the calls run one at a time, even when reads, appends or saves fail |
| InviteCalls.Pact.CreateInvite | packages/daemon/src/pact.ts:599-603 | The new record is appended to the file, or the file is unchanged when loading or saving fails |
| InviteCalls.Pact.RevokeInvite | packages/daemon/src/pact.ts:615-624 | The record is marked revoked once; unknown and already revoked nonces change nothing |
| InviteCalls.Pact.RedeemInvite | packages/daemon/src/pact.ts:668-718 | The checks in order, the two entries, then the spent mark, with what each failure leaves in the log and the file |
| InviteSafety.RedeemExactlyWhen | packages/daemon/src/pact.ts:668-718 | Each answer of a redemption, if and only if: unknown, revoked, spent, expired at or before the clock, or redeemed; and the entries and the file it leaves |
| InviteSafety.RevokeExactlyWhen | packages/daemon/src/pact.ts:611-624 | Each answer of a revocation, if and only if, and the file it leaves |
| InviteSafety.ChecksSeeTheFile | packages/daemon/src/pact.ts:668-683 | In every interleaving the checks of a redemption come out unknown, revoked, spent, expired or passed exactly as the file on disk has the invite at that instant |
| InviteSafety.LookSeesTheView | packages/daemon/src/pact.ts:683-690 | In every interleaving the second check refuses exactly the nonces whose rows the view has shown by then |
| InviteSafety.RedeemedInTime | packages/daemon/src/pact.ts:668-700 | In every interleaving, each redemption in the log is that of a call that read its clock before the expiry of the invite, and then looked at the view before it had shown the nonce, at the time the entry carries |
| InviteSafety.StepsKeep | packages/daemon/src/pact.ts:599-718 | In every interleaving records are only appended, and revoked and spent marks are set once and keep their values |
| InviteSafety.NoLostUpdate | packages/daemon/src/pact.ts:547-554 | What any call reported as done is in the file from then on |
| InviteSafety.OnePairPerNonce | packages/daemon/src/pact.ts:547-554 | If no redemption of a nonce failed after its first append, at most one redemption of it is ever appended |
| InviteSafety.NoOrphanGrants | packages/daemon/src/pact.ts:547-554 | In every interleaving each grant directly follows the redemption of the same writer, so none is appended on its own |
| InviteSafety.OneGrantPerNonce | packages/daemon/src/pact.ts:547-554 | If no redemption of a nonce failed after its first append, it admits at most one writer |
| InviteSafety.SecondPairExactlyWhenTorn | packages/daemon/src/pact.ts:690-717 | After a redemption and any calls on other invites, one more redemption made before the expiry is appended if and only if the first failed to append its grant or to save |
| InviteSafety.OneTokenTwoWriters | packages/daemon/src/pact.ts:690-717 | A concrete run: one live invite, a redemption whose save fails and then another, and the log grants both writers |
| Liveness.CounterIsExact | packages/daemon/src/member-auth-channel.ts:131-206 | While it runs, the miss counter equals the unanswered windows since the last matched pong or the start, at most one ping is pending, and a peer that ever answered is below the limit |
| Liveness.DeadExactlyWhen | packages/daemon/src/member-auth-channel.ts:180-201 | A link is declared dead exactly at the tick that finds the third window unanswered in a row for a peer that has answered before |
| Liveness.SignalsExactlyWhen | packages/daemon/src/member-auth-channel.ts:131-201 | A miss is reported exactly when a tick finds a ping unanswered, with the count it makes, and a recovery exactly at a matched pong after misses |
| Liveness.DeadAtMostOnce | packages/daemon/src/peer-link.ts:115-119 | A link is declared dead at most once, and never while its heartbeat still runs |
| Liveness.SilentOnceStopped | packages/daemon/src/peer-link.ts:114-119 | Once stopped or declared dead, a heartbeat never starts again by itself and raises no signal, whatever still arrives |
| Liveness.NeverDead | packages/daemon/src/member-auth-channel.ts:156-172 | A peer that answers before each next tick, or that never answered at all, is never declared dead |
| Liveness.SilenceIsDeathAtFourthTick | packages/daemon/src/member-auth-channel.ts:180-206 | After a matched pong, silence while sends succeed is declared dead at the fourth tick, not earlier, and once |
| AuthTable.EveryRequestSettledOnce | packages/daemon/src/member-auth-channel.ts:272-308 | In every interleaving each request sent is outstanding or settled by exactly one cause, and a link has at most one outstanding for a pact |
| AuthTable.SettledNeverBlocks | packages/daemon/src/member-auth-channel.ts:285-297 | A request blocks the next attempt for its pact while it is outstanding and no longer once a timeout, reply or close has taken it |
| AuthTable.PendingExactlyWhen | packages/daemon/src/member-auth-channel.ts:285-302 | The table holds a request if and only if one was sent that has been neither answered, nor timed out, nor flushed since |
| AuthTable.AnswerExactlyWhen | packages/daemon/src/member-auth-channel.ts:268-275 | Each answer to an attempt, if and only if, by what has happened on the link: authenticated since it came up, or a request for the pact outstanding |
| AuthTable.CauseExactlyWhen | packages/daemon/src/member-auth-channel.ts:72-122 | A request is settled by a cause if and only if an event of that kind found it in the table, or its own send failed |
| PeerLinks.PeerLink.StartLiveness | packages/daemon/src/member-auth-channel.ts:173-216 | The heartbeat starts from its initial state |
| PeerLinks.PeerLink.StopLiveness | packages/daemon/src/peer-link.ts:115-119 | The heartbeat takes the stop step of the liveness protocol |
| PeerLinks.PeerLink.Tick | packages/daemon/src/member-auth-channel.ts:180-206 | One firing of the interval takes the tick step and raises its signals in order |
| PeerLinks.PeerLink.OnPong | packages/daemon/src/member-auth-channel.ts:131-145 | A pong takes the pong step; one that matches nothing changes nothing |
| PeerLinks.PeerLink.AlreadyPending | packages/daemon/src/member-auth-channel.ts:273-275 | The scan finds an outstanding request for the pact if and only if there is one |
| PeerLinks.PeerLink.RequestMemberAuth | packages/daemon/src/member-auth-channel.ts:262-308 | An attempt up to its wait: each early answer, if and only if, by the fields of the link, and otherwise the answer and the table of the request step |
| PeerLinks.PeerLink.OnAuthResponse | packages/daemon/src/member-auth-channel.ts:113-122 | A reply settles its request if it is still outstanding and is otherwise ignored |
| PeerLinks.PeerLink.OnAuthTimeout | packages/daemon/src/member-auth-channel.ts:289-296 | The timer settles its request if it is still outstanding and is otherwise ignored |
| PeerLinks.PeerLink.FinishMemberAuth | packages/daemon/src/member-auth-channel.ts:303-340 | After the wait: no reply is a timeout; an incomplete or unverified one fails and claims nothing; a verified one claims its key, and authenticates it if and only if it is an active member's |
| PeerLinks.PeerLink.OnAuthenticated | packages/daemon/src/member-auth-channel.ts:335-339 | The pact counts as authenticated under the member's key from then on, and the notice is due exactly the first time |
| PeerLinks.PeerLink.FlushAuth | packages/daemon/src/invite-channel.ts:46-57 | Closing a channel settles every outstanding request once and empties the table |
| PeerLinks.PeerLink.OnAuthClose | packages/daemon/src/member-auth-channel.ts:72-82 | Closing the auth channel flushes the table and stops the heartbeat |
| FanOut.FirstTerminal | packages/daemon/src/daemon.ts:862-864 | The first failure with a code other than `INVITE_NOT_INDEXER` and `UNKNOWN_PACT`, and none if and only if there is none |
| RedeemCall.RedeemCall.Ask | packages/daemon/src/daemon.ts:802-804 | Exactly the peers that speak the protocol and took the request are waited for; with none the call settles at once |
| RedeemCall.StartExactlyWhen | packages/daemon/src/daemon.ts:843-887 | The call waits for exactly the peers that speak the protocol and took the request; with none of those it is settled at once as unreachable |
| RedeemCall.RedeemCall.OnReply | packages/daemon/src/daemon.ts:849-877 | A reply takes the answer step of the model and a second one of the same peer does nothing; replication starts with every peer that admits, also when the call has settled already |
| RedeemCall.RedeemCall.OnClose | packages/daemon/src/invite-channel.ts:36-46 | A closing channel answers for its peer with a failure |
| RedeemCall.RedeemCall.OnTimer | packages/daemon/src/daemon.ts:811-829 | The timer settles the call with the latest failure known, unless it is settled |
| FanOutSafety.OutstandingIsExact | packages/daemon/src/daemon.ts:843-860 | In every order of arrival the counter is the requests sent minus the failures received, and zero if and only if every asked peer has failed |
| FanOutSafety.SettlesExactlyOnce | packages/daemon/src/daemon.ts:808-841 | The promise is resolved at most once, and it has been exactly when the timer rang, a success arrived or every asked peer failed |
| FanOutSafety.SettlementStays | packages/daemon/src/daemon.ts:831-841 | What the caller got never changes |
| FanOutSafety.AdmittedExactlyWhen | packages/daemon/src/daemon.ts:854-857 | Given that successes carry a nonce, the caller is admitted if and only if a success precedes the timer, and with the nonce of the first one |
| FanOutSafety.SuccessDecides | packages/daemon/src/daemon.ts:831-857 | The first success before the timer ends the wait for good, as a failure of its own code if it carries no nonce |
| FanOutSafety.FailureExactlyWhen | packages/daemon/src/daemon.ts:858-877 | When every asked peer fails before the timer: if each says `INVITE_NOT_INDEXER` or `UNKNOWN_PACT` the caller gets the retryable `NO_INDEXER_REACHABLE`, and otherwise the code of the first to say anything else |
| FanOutSafety.TimerDecides | packages/daemon/src/daemon.ts:811-829 | When the timer ends the wait, the result is for good the code of the latest word of any asked peer, or that no indexer was reachable if none had spoken |
| FanOutSafety.FailureIgnoresOrder | packages/daemon/src/daemon.ts:858-877 | Two runs in which every asked peer fails with the same answer, in any orders and with any codes: both report a terminal failure that some peer sent, or both report that no indexer was reachable |
| FanOutSafety.OrderIsInvisibleExactlyWhen | packages/daemon/src/daemon.ts:858-877 | When every peer fails, the result is the same in every order if and only if all terminal failures carry one code |
| Registry.IndexOf | packages/daemon/src/daemon.ts:343 | The first row of an alias, or the number of rows if there is none |
| RegistrySafety.RunsAreSound | packages/daemon/src/daemon.ts:193-433 | Over every sequence of operations, one after another, from an empty host: the file meets the validation rules, every row has the directory of its own alias with its own pact in it, and what is open is registered with that directory |
| RegistrySafety.RegisteredOpens | packages/daemon/src/daemon.ts:204-217 | In every state such a sequence reaches, a registered pact opens from the directory of its alias, with its own key, and nothing else changes |
| RegistrySafety.OthersUntouched | packages/daemon/src/daemon.ts:264-433 | In every state such a sequence reaches, no operation that runs undisturbed moves, overwrites, deletes, closes or unlists a pact other than the one it names |
| RegistrySafety.RemoveTakesItsOwn | packages/daemon/src/daemon.ts:341-406 | In every state such a sequence reaches, removal deletes exactly the named pact's row, directory and open handle; if it was current the first remaining row takes its place |
| RegistrySafety.RejoinChangesNothing | packages/daemon/src/daemon.ts:298-315 | Joining under a taken alias succeeds if and only if it is the same pact, compared without case, and changes nothing in the registry |
| RegistrySafety.JoinTwiceIsJoinOnce | packages/daemon/src/daemon.ts:295-339 | Retrying a join that worked leaves the whole host as the first one did |
| RegistrySafety.RemoveUndoesCreate | packages/daemon/src/daemon.ts:264-406 | Removing a pact just created restores rows, open pacts and directories, and the current alias if and only if creating left it alone or it was the first row's |
| RegistrySafety.RenameThereAndBack | packages/daemon/src/daemon.ts:408-433 | Renaming a pact and renaming it back restores the whole host |
| RegistryOutcomes.CreateExactlyWhen | packages/daemon/src/daemon.ts:264-293 | Creating under an alias: each outcome, if and only if, and the row, directory and current alias it leaves |
| RegistryOutcomes.JoinExactlyWhen | packages/daemon/src/daemon.ts:295-339 | Joining under an alias or the first eight characters of the key: each outcome, if and only if, and what it leaves |
| RegistryOutcomes.OpenExactlyWhen | packages/daemon/src/daemon.ts:204-219 | Opening by alias or the current one: each outcome, if and only if, and what is open after it |
| RegistryOutcomes.RemoveExactlyWhen | packages/daemon/src/daemon.ts:341-406 | Removing: each outcome, if and only if, and the rows, directories and current alias it leaves |
| RegistryOutcomes.RenameExactlyWhen | packages/daemon/src/daemon.ts:408-433 | Renaming: each outcome, if and only if, with row, directory, open pact and current alias moved together |
| RegistryOutcomes.SetCurrentExactlyWhen | packages/daemon/src/daemon.ts:193-202 | An alias becomes the current one if and only if it is listed; it can be cleared |
| RegistrySteps.AloneIsStep | packages/daemon/src/daemon.ts:193-433 | Taken apart at its awaits and left undisturbed, every operation comes to what the whole operation is said to do, validation of the file included |
| RegistryOverlap.SerialRuns | packages/daemon/src/daemon.ts:264-433 | Over every interleaved run in which no call loads the file before the others have ended: once all have, the host is where the operations lead one after another, every call has reported so, and the host is sound |
| RegistryOverlap.FileIsAlwaysValid | packages/daemon/src/config.ts:148-233 | However calls interleave, the file meets the validation rules at every moment and each row's directory is that of its own alias |
| RegistryOverlap.OnlyOwnDirectories | packages/daemon/src/daemon.ts:341-433 | However calls interleave, no step changes or deletes a directory other than that of the pact its call brings up, removes or renames |
| ConcurrentInstalls.InstallsListedExactlyWhen | packages/daemon/src/daemon.ts:264-339 | Any number of creates and joins of different pacts, under any aliases or none, in any interleaving, failing or not: in the end every pact reported ready has its row, alias with its own key, if and only if no two calls were between their load and their save at once |
| ConcurrentInstalls.SoundWithoutOverlapExactlyWhen | packages/daemon/src/daemon.ts:264-339 | If those calls all come up and no two were between load and save at once, the host is sound in the end if and only if, of the calls that make themselves current, the last to save is the last to end |
| ConcurrentInstalls.SoundExactlyWhen | packages/daemon/src/daemon.ts:264-339 | If those calls all come up under aliases of their own, the host is sound in the end if and only if no two were between load and save at once and that last saver is the last to end |
| RegistryWitnesses.LostRow | packages/daemon/src/daemon.ts:264-293 | A concrete case: two creates that load the same file both succeed and one row is lost |
| RegistryWitnesses.CurrentAliasLags | packages/daemon/src/daemon.ts:264-293 | A concrete case: two creates that save one after the other but end the other way round leave the daemon with a current alias that is not the file's |
| RegistryWitnesses.RemovedWhileOpening | packages/daemon/src/daemon.ts:264-406 | A concrete case: a removal that loads after a create has saved but before it has ended leaves the pact open and unlisted |
| RegistryAliases.BaseIsAlias | packages/daemon/src/daemon.ts:1173-1179 | The slug of any name, or its stand-in, is a valid alias |
| RegistryAliases.SlugJoinsWords | packages/daemon/src/daemon.ts:1173-1179 | The slug of a name is its words, in order, with single hyphens between them, cut to 48 characters |
| RegistryAliases.DefaultAliasExactlyWhen | packages/daemon/src/daemon.ts:1163-1171 | A pact created without an alias is listed under its slug, or `pact` if that is empty, or the first of the numbered ones from 2 to 9998 that is free |
| RegistryAliases.SlugOfAlias | packages/daemon/src/daemon.ts:1173-1179 | A valid alias without doubled or trailing hyphens is its own slug |
| RegistryAliases.FirstFreeIsSmallest | packages/daemon/src/daemon.ts:1163-1171 | The numbered alias is free and has the smallest free number; none is found if and only if all numbers below 9999 are taken |
| RegistryAliases.DefaultAliasRefusedExactlyWhen | packages/daemon/src/daemon.ts:264-271 | Creating without an alias never collides; it is refused for the alias if and only if the numbered name the daemon picks is over 48 characters |
| RegistryAliases.LongNameIsRefused | packages/daemon/src/daemon.ts:264-271 | A concrete case: a taken name of 47 letters |
| RegistryAliases.DefaultJoinAliasExactlyWhen | packages/daemon/src/daemon.ts:295-298 | The default alias of a join is valid if and only if the first eight characters of the key are in lower case |
| RegistryAliases.UpperCaseKeyIsRefused | packages/daemon/src/daemon.ts:295-298 | A concrete case: the key `ABCDEF00` |
| Daemon.ValidateDaemonConfig | packages/daemon/src/config.ts:199-233 | A configuration is accepted if and only if port and token are well formed, aliases are distinct, every row is complete and the current alias is listed |
| Daemon.ConfigExactlyWhen | packages/daemon/src/config.ts:199-233 | What a valid configuration is, character by character |
| Daemon.UniqueAliasFromName | packages/daemon/src/daemon.ts:1163-1171 | The loop finds the base if free, else the base with the smallest free number |
| Daemon.Daemon.SaveRegistry | packages/daemon/src/config.ts:148-158 | The file changes if and only if the new configuration passes validation |
| Daemon.Daemon.SetCurrentAlias | packages/daemon/src/daemon.ts:193-202 | The file and the memory get the alias, or nothing changes when it is not registered; the write always passes validation |
| Daemon.Daemon.OpenPact | packages/daemon/src/daemon.ts:204-217 | The pact is open with the directory and key of its row, or the error says why not |
| Daemon.Daemon.CreatePact | packages/daemon/src/daemon.ts:264-293 | The whole host after the call is that of the registry's create step, and stays sound |
| Daemon.Daemon.JoinPact | packages/daemon/src/daemon.ts:295-339 | The whole host after the call is that of the registry's join step, and stays sound |
| Daemon.Daemon.RemovePact | packages/daemon/src/daemon.ts:341-406 | The whole host after the call is that of the registry's remove step, and stays sound |
| Daemon.Daemon.RenamePact | packages/daemon/src/daemon.ts:408-433 | The whole host after the call is that of the registry's rename step, and stays sound |

## Left out

- Autobase, Hyperbee, Hypercore, Hyperswarm and Protomux internals: a log order, a map with range reads and message events stand for them.
- The host's own refusal to remove the last indexer: a hypothesis of the results that need it (`Authority.LastIndexerKept`).
- Cryptography, schema validation by ajv, JSON, base64url and the wire codecs: their consequences are assumed.
- The word list behind peer handles, skill checksums and the schemas' other fields: results need only that a handle is a function of the key.
- Sequence numbers that are not safe integers, and keys given to `encode` that are not strings.
- Text in stored entries beyond what the reducers read: content and list metadata are opaque.
- `getEntryById`: it is `getById` over the four types in turn.
- Invite token encoding and the checks `redeemInvite` makes before it takes the lock (shape, pact, indexer status): they do not touch the file.
- `summarise` and `listInvites`: they copy fields for display.
- `Pact._onAppliedInternal` and the in-memory name and purpose: they mirror the last applied change, not the register.
- `lastPongAt`, `backoffDelayMs` and the retry timers of authentication: the model keeps outstanding requests, not the schedule of attempts.
- PeerLinks.PeerLink.FinishMemberAuth: takes the outcomes of the signature check and of the membership lookup as inputs, and lets no other event come while the lookup is awaited.
- `scheduleRevocationDisconnect` and the reconcile loop: timers over state this model does not keep.
- Messages of fan-out responses: only codes and nonces are kept.
- Failures of the file system in registry operations other than a pact that fails to come up and a directory that cannot be renamed.
- A restart or a crash while a registry operation is under way: the model restarts between operations.
- `addedAt`, pact purposes and display names in the registry: copied, never read there.
- The farewell entries `removePact` appends before it removes a pact: they are best effort and do not change the registry; when the self-removal is appended is in `Leaving`.
- Registry.Slugify: takes the name already in lower case, so that the language's case mapping is not part of this model.
- The type checks of `validateDaemonConfig` on values that are not of the declared types.
- REST routes, authorisation, rate limits, logging, CLI, MCP tools, SDK transport, dashboard and site.
