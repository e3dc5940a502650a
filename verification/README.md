# Verified model of the CRDT library

This project models the replicated data types and the durable relay of the library and proves what
they are for. It covers the hybrid logical clock, the insert-only list with its incremental marker
index, the list with moves, the canonical list codec, the Merkle tree, the durable operation log with
its relay and anti-entropy, the document-tree join, and the delta coalescer.

How the parts fit together:

- `Tags`, `Clocks`: tags with 64-bit fields, their order, sorted key lists, and the clock.
- `Forests`, `RgaOrder`, `Cycles`: ordered forests over tags, their Euler tours, what attaching a tree
  does to a tour, and the cycle checks. A parent map is acyclic when no nonempty set of nodes is closed
  under parents; `Cycles.AcyclicIffNoCycle` shows that this is the absence of a cyclic chain.
- `Markers`, `Sequence`, `ChildIndexes`, `RgaIndexes`: the heap structure behind the list, with a linked
  list and a treap over the same marker objects, and the two kinds of child lists.
- `RgaStates`, `RgaSplices`, `RgaEdits`, `RgaBuilds`, `RgaVerdicts`, `RgaOutcomes`, `RgaLists`: delivery,
  the pending buffer, local edits, rebuilds and compaction of the insert-only list.
- `RgaAcceptances`, `RgaDeliveries`, `MoveDeliveries`: which deltas a list must take, and that it takes a family of
  deltas that belong together in every order.
- `EditOutcomes`: exactly how a local edit of either list ends, as a function of a few numbers and the clock.
- `MoveOrders`, `MoveSplices`, `MoveProjections`, `MoveDecisions`, `MoveJoins`, `MoveLocals`, `MoveExacts`,
  `MoveShifts`, `MoveVerdicts`, `MoveOutcomes`, `MoveLists`, `MoveSessions`, `MoveWitnesses`: placements, the
  projection that breaks cycles by priority, when a local move is a splice, and a move that is not.
- `Wires`, `RgaWires`, `RgaCodecs`, `Frames`: varints, tags, list payloads and frames.
- `Merkles`, `MerkleTrees`, `MerkleIndexes`, `StoreMerkles`, `MerkleRepairs`: roots, the root cache, and
  anti-entropy.
- `Changes`, `Logs`, `LogAnswers`, `Stores`, `StoreReads`, `StoreCatchUps`: the operation log as a plain sequence, the
  buckets that refine it, and the reads over them.
- `Relays`: subscriptions, queues, connections and client cursors as atomic steps.
- `DocumentJoins`, `DocumentStates`, `ObjectGraphs`: the five-section join, copy-on-write over shared
  references, and the ownership check.
- `Coalescers`: the optimistic merge loop, split at its two lock regions.

Modelling decisions:

- Each lock region is one atomic step. Where the code releases and retakes a lock (`Tree.Root`,
  `Coalescer.Add`, the relay's write loop) the step is split there, and the interleaving theorems range
  over arbitrary sequences of steps.
- A database transaction replaces a value that holds all buckets of a group, or nothing.
- SHA-256 is an injective constructor that never yields the zero digest; CRC-32C is an arbitrary function.
- Strings are byte sequences. White-space trimming and UTF-8 validity are spelled out on bytes.
- Clock readings, authorization decisions, the acceptance of a delta by a policy, network failures and
  failures of the application to install an event are parameters, so every claim holds for all of them.
- Loops over Go maps pick elements in an arbitrary order.
- Treap priorities are arbitrary: no claim depends on the hash that produces them.
- The visible projection of the list with moves requires no more tombstones than nodes, because the
  code computes a slice capacity from that difference (list/move.go:538).
  `MoveOutcomes.TombstoneWithoutElement` is a delivery after which that fails.
- `Insert` and `Delete` of the list with moves are exact in every state. A move is promised to be exact as
  well (list/move.go:206-259), and it is not: concurrent moves can form a cycle, the projection then drops one
  attachment, and a later move can break the cycle so that the dropped attachment comes back.
  `MoveWitnesses.MoveNotSplice` is such a run. `MoveShifts.UnmovedKeptIff` says for every state when this
  happens, and a move during which it does not happen is the splice. An intact state, in which every anchor
  is known and placements are acyclic, has nothing dropped, and local edits keep it intact.
- A closed session of the relay takes no more messages; only later is its connection torn down, and in
  between it may still write what it holds. A failed write ends the connection before the session is closed.
- A root record of a document is stored under its name, so the record itself keeps identity and kind.

## Model

| member | source | states |
|---|---|---|
| `Tags.Trichotomy` | crdt.go:196-213 | tag comparison is a total order: exactly one of less, equal, greater |
| `Tags.Transitive` | crdt.go:196-213 | tag comparison is transitive |
| `Clocks.NextTimestamp` | clock/hlc.go:181-189 | the least reading after the given one, and none exactly at the last representable reading |
| `Clocks.AdvanceMoves` | clock/hlc.go:102-167 | whatever the physical clock says, a successful step passes the clock and the witnessed tag |
| `Clocks.AdvanceEarliest` | clock/hlc.go:102-189 | a step goes to the earliest reading after the clock, after the remote tag and not behind the physical clock, and fails exactly when there is none |
| `Clocks.AdvanceFails` | clock/hlc.go:102-189 | that is: a time before the epoch, an invalid tag, or the last reading reached by the clock or the tag |
| `Clocks.IssuedTagsIncrease` | clock/hlc.go:85-167 | in every sequence of Now and Witness, with any physical clock, each issued tag exceeds every tag issued or witnessed before |
| `Clocks.HLC.Now` | clock/hlc.go:85-98 | issues a tag exactly when some 64-bit reading lies after the clock and not behind the physical one, and then the earliest such reading; an error leaves the clock unchanged |
| `Clocks.HLC.Witness` | clock/hlc.go:102-147 | the same with a valid remote tag to pass as well |
| `Markers.Merge` | list/sequence.go:100-121 | merging two treaps gives a well-formed treap over the concatenated marker lists, for any priorities |
| `Markers.Split` | list/sequence.go:123-146 | splitting gives two well-formed treaps whose lists concatenate to the old one, the first with exactly count markers |
| `Markers.CountsExact` | list/sequence.go:83-98 | cached subtree counts are the true numbers of markers and of visible markers |
| `Markers.MarkerRank` | list/sequence.go:148-157 | climbing parent pointers yields the index of the marker in the list |
| `Markers.SetFlag` | list/sequence.go:175-184 | changing one flag and repairing counts on the way up keeps the treap well formed |
| `Markers.VisibleAtOffset` | list/sequence.go:206-226 | descending by visible counts finds the visible marker with that offset, and fails exactly outside the range |
| `ChildIndexes.SearchDescending` | list/sequence.go:314-325 | binary search in a descending list finds the boundary of the smaller elements |
| `ChildIndexes.SearchDescendingOrEqual` | list/sequence.go:327-338 | binary search finds the first element that is not greater |
| `ChildIndexes.ChildIndex.Count` | list/sequence.go:239-250 | the number of children, wherever they are stored |
| `ChildIndexes.ChildIndex.Insert` | list/sequence.go:252-286 | a new child enters the descending list at its place and the sibling before it is reported; a listed child is left alone in the inline form and listed twice in the slice form, whose guard never holds; other parents are untouched |
| `ChildIndexes.ChildIndex.Remove` | list/sequence.go:288-312 | exactly that child leaves the list, and it fails exactly when the child is not there |
| `Sequence.SequenceIndex.InsertPairAfter` | list/sequence.go:161-173 | enter and exit markers go right after the anchor in the linked list, in the treap and in the pair map at once |
| `Sequence.SequenceIndex.RemoveLeaf` | list/sequence.go:186-204 | removes exactly the two markers of a position with nothing between them, and fails exactly otherwise |
| `Sequence.SequenceIndex.SetVisible` | list/sequence.go:175-184 | changes the flag of that position's enter marker only |
| `Sequence.SequenceIndex.VisibleAt` | list/sequence.go:206-226 | selecting by offset agrees with listing all visible positions |
| `Sequence.SequenceIndex.VisiblePositions` | list/sequence.go:228-237 | following next pointers lists the visible positions of the marker list |
| `RgaOrder.LeafInserted` | list/rga.go:656-669 | integrating a leaf puts its two marks right after the exit of its nearest greater sibling, or after the entry of its parent |
| `RgaIndexes.RgaIndex.Integrate` | list/rga.go:656-669 | the marker list stays the Euler tour of the parent tree with siblings in descending tag order, now with the new position |
| `RgaIndexes.RgaIndex.Hide` | list/rga.go:324-397 | hiding a position keeps the tour and removes that position from view |
| `RgaIndexes.RgaIndex.RemoveLeaf` | list/rga.go:469-512 | removing a childless position never fails and leaves the tour of the smaller tree |
| `RgaIndexes.RgaIndex.VisiblePositions` | list/rga.go:652-654 | the visible positions are the recursive depth-first walk without the tombstones |
| `RgaIndexes.RgaIndex.VisibleAt` | list/rga.go:293-311 | the position at every offset is that element of the walk, and it fails exactly outside |
| `RgaIndexes.IndexDetermined` | list/rga.go:656-697 | every parent-first integration order, and a rebuild from a full state, gives the same markers and the same list |
| `RgaBuilds.Classify` | list/rga.go:566-598 | resolves exactly the new nodes whose chain of parents is known, parents first; the rest is blocked |
| `RgaBuilds.BuildIndex` | list/rga.go:671-697 | a rebuild succeeds exactly for parent-complete acyclic states and yields the valid index of that state |
| `RgaVerdicts.GreatestTag` | list/rga.go:827-844 | the newest of all tags a delta mentions |
| `RgaVerdicts.IssueRun` | list/rga.go:218-226 | one fresh increasing tag per value, each new node below the one before it; tags, clock and failure are exactly those of issuing at these clock readings |
| `RgaStates.IntegratedIsLargestClosed` | list/rga.go:609-650 | the integrated nodes are the largest parent-closed subset of everything delivered |
| `RgaStates.SettledUnique` | list/rga.go:324-397 | two settled states with the same deliveries are equal, bookkeeping included |
| `RgaStates.DeliveryConverges` | list/rga.go:324-397 | every order, duplication and batching of the same accepted content ends in the same nodes, pending set, tombstones and list |
| `RgaLists.Rga.IntegrateReady` | list/rga.go:609-650 | moves over exactly what can be integrated; waiting lists and pending bytes stay exact |
| `RgaLists.Rga.ApplyDelta` | list/rga.go:324-397 | accepted if and only if the delta is of this codec, valid, consistent, and brings nothing new or fits the limits, stays acyclic and can be passed by the clock; then old state and delta are both retained; otherwise nothing changes |
| `RgaAcceptances.WelcomeIff` | list/rga.go:324-397 | the verdict in order of the checks accepts exactly the welcome deltas, described without that order and by chains of known parents |
| `RgaDeliveries.AgreeingFamily` | list/rga.go:324-397 | valid deltas that agree, whose union is acyclic and within the limits, are a family |
| `RgaDeliveries.DeliverAll` | list/rga.go:324-397 | a list takes every sequence of members of a family, in every order, repetition and batching, children before parents included, as long as the wall clock has room |
| `RgaDeliveries.RunsExist` | list/rga.go:324-397 | so the runs over which delivery converges exist for every such sequence |
| `RgaAcceptances.OwnStateRestores` | list/wire.go:144-179 | what a list with nothing pending holds can be restored under the same limits exactly when the clock can pass it |
| `RgaLists.Rga.Restore` | list/wire.go:144-179 | a full state replaces the list exactly when it is complete, acyclic and within limits and the clock can pass it; otherwise nothing changes |
| `RgaSplices.VisibleOnce` | list/rga.go:652-654 | every integrated, undeleted position is listed exactly once |
| `RgaSplices.InsertRun` | list/rga.go:187-234 | a run of ever newer nodes below the position before an offset appears, in order, exactly at that offset |
| `RgaEdits.InsertExact` | list/rga.go:187-234 | delivering a freshly issued run puts the values exactly at the offset |
| `RgaEdits.DeleteExact` | list/rga.go:245-267 | delivering the tombstones of a range removes exactly that range from view |
| `RgaLists.Rga.Insert` | list/rga.go:187-234 | the error, the clock and the issued tags are exactly those of the outcome function, which knows only the visible length, the element count and the clock; on success the visible list is old[..o] + values + old[o..] and the delta holds exactly the new nodes; otherwise nothing changes and the delta is empty |
| `RgaLists.Rga.Delete` | list/rga.go:245-267 | the error and the clock are exactly those of the outcome function; on success exactly the requested range disappears and the delta holds exactly its tombstones; otherwise nothing changes and the delta is empty |
| `RgaOutcomes.RunEnds` | list/rga.go:187-234 | a freshly issued run is refused only for the element count or the clock: it is never invalid, conflicting, cyclic or blocked |
| `RgaOutcomes.BuryEnds` | list/rga.go:245-267 | tombstones for visible positions are refused only for their count or the clock |
| `EditOutcomes.RangeErrors` | list/rga.go:187-267 | an edit is a range error exactly for an offset, count or target outside the list |
| `EditOutcomes.InsertSucceeds` | list/rga.go:187-234 | with room on the clock, inserting succeeds exactly for an offset inside, values within the bound and enough elements left |
| `EditOutcomes.DeleteSucceeds` | list/rga.go:245-267 | with room on the clock, deleting succeeds exactly for a range inside and enough tombstones left |
| `EditOutcomes.MoveSucceeds` | list/move.go:206-259 | with room on the clock, moving succeeds exactly for a range and a target inside |
| `RgaSplices.CompactOne` | list/rga.go:469-512 | dropping a hidden leaf leaves the visible list as it was |
| `RgaLists.Rga.CompactTombstones` | list/rga.go:469-512 | all or nothing: fails exactly for unsafe requests, else removes exactly the requested tombstones and keeps the visible list and all invariants |
| `Cycles.AcyclicIffNoCycle` | documenttree/validate.go:283-313 | having no set closed under parents is having no cyclic parent chain |
| `Cycles.AcyclicAgainst` | list/rga.go:734-774 | accepts exactly the incoming nodes that add no cycle to an acyclic pending set |
| `Cycles.AcyclicArray` | documenttree/validate.go:283-313 | the three-colour walk accepts exactly the arrays without a parent cycle |
| `Cycles.VisibleArrayNodes` | documenttree/document.go:1137-1161 | the recursive projection terminates and is the depth-first walk without the deleted nodes |
| `Cycles.WalkVisitsReachable` | documenttree/document.go:1137-1161 | the walk visits every node whose parents lead to the root exactly once, and no other |
| `MoveProjections.MoveWouldCycle` | list/move.go:558-570 | true exactly when the attachment would close a cycle among the parents decided so far |
| `MoveProjections.ParentsAreForest` | list/move.go:481-556 | for every state, with cyclic moves and missing anchors, the chosen parents form a forest under the root |
| `MoveProjections.EveryLiveNodeOnce` | list/move.go:481-556 | every undeleted element appears exactly once |
| `MoveDecisions.DecidedUnique` | list/move.go:481-516 | the chosen parents are the only ones in which every element has the parent chosen in view of those decided before it, whatever the order of the loop |
| `MoveDecisions.AttachedUnlessBlocked` | list/move.go:481-570 | an element hangs under its anchor, unless the anchor is unknown or a chain of parents decided earlier leads from it to the element; then it hangs under the root |
| `MoveProjections.VisiblePositions` | list/move.go:481-556 | the loops and the explicit stack compute the projection, which depends on the state alone |
| `MoveJoins.JoinCommutes` | list/move.go:295-363 | conflict-free states join in either order |
| `MoveJoins.JoinAssociates` | list/move.go:295-363 | the join of states is associative |
| `MoveJoins.JoinIdempotent` | list/move.go:295-363 | joining a state with itself changes nothing |
| `MoveJoins.MoveDeliveryConverges` | list/move.go:295-363 | replicas that accept the same content in any order, repetition or batching agree, list included |
| `MoveVerdicts.GreatestMoveTag` | list/move.go:449-473 | the newest of all tags a move delta mentions |
| `MoveLists.MoveRga.ApplyDelta` | list/move.go:295-363 | accepted if and only if the delta is of this codec, valid, contradicts nothing, leaves the list within every limit and can be passed by the clock; then the new state is the join; otherwise nothing changes |
| `MoveOutcomes.MoveWelcomeIff` | list/move.go:295-363 | the verdict in order of the checks accepts exactly those deltas |
| `MoveDeliveries.DeliverMoves` | list/move.go:295-363 | a list takes every sequence of parts of a consistent whole within the limits, in every order, repetition and batching, placements before their elements included, as long as the wall clock has room |
| `MoveOutcomes.TombstoneWithoutElement` | list/move.go:481-556 | a tombstone for an unknown element is accepted by an empty list, whose projection then computes a negative capacity |
| `MoveLocals.NothingDropped` | list/move.go:481-556 | where every anchor is known and attachments are acyclic, no attachment is dropped |
| `MoveExacts.InsertIsExact` | list/move.go:118-160 | in every valid state, cyclic moves and missing anchors included, fresh elements below the position before an offset appear exactly there and no other parent changes |
| `MoveExacts.InsertStaysIntact` | list/move.go:118-160 | an insertion keeps an intact state intact |
| `MoveShifts.MoveIsExact` | list/move.go:206-259 | if no dropped element outside the rewritten suffix comes back, the move is exactly the splice remaining[..to] + selected + remaining[to..] |
| `MoveShifts.UnmovedKeptIff` | list/move.go:206-259 | the parents outside the rewritten suffix stay the same if and only if every dropped element there is still reached from its anchor through the new parents |
| `MoveShifts.MoveStaysIntact` | list/move.go:206-259 | in an intact state nothing is dropped, so every move is exact, and the state stays intact |
| `MoveWitnesses.MoveNotSplice` | list/move.go:206-259 | a move that is not its splice: two concurrent moves of [A, B, C], their merge, an insertion, and then Move(3, 1, 0) on [P, A, C, B] shows [B, A, C, P] |
| `MoveLists.MoveRga.Insert` | list/move.go:118-160 | the error, the clock and the issued tags are exactly those of the outcome function; on success the insertion is exact in every state, and delivering the delta, which holds exactly the new elements, to the old state gives the new one; otherwise nothing changes and the delta is empty |
| `MoveLists.MoveRga.Delete` | list/move.go:173-194 | the error and the clock are exactly those of the outcome function; on success exactly the range disappears, in every state, and the delta holds exactly its tombstones and leads from the old state to the new one; otherwise nothing changes |
| `MoveLists.MoveRga.Move` | list/move.go:206-259 | the error and the clock are exactly those of the outcome function; on success the exact splice whenever the parents outside the rewritten suffix stay, which is decided before the call, and so whenever every known anchor outside it is attached; the delta holds exactly the records of the rewritten suffix, all under one fresh tag, is empty when nothing moves, and leads from the old state to the new one |
| `MoveOutcomes.RunVerdict` | list/move.go:118-160 | a freshly issued run is refused only for the element count or the clock |
| `MoveOutcomes.ShiftVerdict` | list/move.go:206-259 | the records of a move are refused only for the clock |
| `MoveOutcomes.PeerFollows` | list/move.go:295-363 | a peer in the old state takes the delta of an edit unless its clock cannot pass it, and ends in the new state |
| `MoveSessions.Perform` | list/move.go:118-259 | one edit of an intact list does to tags, values, counters and clock exactly what it does to a plain sequence, and succeeds exactly when that does; its delta leads from the old state to the new one |
| `MoveSessions.Session` | list/move.go:118-259 | every sequence of local edits on one replica, with every success and failure, is the run of a plain sequence of tagged values; no attachment is ever dropped; the deltas lead step by step from the first state to the last |
| `MoveSessions.PeersAgree` | list/move.go:118-363 | a peer that accepts the deltas of such a session in any order, repetition or batching ends in the same state |
| `MoveSessions.Mirror` | list/move.go:118-363 | a peer in the same state that takes the delta of an edit is again in the same state, unless its clock cannot pass the delta |
| `Wires.ReadUvarintIff` | encoding/frame.go:291-304 | reading succeeds exactly on the shortest form of a 64-bit value and consumes just that |
| `Wires.UvarintIsNumeral` | encoding/frame.go:291-304 | a varint is the one shortest base-128 numeral of its value, least significant digit first |
| `Wires.ReadBytesIff` | encoding/frame.go:308-322 | reading length-prefixed bytes inverts writing them, exactly within the bound |
| `Wires.TagSize` | encoding/frame.go:262-265 | the precomputed size of a tag is the number of bytes written |
| `Wires.ReadTagIff` | encoding/frame.go:269-287 | reading a tag inverts writing it, exactly for valid tags within the bound |
| `Wires.TagPrefixFree` | encoding/frame.go:254-259 | no tag's encoding is a prefix of another's |
| `RgaWires.ReadEntryIff` | list/wire.go:247-313 | reading a node inverts writing it, exactly for acceptable nodes |
| `RgaWires.ReadEntries` | list/wire.go:247-313 | reads a list of nodes in strictly ascending order, and fails exactly when none stands there |
| `RgaCodecs.Marshal` | list/wire.go:47-113 | refused exactly when the delta is invalid, a full state misses a parent, or a limit is passed; the size computed beforehand is the size written |
| `RgaCodecs.Unmarshal` | list/wire.go:247-313 | returns the one acceptable state that encodes to exactly these bytes, or there is none |
| `RgaCodecs.RoundTrip` | list/wire.go:47-113 | decoding the payload of an acceptable state returns that state |
| `RgaCodecs.Reencode` | list/wire.go:247-313 | encoding what was decoded returns the very same bytes |
| `RgaCodecs.PayloadInjective` | list/wire.go:247-313 | one payload stands for one state |
| `Frames.FrameRoundTrip` | encoding/frame.go:135-240 | with any checksum, a frame decodes to a value exactly when that value encodes to these bytes |
| `Merkles.RootsIdentifyMaps` | merkle/tree.go:146-183 | with an ideal hash, two roots are equal exactly when the key-to-digest maps are, whatever the leaf counts |
| `MerkleTrees.RootForEntries` | merkle/tree.go:146-183 | the level-by-level loops compute the root of the map |
| `MerkleTrees.Tree.InsertDigest` | merkle/tree.go:53-64 | sets one entry, and no ticket of a concurrent reader becomes installable wrongly |
| `MerkleTrees.Tree.Delete` | merkle/tree.go:84-95 | removes one entry, with the same guarantee |
| `MerkleTrees.Tree.BeginRoot` | merkle/tree.go:117-125 | a cached root returned is that of the current entries; otherwise the reader holds a snapshot of its generation |
| `MerkleTrees.Tree.InstallRoot` | merkle/tree.go:131-138 | a computed root is installed only for the generation it was computed for |
| `MerkleTrees.Tree.Root` | merkle/tree.go:113-139 | without interference the root of the current entries |
| `MerkleTrees.Interleave` | merkle/tree.go:53-144 | under every interleaving of writers with both regions of Root, a cached root matches the current entries and every root handed out was right at one moment |
| `MerkleTrees.Diff` | merkle/tree.go:186-218 | exactly the keys on one side only and the keys with different digests, each in key order |
| `Changes.UnmarshalIff` | durable/wire.go:582-618 | a change envelope decodes exactly when it is the envelope of that change within the bounds |
| `Changes.EnvelopeInjective` | durable/wire.go:582-597 | two changes with one envelope are one change |
| `Changes.UnmarshalOwnEvent` | durable/wire.go:620-651 | a subscriber decodes exactly the sequence number and change the relay encoded, within its own bounds |
| `Changes.SequenceKeyOrder` | durable/store.go:713-717 | event keys are in sequence order and never collide |
| `Changes.DotKeyInjective` | durable/store.go:704-711 | different dots have different keys |
| `Changes.DotKeyPrefix` | durable/store.go:686-711 | a key starts with an actor's prefix exactly when the dot is that actor's |
| `Changes.DotKeyOrder` | durable/store.go:704-711 | one actor's keys are in counter order |
| `Changes.PrefixContiguous` | durable/store.go:328-331 | keys with a common prefix are contiguous in cursor order |
| `Changes.DotFromOwnKey` | durable/store.go:691-702 | a key reads back as its dot exactly when the actor's name is within the bound |
| `Logs.RelayStateRoundTrip` | durable/merkle.go:88-102 | a stored relay tag reads back exactly for this relay's own valid tags |
| `Logs.NextTagBeyond` | durable/store.go:203-221 | a tag the relay issues names the relay and exceeds every tag in the log |
| `LogAnswers.NextTagWhen` | durable/store.go:203-221 | the relay issues a tag exactly when it has a valid name, the log holds no tag of another relay and a reading is left, and then the earliest one after the log |
| `Logs.AppendKeeps` | durable/store.go:140-265 | an append keeps dots distinct and relay tags increasing, and stays within the limits |
| `Logs.RunKeeps` | durable/store.go:140-265 | the same for every sequence of appends on an empty store, with count and byte totals within the limits |
| `Logs.RunGrows` | durable/store.go:140-265 | the log only grows at its end |
| `Logs.AnsweredIsLogged` | durable/store.go:174-201 | every answered sequence number, duplicates included, names that change now and later |
| `LogAnswers.DecideFair` | durable/store.go:140-265 | which answer an append gets, by the log alone: a logged dot is a conflict exactly for another envelope and otherwise the old sequence number as a duplicate; a new one gets the next number exactly when it is valid, fits the limits and can be tagged |
| `LogAnswers.RetryIsDuplicate` | durable/store.go:174-192 | a change that was answered once is answered later with the same sequence number as a duplicate, whatever happened and whatever the store was reopened with in between, as long as it is within the size limit and readable |
| `Logs.MaximaAreMaxima` | durable/store.go:228-237 | actor entries are exactly the true maxima, for exactly the actors in the log |
| `Stores.EventAt` | durable/store.go:222-224 | event keys are exactly 1 to the high-water mark, each with its envelope |
| `Stores.DotAt` | durable/store.go:225-227 | the dot bucket binds exactly the dots of the log, each to its one event and digest |
| `Stores.HlcIndexAt` | durable/store.go:241-251 | the tag index knows exactly the tags of the log, each by its one event |
| `Stores.RebuildActors` | durable/store.go:525-588 | rebuilding the actor index from the events gives the incremental one, and fails exactly for over-long names |
| `Stores.Repeat` | durable/store.go:174-192 | a bound dot is a conflict exactly if the log holds another envelope under it, and otherwise answers with the logged sequence number as a duplicate |
| `Stores.PutInStep` | durable/store.go:222-254 | one commit keeps every bucket, total and index in step with the longer log |
| `Stores.GroupLog.EnsureActorIndex` | durable/store.go:525-588 | after it the actor index is built, or nothing changed |
| `Stores.GroupLog.Append` | durable/store.go:140-265 | the answer is fair in the sense of LogAnswers.DecideFair, and the log grows by exactly this change on a new sequence number; duplicates, conflicts and errors change nothing |
| `Stores.AppendAll` | durable/store.go:140-265 | any sequence of appends on an empty store builds exactly the plain log of those requests, within the limits, and gives every request its fair answer |
| `Stores.Serve` | durable/store.go:68-265 | the same for every mixture of appends and reopenings with other limits or another relay name, with the fair answer at every step; answered sequence numbers still name their change at the end |
| `Stores.AnsweredStays` | durable/store.go:174-201 | whatever the store is reopened with, an answered sequence number names that change for good |
| `StoreReads.Replay` | durable/store.go:593-664 | succeeds exactly when the whole suffix fits the budget and then returns it all, in order, with the high-water mark |
| `StoreCatchUps.CollectActor` | durable/store.go:324-354 | seek and prefix scan gather exactly one actor's dots beyond a counter, or the whole set is over budget |
| `StoreCatchUps.SortBySequence` | durable/store.go:364-364 | the same events in ascending sequence order |
| `StoreCatchUps.CatchUp` | durable/store.go:271-366 | succeeds exactly when the frontier is covered and everything missing fits, and then returns exactly the events beyond the frontier in sequence order; an uncovered frontier is answered as replay unavailable |
| `MerkleIndexes.ValidateLeaves` | durable/merkle.go:66-80 | accepts exactly valid tags in strictly ascending order within the count and byte bounds |
| `MerkleIndexes.MerkleIndex.Put` | durable/merkle_index.go:34-54 | keeps leaves and tree in step; invalid and diverging events are told apart exactly and change nothing |
| `MerkleIndexes.MerkleIndex.Root` | durable/merkle_index.go:58-63 | the root over the leaf digests |
| `MerkleIndexes.MerkleIndex.Reconcile` | durable/merkle_index.go:68-94 | reports divergence exactly when a local leaf is absent or different remotely, otherwise exactly the missing identities |
| `MerkleRepairs.LackingSorted` | durable/merkle_index.go:68-94 | the missing identities come out sorted |
| `StoreMerkles.MerkleSnapshot` | durable/store.go:372-449 | succeeds exactly when every event can be attested within bounds; leaves in tag order, and the root over them |
| `StoreMerkles.ValidateIdentities` | durable/merkle.go:104-122 | accepts exactly valid tags in strictly ascending order within the bounds |
| `StoreMerkles.MerkleEvents` | durable/store.go:454-523 | succeeds exactly when every requested identity can be delivered, and returns those events in request order |
| `StoreMerkles.FetchableGrows` | durable/handler.go:249-274 | what the snapshot names can be fetched from every later log exactly when it could be fetched from the log of the snapshot |
| `StoreMerkles.MerkleEventFits` | durable/merkle.go:51-53 | the repair form of an event is longer than its envelope by at most the reserved overhead |
| `StoreMerkles.RoomyDeliverable` | durable/handler.go:528-530 | a change published with that reserve can always be sent again on repair |
| `MerkleRepairs.Repair` | durable/client.go:374-498 | with any appends between snapshot and fetch, a round succeeds if and only if the log could be attested and the roots agree or the inventories agree and the missing events could be fetched; then inventory and root are the snapshot's, otherwise nothing changes |
| `MerkleRepairs.AgreeingIsRepairable` | durable/handler.go:249-274 | if every change left room for the repair form, a replica that agrees can be repaired within the byte budget |
| `Relays.EnqueueKeeps` | durable/handler.go:629-646 | a subscriber takes a message exactly if it is open and has room for one more message and its bytes, and then has it last in its queue without a gap; otherwise it is closed and unsubscribed |
| `Relays.WriteReplayKeeps` | durable/handler.go:299-303 | writing the next replay message, closed or not, or failing to, keeps the stream gapless until the connection is gone |
| `Relays.TakeKeeps` | durable/handler.go:676-684 | taking a message off the queue, also of a session being closed, keeps stream order and accounting |
| `Relays.DeliverKeeps` | durable/handler.go:684-709 | a taken message is written next, also after closing began, or never |
| `Relays.WriteProgress` | durable/handler.go:299-303 | a replay write that succeeds puts the next message of the stream on the connection, also of a closed session; one that fails ends it |
| `Relays.DeliverProgress` | durable/handler.go:676-709 | taking, accounting and writing a queued message puts the next message of the stream on the connection and frees its bytes |
| `Relays.SendAll` | durable/handler.go:280-323 | by its own steps alone a standing session writes everything it has to write |
| `Relays.CatchUpClient` | durable/client.go:328-371 | and then its client, if it accepts what it reads, reads up to the end of the log |
| `Relays.Rejoin` | durable/handler.go:372-394 | a client that comes back is brought to the end of the log exactly if the part after its cursor can be replayed |
| `Relays.Broadcast` | durable/handler.go:539-544 | in any order of subscribers, each one with room has its old queue and the new event after it, each one without is closed and removed, and the others do not change |
| `Relays.DrainedIsCaughtUp` | durable/handler.go:280-323 | a subscribed session whose connection stands and that has nothing left to write or read has its client at the end of the log |
| `Relays.Relay.Publish` | durable/handler.go:510-546 | succeeds exactly for messages that decode, are admitted and authorized, leave room for repair and are accepted by the log; append and broadcast are one step: every subscriber with room has the new event queued, every other one is closed, and every client keeps its place |
| `Relays.Relay.Connect` | durable/handler.go:372-394 | replay and registration are one step: it succeeds exactly when the suffix after the cursor fits, and the stream starts at the cursor |
| `Relays.Relay.Read` | durable/client.go:328-371 | the result is exactly: nothing without a waiting message, else the log entry right after the cursor, installed unless it is over the client's bounds, unacceptable or not installed by the application; there is never a gap |
| `Relays.Run` | durable/handler.go:280-323 | under every interleaving of publishing, subscribing, overflow, closing, writes of closing sessions, failure and reconnection, every client has installed exactly the log entries from its checkpoint to its cursor, and the room for repair is kept |
| `DocumentJoins.JoinLaws` | documenttree/validate.go:315-453 | for any validity check, joins that succeed are commutative, associative and idempotent |
| `DocumentJoins.SectionsRanked` | documenttree/validate.go:382-444 | in every section the greater tag wins and equal tags must carry the same record |
| `DocumentJoins.JoinIsNewest` | documenttree/validate.go:315-453 | a join yields a document if and only if both sides are valid, nothing of the same tag differs, and the document is valid and holds the newest record of every key of either side |
| `DocumentStates.JoinSection` | documenttree/validate.go:334-405 | one section: the pointwise join in a fresh map, the very same map if nothing changes, and a conflict exactly on clashing records |
| `DocumentStates.JoinSections` | documenttree/validate.go:348-444 | the same for the sections kept per target object; every target that stays the same is the very same map |
| `DocumentStates.JoinState` | documenttree/validate.go:315-453 | the pointwise join of all five sections; nothing that existed is written; unchanged exactly when incoming adds nothing; unchanged sections and targets are shared; the newest incoming tag of a change is reported |
| `DocumentStates.GreatestStateTag` | documenttree/validate.go:539-561 | the greatest of the root, entry and array tags, or the zero tag without any |
| `ObjectGraphs.BoundedIsAcyclic` | documenttree/validate.go:200-225 | bounded owner chains make the ownership graph a forest |
| `ObjectGraphs.ValidateObjectGraph` | documenttree/validate.go:183-226 | accepts exactly when owners have the right kind and every owner chain ends within the depth limit |
| `Coalescers.NothingLost` | delta/batch.go:139-232 | for an associative merge the drained and queued items together mean exactly the accepted deltas in commit order |
| `Coalescers.Coalescer.Begin` | delta/batch.go:156-183 | first lock region, by the deltas accepted since the last drain: a mismatch exactly if one of them has another kind, over the limit exactly if it cannot merge and has no room, at once if nothing is queued or there is room, otherwise a ticket for the tail |
| `Coalescers.Coalescer.Finish` | delta/batch.go:197-213 | second lock region: stale exactly if the generation moved, refused exactly over the limit, otherwise the tail becomes the merge |
| `Coalescers.Coalescer.Drain` | delta/batch.go:219-232 | hands out the whole queue, which means exactly the deltas accepted since the last drain, and leaves an empty one of no kind |
| `Coalescers.ComeBack` | delta/batch.go:184-217 | an Add that merged outside the lock: undisturbed it is accepted exactly if the merge has its kind and fits; disturbed it starts again, and gives up exactly after the last retry |
| `Coalescers.Interleave` | delta/batch.go:139-232 | under every interleaving of adders and drains, accepted deltas in commit order are exactly what is drained or queued, the byte total is exact and bounded, every entering Add ends as the accepted deltas say, and an Add that nobody disturbs while it merges is accepted exactly if the merge has its kind and fits |

## Left out

- WebSocket, HTTP, gRPC and Yjs transports, TLS, authentication callbacks, heartbeats, timeouts, backoff and telemetry: input and output only.
- Database files, bucket creation for older files, corrupt bytes in buckets, and key-size limits of the database.
- Frame version 2 and compression, the JSON control messages, and the wire format of documents and of the list with moves.
- Element codecs: values are canonical byte strings already.
- The counters, registers, sets, last-writer-wins maps, attachments, history, awareness, membership and configuration packages: easier joins or lookups of the same kind.
- `Merge`, `Append`, `Values` and the snapshot constructors of both lists: thin wrappers around the modelled operations.
- Several groups in one store: groups share nothing but the file, so one group's log is modelled.
- The state-vector and Merkle session loops of the relay as interleaved steps: their reads and their repair are modelled as operations, the interleaving theorem covers the cursor protocol.
- The publishing queue of a client and its retries.
- `validateState` of documents except the array cycle check and the ownership check: the join theorem holds for any validity predicate.
- The counting of pending document operations.
- Balance and running time of the treap.
- Wrap-around of the 64-bit generation counters of the tree and the coalescer, of list versions as a source of order, and of placement ranks: generations and ranks are natural numbers.
- RgaLists.Rga.Insert: models the call without another goroutine between its two lock regions, because the offset is only meaningful then.
- RgaLists.Rga.Delete: models the call without another goroutine between reading the positions and applying the tombstones, for the same reason.
- MoveLists.MoveRga.Insert: models the call without another goroutine between its two lock regions, for the same reason.
- MoveLists.MoveRga.Delete: models the call without another goroutine between its two lock regions, for the same reason.
- MoveLists.MoveRga.Move: models the call without another goroutine between its two lock regions, for the same reason.
- MoveShifts.MoveIsExact: the condition is sufficient only, because a revived element can be deleted or land where it was; the parents are characterised in both directions by MoveShifts.UnmovedKeptIff.
- MoveProjections.VisiblePositions: states with more tombstones than nodes are excluded, because the code panics there.
- ChildIndexes.ChildIndex.Insert: the guard for a child found at the boundary is not written out, because it never holds.
- Relays.Relay.Publish: the authorization callback and the concrete validation of a delta are one boolean parameter.
