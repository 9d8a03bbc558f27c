# hnetd in Dafny

A model of the algorithmic core of hnetd, the home networking daemon: the binary
trie that holds prefixes, the DNCP database that floods node data, the prefix
assignment core with its hierarchy and its rules, the bit operations under the
rules, the cache of assigned prefixes, the capability election on a link, and
the two text forms of DNS names. Code that updates structures in place is
modelled by classes and methods with loops; each is proved against a
specification that does not look like it.

What the parts are about:

| files | subject |
|---|---|
| `FreeSpace`, `TrieArena`, `Btrie`, `BtrieAvailable`, `BtrieIterators` | the trie: a set of keys under insertion (also when memory runs out half way) and removal, the iterators, and the walk over free space |
| `Tlv`, `TlvDiff`, `DncpOwnTlvs`, `DncpIndex` | TLVs: their order, the difference of two containers, the own TLVs, the per-type index |
| `DncpGraph`, `Dncp`, `DncpAgreement`, `DncpProto`, `DncpPublish`, `DncpRuns` | DNCP: reachability, pruning, the network hash, what subscribers hold, receiving node states, publishing the own TLVs |
| `PaLdp`, `PaState`, `PaOutcome`, `PaCore`, `PaTrace`, `PaHierarchy`, `PaRuns` | prefix assignment: the pairs, the routine, every event, the callbacks, parent and child |
| `Bytes`, `Bitops`, `PopCount`, `Hamming`, `HammingDistance` | bits in bytes, the population count, the distance of two bit strings, the closest value below a bound |
| `PaCandidates`, `PaHamming`, `PaRules` | candidate prefixes, the random and the Hamming rule |
| `PaStore` | the cache of assigned prefixes |
| `HncpLink` | the election on a link |
| `DnsUtil` | label lists and escaped text |
| `Wrappers`, `Sequences` | shared types and list facts |

Some reading notes. A key is a sequence of bits. Trie nodes live in an arena, a
map from pointers to records, next to a ghost map from pointers to full keys; a
failing allocation is a nondeterministic choice. A DNCP instance is generic in
the type of TLV blobs; the hash functions and the reading of blobs are arbitrary
functions. A subscriber is modelled by what it holds: the multiset of TLVs that
it was given and not told to drop. `left` is what subscribers hold of nodes that
went without a word, `astray` are the nodes that came without one; both are empty
until one of the failures below happens (`Clean`). The log of prefix assignment
callbacks is a field of the core, and the state of a pair has to be what its part
of the log says. Times, random numbers, delays, the answers of rules and of
callbacks are parameters.

## Findings

Where a promise fails, the model keeps what the code does, and states exactly
when the promise is kept.

- A node whose data has update number 0 and that is dropped (`dncp_node_set`
  takes its removal for a spurious update, src/dncp.c:48-56): subscribers keep its
  TLVs. `DncpModel.Dncp.Prune` says that subscribers are right afterwards if and
  only if there are none or no such node goes; `DncpRuns.ForgottenRun` is a run
  from the start of an instance that ends there.
- `dncp_set_own_node_id` (src/dncp.c:244-265) makes an existing unreachable node
  reachable without a word. `DncpModel.Dncp.SetOwnNodeId` has the exact condition,
  `DncpRuns.UnannouncedRun` a run.
- Network hashes do not suffer from either: `DncpAgreement.Agree` needs no such
  condition.
- The apply timer is due after twice the flooding delay if and only if the
  flooding delay is below 2^30 ms (`PaLdp.DoubledDelay`); the comment at the
  setter allows more.
- `pa_rule_del` cancels the apply timer of what the rule published
  (src/pa_core.c:666). A pair that was not applied yet then has no timer, and if
  another rule publishes the same prefix it stays published and unapplied:
  `PaRuns.LosesItsTimer` is a run from an empty core. `PaCoreModel.PaCore.RuleDel`
  and `PaLdp.DroppedIsArmed` have the exact condition; every other event keeps
  armed pairs armed (`Steady`, `PaOutcome.SteadyStaysArmed`).
- `pa_ldp_global_valid` takes every entry that overlaps the prefix for an
  advertisement (src/pa_core.c:211-222). The comment there expects no other pair,
  unless delegated prefixes overlap. A pair that accepts what a neighbour
  advertises on its link can overlap a prefix that is published on another link,
  under one and the same delegated prefix: `PaRuns.PairsOverlap` is a run, after
  which the verdict depends on what the memory of the other pair looks like.
  `PaCoreModel.PaCore.GlobalValid` says what the verdict is in every case; it is
  the intended one if no other assigned pair overlaps.
- A pair without prefix accepts what a neighbour advertises on its link, and every
  advertisement that comes, goes or changes makes the pairs that it concerns look
  again. One case slips through. A pair that publishes a prefix over an
  advertisement on its own link (src/pa_core.c:265-266) forgets that advertisement;
  if it then loses the prefix to one elsewhere (src/pa_core.c:270-277) and no rule
  answers, or if a rule answers BACKOFF, it stays without prefix until something
  else wakes it. `PaRuns.LeftWithout` is a run from an empty core,
  `PaCoreModel.OutcomeHeeds` has the exact condition (`Overruled`), and every other
  step keeps pairs heeding (`KeepHeeding`).
- `pa_precedes` compares node identifiers for equality only (src/pa_core.c:36-38),
  although the best of several advertisements is the one with the greater
  identifier (src/pa_core.c:253-256). Two nodes that publish overlapping prefixes
  with equal priorities therefore both give way (`PaCoreModel.WhoYields`).
- The header allows the answer BACKOFF for unassigned pairs only
  (src/pa_core.h:559-561), but the rules give it for assigned pairs too, and the
  static rule leaves its priority unset (src/pa_rules.c:530-531). The core's
  invariants hold for any BACKOFF; that the best rule is picked is proved for rules
  that set the priority (`PaCoreModel.PaCore.PickRule`).
- In an empty trie, a walk over free space with the whole space as container and
  a longer first key lists the two halves instead of the whole
  (`BtrieAvailable.FirstAvailable`, `BtrieAvailable.HalvesOfEmpty`).
- `1 << 31` is negative and its sign is extended to 64 bits in the candidate count
  (src/pa_rules.c:71). The comparison is still the exact one
  (`PaCandidates.SumIsExact`).
- The counts of available prefixes stop at 65535. If the set is to have exactly
  65535 prefixes and more than that are available of the desired length itself,
  the number found is less than the room, and the overflow says otherwise
  (`Saturated`; `PaCandidates.CandidateSubset` has both cases).
- A pseudo-random prefix that the random rule takes is one of the candidates, except
  in two cases: the one above (`PaRules.GuessBeyondCount`), and if nothing is
  assigned, the pool is the whole space and the set does not hold all of it. Then
  the walk gives a half of the space for the whole, and a prefix far beyond the set
  is taken (`PaRules.GuessBeyondSet`).
- In the Hamming rule, once the overflow is used up, later available prefixes of
  the shortest length are completed freely. `PaHamming.HammingLoop` says what the
  result is closest among in every case (`OfferedAt`). That includes all candidates
  (`PaHamming.CandidateIsOffered`), and what is offered while the overflow lasts is
  a candidate (`PaHamming.OfferedIsCandidate`).
- A copy of no bits that starts at the end of a buffer takes the byte past the end
  and puts it back (src/bitops.c:15-54); `pa_rule_prefix_nth` does this with a
  prefix as long as its container. The model leaves the buffer alone then
  (`Bitops.BMemCpy`).
- If a subscriber, on hearing that republishing is near, takes back the change that
  is to be published, the second blob equals the old container and the first one,
  which is out of date, is published (src/dncp.c:513-532). Nothing is pending then
  that would correct it. `DncpPublish.Publisher.Flush` has the exact condition,
  `DncpPublish.PublishesStale` a case.
- Zero bytes in a label are lost in the text form: reading gives a label list back
  if and only if it has none (`DnsUtil.ReadsBack`).
- Saving the store finds the link of every prefix if and only if the link without a
  name has at most one prefix (`PaStoreModel.PaStore.Save`); removing a link
  without a name leaves the counter of the store too large if and only if it had
  prefixes (`PaStoreModel.PaStore.LinkRemove`).

## Model

| member | source | states |
|---|---|---|
| `FreeSpace.AvailIsFree` | src/btrie.c:507-597 | every listed prefix lies in the container, overlaps no stored key, and is not part of a larger free one |
| `FreeSpace.AvailIsOrdered` | src/btrie.c:507-597 | listed prefixes are disjoint and in address order |
| `FreeSpace.AvailIsComplete` | src/btrie.c:507-597 | every free prefix of the container lies in a listed one |
| `FreeSpace.AvailCoversExactly` | src/btrie.h:200-202 | an address of the container lies in a stored key or in a listed prefix, never in both or neither |
| `FreeSpace.AvailFrom` | src/btrie.c:635-664 | from any point of the walk, what was passed lies before it and the rest of the list is still ahead |
| `FreeSpace.RestIsAfter` | src/btrie.c:582-594 | what the walk lists after leaving a prefix lies after that prefix |
| `TrieArena.DeleteMaybeRestores` | src/btrie.c:120-145 | deleting superfluous nodes upwards keeps the structure and the keys, and makes the trie canonical again |
| `TrieArena.DeleteUndoesAttach` | src/btrie.c:147-171 | deleting a leaf that was just attached gives back what deleting at its parent would have |
| `TrieArena.DeleteUndoesSplit` | src/btrie.c:194-214 | deleting a node that was just put into an edge gives back the trie before |
| `BtrieModel.Btrie.DeleteMaybe` | src/btrie.c:120-145 | the loop computes the recursive specification, frees exactly the nodes that go, and touches no element |
| `BtrieModel.Btrie.AddLeaf` | src/btrie.c:147-171 | a chain of leaves, one per 32-bit word, leads to the key; if memory runs out half way, the trie is as if the parent had only been tidied up |
| `BtrieModel.Btrie.LongestMatchNode` | src/btrie.c:173-190 | the word-wise comparison finds the exact length of the common start |
| `BtrieModel.Btrie.SolveConflict` | src/btrie.c:194-214 | after a mismatch there is a node for the key, or the trie is unchanged |
| `BtrieModel.Btrie.NodeFor` | src/btrie.c:216-242 | there is a node for exactly this key, new nodes hold no elements, and on failure nothing has changed |
| `BtrieModel.Btrie.Add` | src/btrie.c:254-263 | the contents gain exactly this element under exactly this key, or, without memory, trie and contents are untouched |
| `BtrieModel.Btrie.Remove` | src/btrie.c:265-270 | the contents lose exactly this element, and the trie stays canonical |
| `BtrieModel.Btrie.GetKey` | src/btrie.c:272-286 | the key put together from the words of the nodes is the key the element was added under; bits behind it are zero up to the word's end and untouched after |
| `BtrieAvailable.NextAvailable` | src/btrie.c:507-597 | the gotos reach the next free prefix of the specification's list, or its end |
| `BtrieAvailable.LongestMatchAvailable` | src/btrie.c:607-633 | the start of the walk is clear of stored keys, or the container is covered |
| `BtrieAvailable.FirstAvailable` | src/btrie.c:635-664 | the iteration lists exactly the free prefixes that do not lie before the first key; the one exception is the empty trie with a direction |
| `BtrieAvailable.HalvesOfEmpty` | src/btrie.c:644-663 | in the exceptional case the two halves are listed |
| `BtrieAvailable.AfterAvailable` | src/btrie.c:599-603 | each step visits the next of the remaining list and leaves the rest |
| `BtrieAvailable.ForEachAvailable` | src/btrie.h:200-202 | the visited prefixes are the maximal free prefixes of the container, all of them, in order |
| `BtrieIterators.ForEachDown` | src/btrie.c:432-439 | visits exactly the elements whose key extends the given one, each once |
| `BtrieIterators.ForEachUp` | src/btrie.c:322-325 | visits exactly the elements whose key is a start of the given one, each once |
| `BtrieIterators.ForEachUpdown` | src/btrie.c:483-486 | visits exactly the elements whose key is comparable with the given one, each once, shorter keys above it first |
| `BtrieIterators.NextDown` | src/btrie.c:327-365 | one step continues the preorder of the subtree |
| `BtrieIterators.NextUp` | src/btrie.c:305-320 | one step continues the list of elements towards the root |
| `BtrieIterators.NextUpdown` | src/btrie.c:441-481 | one step continues the way to the key and then the subtree below it |
| `Tlvs.TlvCmpZero` | src/tlv.c:201-218 | the comparison gives zero exactly for equal TLVs |
| `Tlvs.TlvCmpAntisymmetric` | src/tlv.c:201-218 | swapping the arguments swaps the sign |
| `Tlvs.TlvCmpTransitive` | src/tlv.c:201-218 | the comparison is transitive, strictly if one step is strict |
| `Tlvs.TlvCmpOrder` | src/tlv.c:201-218 | in the fields: the order is by type, then by length, then by the first byte of the payload that differs |
| `TlvDiff.OnlyInIsDifference` | src/dncp_notify.c:95-194 | on sorted containers the merge computes the multiset difference |
| `TlvDiff.DiffIsExact` | src/dncp_notify.c:95-194 | who holds the old container, and perhaps more, holds the new one in its place after the callbacks, and no callback removes what is not held |
| `TlvDiff.NothingTwice` | src/dncp_notify.c:104-107 | nothing is both removed and added |
| `TlvDiff.RemovePass` | src/dncp_notify.c:111-149 | the two-cursor loop finds what is only in the old container |
| `TlvDiff.AddPass` | src/dncp_notify.c:154-192 | the two-cursor loop finds what is only in the new container |
| `DncpOwnTlvs.OwnTlvs.Add` | src/dncp.c:354-368 | the own TLVs gain this one, stay in order and without repetition |
| `DncpOwnTlvs.OwnTlvs.Remove` | src/dncp.c:370-375 | the own TLVs lose this one and stay in order |
| `DncpOwnTlvs.OwnTlvs.RemoveByType` | src/dncp.c:377-391 | exactly the TLVs of the type go, and their number is returned |
| `DncpIndex.Indexes.SetContainer` | src/dncp.c:96-98 | the new data is there, the node's index is marked stale, and the others stay |
| `DncpIndex.Indexes.AddTlvIndex` | src/dncp.c:595-637 | the type has a number of its own afterwards, and no index is trusted that lacks it |
| `DncpIndex.Indexes.RecalculateIndex` | src/dncp.c:662-710 | the index gives, for every numbered type, the span of its TLVs, in both halves |
| `DncpIndex.Indexes.GetTlvWithType` | src/dncp.c:754-771 | a lookup answers from an index that fits the container, whatever was stale before |
| `DncpIndex.Indexes.ForEachTlvOfType` | src/dncp.h:382-385 | iterating through the index visits exactly the positions that scanning the container would, in order |
| `DncpGraph.FillIsExact` | src/dncp_timeout.c:101-132 | a finished recursive fill has marked exactly the nodes connected by a path of mutual links through unexpired nodes |
| `DncpGraph.AscendingIs` | src/dncp.c:566-583 | the live nodes are listed once each, in the order of identifiers |
| `DncpGraph.ConnectedSpreads` | src/dncp_timeout.c:101-132 | the connected nodes are closed under mirrored peer TLVs between unexpired nodes, and each is reached by one |
| `DncpGraph.NetworkStateAt` | src/dncp.c:566-583 | the hashed state holds, for each live node at its place in the order, its update number and the hash of its data |
| `DncpGraph.EqualStates` | src/dncp.c:566-583 | two states are equal only if they are as long and agree, place by place, on numbers and data hashes |
| `DncpModel.Dncp.constructor` | src/dncp.c:220-242 | a new instance is a network of itself alone, and satisfies the invariant |
| `DncpModel.Dncp.NotifyTlvs` | src/dncp_notify.c:95-194 | every subscriber hears the exact difference, and so holds the new TLVs in place of the old |
| `DncpModel.Dncp.NodeSet` | src/dncp.c:39-107 | node data changes as specified unless the update is spurious; hashes that are called clean stay right, and subscribers stay accounted for |
| `DncpModel.Dncp.DropNode` | src/dncp.c:120-126 | subscribers lose what they held of the node, except that the TLVs of a forgotten one are left over |
| `DncpModel.Dncp.CreateNode` | src/dncp.c:210-217 | an empty unreachable node appears, and nothing subscribers hold changes |
| `DncpModel.Dncp.StoreReceived` | src/dncp_proto.c:527-534 | received data is stored with its hash, which is the right one |
| `DncpModel.Dncp.NodeSetReachable` | src/dncp_timeout.c:80-99 | when reachability changes, subscribers get or lose exactly the node's valid TLVs and the network hash is stale |
| `DncpModel.Dncp.FindNeighBidir` | src/dncp_i.h:340-363 | a peer is found if and only if the other node is known and lists exactly the mirrored peer: this node, with the two endpoints swapped |
| `DncpModel.Dncp.PruneRec` | src/dncp_timeout.c:101-132 | the recursion marks what can be reached over unmarked nodes, and tells subscribers about each |
| `DncpModel.Dncp.GraceNodes` | src/dncp_timeout.c:153-167 | unreached nodes within the grace interval stay, are no longer reachable, and subscribers know |
| `DncpModel.Dncp.Prune` | src/dncp_timeout.c:134-171 | reachable nodes are exactly the connected ones; in the fields: none is expired, each but the own one has a peer TLV mirrored, endpoints included, by one of a reachable node, and whatever a reachable node mirrors that way is reachable if unexpired; they and only they are stamped; the database loses exactly those past grace, the network hash is right or stale, and subscribers are right exactly if no forgotten node goes |
| `DncpModel.Dncp.CleanShows` | src/dncp_notify.c:33-53 | as long as nothing was forgotten or unannounced, every subscriber holds exactly the valid TLVs of the reachable nodes |
| `DncpModel.Dncp.CleanHolds` | src/dncp_notify.c:33-53 | in the fields: a subscriber holds of a node the TLVs of its container if the node is reachable and its data valid, and nothing otherwise |
| `DncpModel.Dncp.CalculateNetworkHash` | src/dncp.c:556-593 | the hash is that of the update numbers and data hashes of the reachable nodes in order, and unchanged data is not hashed again wrongly |
| `DncpModel.Dncp.SelfFlush` | src/dncp.c:509-533 | a flush publishes the newer of the two blobs, or the older, or the old data, under the next 32-bit number, and happens exactly if there is something new or republishing was asked for |
| `DncpModel.Dncp.SetOwnNodeId` | src/dncp.c:244-265 | the own node is replaced, with the exact condition for subscribers to be right afterwards |
| `DncpModel.Dncp.Subscribe` | src/dncp_notify.c:33-53 | a new subscriber holds exactly the valid TLVs of the reachable nodes at once |
| `DncpModel.Dncp.Unsubscribe` | src/dncp_notify.c:58-78 | a subscriber that leaves has given everything back but what was left over |
| `DncpAgreement.SameComponent` | src/dncp_timeout.c:101-132 | two nodes of one component, with the same unexpired data, see the same component |
| `DncpAgreement.SameState` | src/dncp.c:566-583 | the network state depends on numbers and data of the live nodes only |
| `DncpAgreement.PrunedAlike` | src/dncp_timeout.c:134-171 | two prunes over the same data leave the same reachable nodes and the same network state |
| `DncpAgreement.Agree` | src/dncp.c:556-593 | two connected instances with the same unexpired data have equal network hashes once both have pruned and recomputed, whatever their subscribers, grace intervals and clocks |
| `DncpProto.NewerInWindow` | src/dncp_util.h:52-53 | within half the number space the serial comparison is the plain order of distances |
| `DncpProto.NewestIsUnique` | src/dncp_util.h:52-53 | among offers in one window there is one newest |
| `DncpProto.HandleOther` | src/dncp_proto.c:467-550 | data about another node is stored exactly if it is interesting, accepted here and intact; it is requested exactly if interesting and absent |
| `DncpProto.Collide` | src/dncp_proto.c:509-521 | newer data under the own identifier moves the own number 999 past it, or, from the second time on, gives a new identifier in place of the old one if one can be drawn; no other node changes |
| `DncpProto.CollideAndFlush` | src/dncp_proto.c:509-521 | unless the identifier changes, the next flush publishes a number serially newer than the received one |
| `DncpProto.HandleNodeState` | src/dncp_proto.c:467-550 | a node state about another node is stored, with number, data, hash, and the times that its age gives, if and only if it is news (unknown node, number up to 2^31 ahead, or the same with another hash), accepted here and intact; otherwise nothing but an empty entry appears; it is requested if and only if it is news without data that is taken; under the own identifier it is a collision, which changes number or identifier, or leaves all data alone |
| `DncpProto.InterestingIsNews` | src/dncp_proto.c:479-484 | the test of the code is the one over the fields: unknown, 0 < difference <= 2^31 modulo 2^32, or same number and other hash |
| `DncpProto.ReflectsStep` | src/dncp_proto.c:479-534 | whatever a message leaves behind, the stored data is the newest of all offers so far |
| `DncpProto.HandleAll` | src/dncp_proto.c:467-550 | after any series of messages the stored data of each node is the serially newest offered |
| `DncpProto.HandleAllTwice` | src/dncp_proto.c:467-550 | two instances that get the same messages, in any order and any number of times, store the same |
| `DncpPublish.Publisher.Produce` | src/dncp.c:472-507 | a blob comes out exactly if the TLVs were changed and are not those of the container, and the change is settled either way |
| `DncpPublish.Publisher.Flush` | src/dncp.c:509-533 | whatever subscribers change on hearing of it, afterwards the container is what the own TLVs say, exactly unless they take back what was to be published |
| `DncpPublish.Publisher.ShowsOwn` | src/dncp.c:472-533 | with no change pending, a reader of the own container sees the own TLVs, sorted as the merge requires |
| `DncpPublish.Publisher.AddTlv` | src/dncp.c:354-368 | adding a TLV keeps that correspondence |
| `DncpPublish.Publisher.RemoveTlv` | src/dncp.c:370-375 | so does removing one |
| `DncpPublish.Publisher.RemoveTlvsByType` | src/dncp.c:377-391 | and removing all of a type, also if there is none |
| `DncpPublish.Publisher.TakeIdentifier` | src/dncp.c:244-265 | a new identifier marks the TLVs as changed, so that the new node gets them |
| `DncpPublish.PublishesStale` | src/dncp.c:509-533 | a TLV that is taken back in time is published all the same, and nothing is pending |
| `DncpRuns.ForgottenRun` | src/dncp.c:48-56 | from a new instance: a subscriber keeps a TLV of the one node that is gone |
| `DncpRuns.UnannouncedRun` | src/dncp.c:244-265 | from a new instance: a subscriber misses a TLV of the own node |
| `PaLdp.DoubledDelay` | src/pa_core.c:187-209 | the delay handed to the timer is twice the flooding delay exactly below 2^30, and too short from there on |
| `PaLdp.UnassignedOk` | src/pa_core.c:155-176 | unassigning keeps flags and timers sane, and its callbacks take back applied and published before assigned |
| `PaLdp.FiredOk` | src/pa_core.c:438-448 | an apply timer that is due has waited twice the flooding delay in force since the assignment |
| `PaLdp.RefloatedOk` | src/pa_core.c:672-689 | a new flooding delay moves pending apply timers so that they are neither early nor late for it |
| `PaLdp.DroppedIsArmed` | src/pa_core.c:656-670 | deleting a rule leaves a pair without the prospect of being applied exactly if it was published by the rule and neither applied nor waiting |
| `PaOutcome.OutcomeIs` | src/pa_core.c:348-435 | the routine leaves its pair publishing what the rule chose, with its rule and priorities; or on the best assignment's prefix without publishing it; or adopting, with rule, priorities and timer, or as it was if it did so already; or as it was if published or adopting; or without a prefix, backing off, scheduled or neither; a new prefix has its apply timer set, a kept one keeps its own |
| `PaOutcome.OutcomeIsSteady` | src/pa_core.c:265-435 | whatever is found and answered, an armed pair stays armed and does not start to wait |
| `PaOutcome.SteadyStaysArmed` | src/pa_core.c:58-209 | a step that is steady for each pair leaves all pairs on their way to being applied |
| `PaLdp.LeftUnapplied` | src/pa_core.c:656-670 | such a pair, published again by another rule, has no timer and will not be applied |
| `PaLdp.StaysArmed` | src/pa_core.c:58-209 | all other transitions keep a prefix that is not applied yet on its way |
| `PaCoreModel.PaCore.constructor` | src/pa_core.c:705-720 | an empty core satisfies the invariant |
| `PaCoreModel.PaCore.Apply` | src/pa_core.c:58-76 | a ripe pair is applied, or waits for its parent, and users hear of it once |
| `PaCoreModel.PaCore.PublishPair` | src/pa_core.c:113-132 | publishing ends an adoption and is reported once |
| `PaCoreModel.PaCore.AdoptPair` | src/pa_core.c:134-153 | adopting sets the adoption timer and nothing else that users see |
| `PaCoreModel.PaCore.Unassign` | src/pa_core.c:155-185 | the pair leaves the trie, callbacks nest, and exactly the other unassigned pairs of the delegated prefix are scheduled |
| `PaCoreModel.PaCore.Assign` | src/pa_core.c:187-209 | the pair enters the trie under its prefix and its apply timer starts |
| `PaCoreModel.PaCore.FindBest` | src/pa_core.c:247-259 | the found advertisement is on the link, overlaps the delegated prefix, and none has a higher priority, or the same and a higher node identifier; none is found only if there is none |
| `PaCoreModel.PaCore.GlobalValid` | src/pa_core.c:211-222 | true exactly if no overlapping advertisement takes precedence and no other overlapping pair is taken for one that does; without such pairs, exactly if no advertisement does |
| `PaCoreModel.PaCore.CheckAssignment` | src/pa_core.c:265-282 | the prefix is kept exactly if it equals the best assignment's, or, without one, is found valid; an adoption ends if there is a best assignment; other pairs are only scheduled |
| `PaCoreModel.PaCore.SortRules` | src/pa_core.c:293-314 | the rules to ask, all of them, by falling priority, those of one priority in the order they were added |
| `PaCoreModel.PaCore.PickRule` | src/pa_core.c:316-341 | the chosen answer fits the pair, and no rule could have done better if BACKOFF answers carry their priority |
| `PaCoreModel.PaCore.ClearConflicts` | src/pa_core.c:382-389 | no other pair's prefix overlaps afterwards, and the pair itself is only scheduled |
| `PaCoreModel.PaCore.ActPublish` | src/pa_core.c:378-408 | the pair publishes exactly the chosen prefix for the rule, keeping its timer if it had it already; exactly the pairs in the way lose theirs |
| `PaCoreModel.PaCore.Act` | src/pa_core.c:348-412 | the pair becomes what the answer says, exactly the pairs in the way of a published prefix are unassigned, the others only scheduled, and trie, log and timers still agree |
| `PaCoreModel.PaCore.Finish` | src/pa_core.c:414-435 | the pair takes the best assignment's prefix, or keeps one it publishes or adopts, or gives up its own; the others are only scheduled |
| `PaCoreModel.PaCore.Routine` | src/pa_core.c:227-436 | the best assignment and the rule's answer are the best ones, the pair is what `Outcome` makes of them and ends as `Ends` says, others lose their prefix exactly if it overlaps a published one, every assigned pair is backed afterwards, and the pair heeds the advertisements on its link if and only if it was not overruled |
| `PaCoreModel.PaCore.FireRoutine` | src/pa_core.c:450-454 | the same for the scheduled routine, which applies nothing, makes nothing wait and leaves armed pairs armed; pairs without prefix look again when another pair of their delegated prefix loses its own, and other pairs that heeded advertisements still do |
| `PaCoreModel.PaCore.FireBackoff` | src/pa_core.c:438-448 | an adoption that ends is published with prefix, rule and priorities as they were, to be applied after twice the flooding delay, and no other pair changes; an assigned pair is applied or waits for its parent; else the routine runs, with all that it promises; armed pairs stay armed |
| `PaCoreModel.PaCore.ApplyWaiting` | src/pa_core.c:827-830 | a pair that waited for its parent is applied |
| `PaCoreModel.PaCore.AdvpAdd` | src/pa_core.c:622-634 | the advertisement is in the trie; in the fields: exactly the pairs whose delegated prefix overlaps it are scheduled and nothing else about any pair changes; so pairs without prefix that heeded the advertisements on their link still do |
| `PaCoreModel.PaCore.AdvpUpdate` | src/pa_core.c:615-620 | the same for one of which anything but the prefix changes; assigned pairs stay backed |
| `PaCoreModel.PaCore.AdvpDel` | src/pa_core.c:636-642 | the same for one that goes |
| `PaCoreModel.PaCore.RuleAdd` | src/pa_core.c:644-654 | every pair looks again |
| `PaCoreModel.PaCore.RuleDel` | src/pa_core.c:656-670 | no pair refers to the rule, every pair looks again, and all pairs stay on their way to being applied exactly if none loses its timer |
| `PaCoreModel.PaCore.SetFloodingDelay` | src/pa_core.c:672-689 | timers move as coded for any delay, pairs stay armed, and the timing invariant holds for the new delay if it is below 2^30 ms and no timer is overdue by more |
| `PaCoreModel.PaCore.SetNodeId` | src/pa_core.c:691-703 | a new identifier makes every pair look again |
| `PaCoreModel.PaCore.DpAdd` | src/pa_core.c:512-535 | exactly the pairs with links that may take the prefix are created; there is still a pair for a link and a delegated prefix if and only if the link has no parent, the prefix comes from no core above, or from that parent |
| `PaCoreModel.PaCore.DpDel` | src/pa_core.c:493-510 | its pairs are unassigned first and then gone; others are at most scheduled, and the pairs without prefix that share a delegated prefix with one that goes are |
| `PaCoreModel.PaCore.LinkAdd` | src/pa_core.c:568-588 | the same for a new link |
| `PaCoreModel.PaCore.LinkDel` | src/pa_core.c:548-566 | its pairs are unassigned first and then gone; others are at most scheduled, and the pairs without prefix that share a delegated prefix with one that goes are |
| `PaState.UnassignIs` | src/pa_core.c:155-185 | in the fields: an unassigned pair has no flag and no timer left, exactly the other pairs of its delegated prefix without prefix are scheduled, and no other pair changes |
| `PaState.StillHeeded` | src/pa_core.c:601-613 | whatever happens to one advertisement, pairs that neither have a prefix nor are scheduled still have no advertisement on their link that overlaps their delegated prefix |
| `PaCoreModel.OutcomeHeeds` | src/pa_core.c:265-435 | after the routine a pair has a prefix, is scheduled, or has no such advertisement, unless and only unless it was published over one on its link and then backs off, or loses its prefix elsewhere and no rule answers, with the routine not scheduled anyway |
| `PaCoreModel.RoutineHeeds` | src/pa_core.c:178-184 | a run of the routine keeps other pairs heeding, and every pair without prefix looks again when another of its delegated prefix loses its own |
| `PaCoreModel.WhoYields` | src/pa_core.c:35-38 | of two nodes that publish overlapping prefixes the one with the lower priority yields, and both do if and only if the priorities are equal |
| `PaRuns.LosesItsTimer` | src/pa_core.c:656-670 | from an empty core: a prefix is published, and nothing is pending that would apply it |
| `PaRuns.PairsOverlap` | src/pa_core.c:211-222 | from an empty core: two pairs of one delegated prefix overlap, no advertisement takes precedence, and the check of one depends on how the other is read |
| `PaRuns.LeftWithout` | src/pa_core.c:265-277 | from an empty core: a pair has no prefix and nothing pending, although an advertisement on its link overlaps its delegated prefix |
| `PaTrace.HeardIsLast` | src/pa_core.c:42-49 | what the automaton has heard of a pair is what the last callback of each kind said |
| `PaTrace.CallbacksNested` | src/pa_core.c:58-209 | in any log of the core, published and applied are reported only while assigned, taken back before unassigned, and every callback reports a change |
| `PaHierarchy.Hierarchy.constructor` | src/pa_core.c:844-864 | attaching gives the child one delegated prefix for each pair the parent has assigned or applied |
| `PaHierarchy.Hierarchy.HaDpAdd` | src/pa_core.c:784-805 | the child gets the delegated prefix for a pair it had none for |
| `PaHierarchy.Hierarchy.HaDpDel` | src/pa_core.c:773-782 | the child loses the delegated prefix of a pair, and all below it |
| `PaHierarchy.Hierarchy.HaApplied` | src/pa_core.c:820-831 | the pairs below the applied pair that wait are applied, and nothing else about any pair changes |
| `PaHierarchy.Hierarchy.Hear` | src/pa_core.c:807-842 | any callback of the parent keeps the child in step with what it has heard |
| `PaHierarchy.Hierarchy.Deliver` | src/pa_core.c:807-842 | after the callbacks of a step, the child mirrors the parent |
| `PaHierarchy.Hierarchy.EndOfStep` | src/pa_core.c:762-842 | applied pairs of the child sit below applied pairs of the parent, pairs wait only below assigned pairs that are not applied, and delegated prefixes correspond one to one, with the right prefixes |
| `PaHierarchy.Hierarchy.ParentRoutine` | src/pa_core.c:450-454 | the parent's routine does what it does alone, and the correspondence survives it |
| `PaHierarchy.Hierarchy.ParentBackoff` | src/pa_core.c:438-448 | the same for a timer of the parent |
| `PaHierarchy.Hierarchy.ParentDpDel` | src/pa_core.c:493-510 | the same for the loss of a delegated prefix of the parent |
| `PaHierarchy.Hierarchy.ParentLinkDel` | src/pa_core.c:548-566 | the same for the loss of a link of the parent |
| `PaHierarchy.Hierarchy.ParentRuleDel` | src/pa_core.c:656-670 | the same for the loss of a rule of the parent |
| `PaHierarchy.Hierarchy.ParentTick` | src/pa_core.c:50-53 | it survives the passing of time for the parent |
| `PaHierarchy.Hierarchy.ParentAdvpAdd` | src/pa_core.c:622-634 | the same for a new advertisement at the parent |
| `PaHierarchy.Hierarchy.ParentAdvpUpdate` | src/pa_core.c:615-620 | the same for a changed advertisement at the parent |
| `PaHierarchy.Hierarchy.ParentAdvpDel` | src/pa_core.c:636-642 | the same for a lost advertisement at the parent |
| `PaHierarchy.Hierarchy.ParentRuleAdd` | src/pa_core.c:644-654 | the same for a new rule of the parent |
| `PaHierarchy.Hierarchy.ParentSetNodeId` | src/pa_core.c:691-703 | the same for a new identifier of the parent |
| `PaHierarchy.Hierarchy.ParentSetFloodingDelay` | src/pa_core.c:672-689 | the same for a new flooding delay of the parent, below 2^30 ms and with no timer overdue by more |
| `PaHierarchy.Hierarchy.ParentDpAdd` | src/pa_core.c:512-535 | the same for a new delegated prefix of the parent, from whatever core |
| `PaHierarchy.Hierarchy.ParentLinkAdd` | src/pa_core.c:568-588 | the same for a new link of the parent |
| `PaHierarchy.Hierarchy.ChildRoutine` | src/pa_core.c:450-454 | the child's routine does what it does alone, applies nothing and makes nothing wait, and the correspondence survives it |
| `PaHierarchy.Hierarchy.ChildBackoff` | src/pa_core.c:58-76 | the same for a timer of the child: an apply timer applies the pair or, if its parent's is not applied, makes it wait; other timers do neither |
| `PaHierarchy.Hierarchy.ChildRuleDel` | src/pa_core.c:656-670 | the same for the loss of a rule of the child |
| `PaHierarchy.Hierarchy.ChildLinkAdd` | src/pa_core.c:568-588 | the same for a new link of the child |
| `PaHierarchy.Hierarchy.ChildLinkDel` | src/pa_core.c:548-566 | the same for the loss of a link of the child |
| `PaHierarchy.Hierarchy.ChildDpAdd` | src/pa_core.c:512-535 | the same for a delegated prefix of the child's own |
| `PaHierarchy.Hierarchy.ChildDpDel` | src/pa_core.c:493-510 | the same for the loss of one of the child's own |
| `PaHierarchy.Hierarchy.ChildTick` | src/pa_core.c:50-53 | it survives the passing of time for the child |
| `PaHierarchy.Hierarchy.ChildAdvpAdd` | src/pa_core.c:622-634 | the same for a new advertisement at the child |
| `PaHierarchy.Hierarchy.ChildAdvpUpdate` | src/pa_core.c:615-620 | the same for a changed advertisement at the child |
| `PaHierarchy.Hierarchy.ChildAdvpDel` | src/pa_core.c:636-642 | the same for a lost advertisement at the child |
| `PaHierarchy.Hierarchy.ChildRuleAdd` | src/pa_core.c:644-654 | the same for a new rule of the child |
| `PaHierarchy.Hierarchy.ChildSetNodeId` | src/pa_core.c:691-703 | the same for a new identifier of the child |
| `PaHierarchy.Hierarchy.ChildSetFloodingDelay` | src/pa_core.c:672-689 | the same for a new flooding delay of the child, below 2^30 ms and with no timer overdue by more |
| `PaHierarchy.Hierarchy.Detach` | src/pa_core.c:866-880 | the child keeps its own delegated prefixes and none of the parent's |
| `Bitops.BByteCpy` | src/bitops.c:15-21 | with masks, exactly the named bits of a byte are replaced |
| `Bitops.BMemCpy` | src/bitops.c:23-54 | exactly the named bits of the buffer are replaced, all others stay |
| `Bitops.BMemCpyShift` | src/bitops.c:56-94 | the same for different offsets in source and destination |
| `Bitops.BMemCmp` | src/bitops.c:97-113 | the sign of the result is the order of the first bits as numbers, zero exactly if they are equal |
| `Bitops.BMemCmpS` | src/bitops.c:115-143 | the same for a window that starts and ends anywhere |
| `PopCount.FirstStep` | src/bitops.c:151 | subtracting the masked half leaves in each 2 bits the number of their ones |
| `PopCount.SecondStep` | src/bitops.c:152 | adding neighbours leaves it in each 4 bits |
| `PopCount.ThirdStep` | src/bitops.c:153 | and in each 8 bits, without a carry |
| `PopCount.Product` | src/bitops.c:154 | the highest 8 bits of the product are the sum of all |
| `PopCount.CountsOnes` | src/bitops.c:145-155 | the result is the number of ones, for every 64-bit word, wrap-around included |
| `HammingDistance.HammingDistance64` | src/bitops.c:157-170 | the number of places where the first bits differ, on hosts of either byte order |
| `Hamming.ClosestIsWithin` | src/bitops.c:172-200 | the chosen value does not exceed the bound |
| `Hamming.ClosestIsBest` | src/bitops.c:172-200 | no value up to the bound is closer to the target |
| `Hamming.HammingMinimize` | src/bitops.c:172-200 | the code writes that value into the window, returns its distance, and changes no other bit |
| `PaCandidates.NthIsOrdered` | src/pa_rules.c:26-36 | numbers below 2^w give prefixes in address order |
| `PaCandidates.NthReachesAll` | src/pa_rules.c:26-36 | up to 32 bits of freedom, every prefix has a number |
| `PaCandidates.RoomIsFreeCount` | src/pa_rules.c:38-52 | the room counted from available prefixes is the number of free prefixes of the length |
| `PaCandidates.SumIsExact` | src/pa_rules.c:71-75 | the 64-bit comparison agrees with exact arithmetic, sign extension included |
| `PaCandidates.CandidateSubset` | src/pa_rules.c:55-81 | the number found is the wanted one or all there is; shortest length and overflow say exactly where the candidates end, the cut off count being the one exception; what is taken whole leaves less than 32 bits open |
| `PaCandidates.CandidatesAreOne` | src/pa_rules.c:55-81 | length, size and the available prefixes determine the shortest length and the overflow |
| `PaCandidates.PickIsIn` | src/pa_rules.c:85-106 | exactly the numbers below the total pick a prefix, which has the length and lies in an available one |
| `PaCandidates.PickIsInjective` | src/pa_rules.c:85-106 | different numbers pick different prefixes |
| `PaCandidates.PickReachesAll` | src/pa_rules.c:85-106 | every prefix in an available one that leaves up to 32 bits open is picked by some number |
| `PaCandidates.CandidatePick` | src/pa_rules.c:85-106 | the two passes over the free space compute the pick, with 32-bit numbers |
| `PaCandidates.PickIsOrdered` | src/pa_rules.c:85-106 | among prefixes in address order the numbering follows the addresses |
| `PaCandidates.GuessIsCandidate` | src/pa_rules.c:318-337 | a prefix that lies in an available one of sufficient length, and before the end of the shortest ones, has a number below the size of the set |
| `PaRules.PrefixCount` | src/pa_rules.c:38-52 | the counts of available prefixes by length, stopping at 65535 |
| `PaRules.PrefixNth` | src/pa_rules.c:26-36 | the copies of bits write the n-th prefix |
| `PaRules.PicksAreAssignable` | src/pa_rules.c:342-353 | every candidate number picks a prefix of the desired length in the pool that overlaps nothing |
| `PaRules.PicksAreDistinct` | src/pa_rules.c:342-353 | and different numbers different ones |
| `PaRules.PicksReachAll` | src/pa_rules.c:342-353 | every assignable prefix is picked if its available prefix is among those gone through and leaves up to 32 bits open |
| `PaRules.Delimit` | src/pa_rules.c:283-290 | the length is asked for with the counts of what is available in the pool, and the candidates are those for it; there are none exactly if no prefix of the length is free or none is wanted |
| `PaRules.LastCandidate` | src/pa_rules.c:303-308 | the first prefix of the shortest length that is not a candidate, if not all are |
| `PaRules.TakenIsCandidate` | src/pa_rules.c:318-337 | a pseudo-random prefix that passes the tests is a candidate, if the count is not cut off and the search does not start in an empty trie with a smaller set |
| `PaRules.GuessBeyondSet` | src/pa_rules.c:302-339 | in an empty trie the highest prefix passes the tests and is no candidate, whenever the set is smaller than the space |
| `PaRules.GuessBeyondCount` | src/pa_rules.c:302-339 | with the count cut off, some available prefix passes the tests and is no candidate |
| `PaRules.TryGuesses` | src/pa_rules.c:302-339 | the first guess that is a candidate and accepted is not passed over; what is taken is an assignable, accepted guess, and a candidate under those conditions |
| `PaRules.CandidateIsTaken` | src/pa_rules.c:310-338 | a pseudo-random prefix that is a candidate passes the tests |
| `PaRules.TryDraws` | src/pa_rules.c:342-353 | the result is the first drawn candidate that is accepted; without result no drawn candidate is |
| `PaRules.RandomMatch` | src/pa_rules.c:255-358 | the rule publishes an assignable accepted prefix of the desired length, a candidate under those conditions: the first accepted guess, or, if no guess is an accepted candidate, the first accepted draw; it waits exactly without backoff, finds no candidate exactly if there is no free prefix of the length or none is wanted, and gives up only if no guess and no draw will do |
| `PaHamming.CompletedIsClosest` | src/pa_rules.c:470-476 | no completion of an available prefix is closer to the target than the one with the target's bits |
| `PaHamming.HammingStep` | src/pa_rules.c:440-478 | the completion found for one available prefix is the closest of those it offers |
| `PaHamming.HammingLoop` | src/pa_rules.c:440-478 | the result is offered by some available prefix, nothing offered by any is closer, and all that earlier ones offer is farther |
| `PaHamming.AllOffered` | src/pa_rules.c:440-478 | without overflow every prefix of the length in an available one is offered |
| `PaHamming.CandidateIsOffered` | src/pa_rules.c:440-478 | every candidate is offered |
| `PaHamming.OfferedIsCandidate` | src/pa_rules.c:440-478 | what a longer available prefix offers, or a shortest one while the overflow lasts, is a candidate |
| `PaHamming.CandidateIsBelow` | src/pa_rules.c:302-339 | a candidate lies in an available prefix that is not too short and, in one of the shortest, before the end of the set |
| `PaRules.HammingMatch` | src/pa_rules.c:389-483 | the published prefix is assignable, has the desired length, is no farther from the pseudo-random one than any candidate, comes from the first available prefix that has one as close, and is a candidate itself without overflow; no candidate is found exactly as in the random rule |
| `PaStoreModel.PaStore.constructor` | src/pa_store.c:395-408 | an empty store satisfies the invariant |
| `PaStoreModel.PaStore.Uncache` | src/pa_store.c:210-221 | an entry leaves both lists and both counters, and an empty private link goes with it |
| `PaStoreModel.PaStore.UncacheLastFromLink` | src/pa_store.c:223-224 | the least recent entry of the link goes |
| `PaStoreModel.PaStore.UncacheLastFromStore` | src/pa_store.c:226-231 | the least recent entry of all goes, from its own link |
| `PaStoreModel.PaStore.Cache` | src/pa_store.c:233-269 | afterwards the entry at the front holds the prefix for the link: a known one that moved there, or a new one; what goes is exactly what the limits of link and store say, and what stays keeps prefix and link; links keep all but their lists, and only private ones go; a save is due unless the entry was the first of its link already |
| `PaStoreModel.PaStore.LinkAdd` | src/pa_store.c:287-304 | a link takes over the most recent entries of a private link of its name, as many as there are or its limit allows |
| `PaStoreModel.PaStore.LinkRemove` | src/pa_store.c:306-329 | entries move to a private link; the invariant holds afterwards exactly if the link had a name or no entries |
| `PaStoreModel.PaStore.Save` | src/pa_store.c:155-167 | every prefix of a named link is written with its link's name, the least recent first, and the lists are as before, exactly if no unnamed link has two entries |
| `PaStoreModel.WalkedIs` | src/pa_store.c:155-167 | the walk has written the lines of what it passed and rotated each named link's list, and it ends early only if an unnamed link has two entries |
| `PaStoreModel.LastFindsLink` | src/pa_store.c:226-231 | the least recent entry ends the list of its own link and no other, which is how its link is found |
| `PaStoreModel.WalkFinds` | src/pa_store.c:155-167 | the next entry of the walk ends its own link's list and no other, or is the second of an unnamed link |
| `HncpLink.ClearBits` | src/hncp_link.c:137-166 | clearing bits one by one keeps exactly the elections the peer does not take |
| `HncpLink.TakenByRank` | src/hncp_link.c:137-166 | the comparison of the code is that order on nodes that have the capability, and takes from the others if the peer has it |
| `HncpLink.ScanPeer` | src/hncp_link.c:97-127 | whether the peer lists us back, its version, and whether two of our links are connected |
| `HncpLink.CalculateLink` | src/hncp_link.c:42-177 | the link is enabled exactly if asked for and not crossed; each bit is set exactly if the node has the capability and no mutual peer outranks it, by the capability, then by all four lexicographically, then by identifier; it is stateless exactly if neither it nor a mutual peer has the hostname capability |
| `HncpLink.RivalsAreOthers` | src/hncp_link.c:86-127 | on a link where all list each other, a node's rivals are exactly the other nodes |
| `HncpLink.NothingCrosses` | src/hncp_link.c:119-126 | on such a link no crossing is seen |
| `HncpLink.ExactlyOneWins` | src/hncp_link.c:137-166 | if some node has the capability, exactly one is outranked by no other |
| `HncpLink.HostnamesOrStateless` | src/hncp_link.c:60-63 | one node assigns hostnames and none is stateless, or all are stateless |
| `HncpLink.ElectAll` | src/hncp_link.c:42-177 | when all nodes of such a link calculate by themselves, a node sets a bit if and only if it has the capability and outranks all others: greatest value, then greatest (m, p, h, l), then greatest identifier; so exactly one sets each bit that somebody can, nobody sets another, and all agree on stateless operation |
| `DnsUtil.L2Escaped` | src/dns_util.h:172-206 | a label is written as its escaped text exactly if there is room |
| `DnsUtil.TextOfLabel` | src/dns_util.h:180-203 | escaped text is printable, and a label is its own text if and only if it is printable and has neither dots nor backslashes |
| `DnsUtil.Ll2Escaped` | src/dns_util.h:215-257 | a label list gives its text and the bytes read exactly if there is room; whatever succeeds was a label list |
| `DnsUtil.Escaped2Ll` | src/dns_util.h:84-155 | a text gives the wire form of the labels it reads as, ended by one empty label, exactly if it is well formed and there is room |
| `DnsUtil.NextToken` | src/dns_util.h:100-132 | a dot, a plain byte, an escaped dot or backslash, or three digits; anything else is refused |
| `DnsUtil.ReadText` | src/dns_util.h:84-155 | the text of any label list reads as the labels without their zero bytes |
| `DnsUtil.ReadsBack` | src/dns_util.h:84-155 | a label list is read back exactly if it has no zero bytes |
| `DnsUtil.RoundTrip` | src/dns_util.h:84-257 | label list to text and back is the identity on lists without zero bytes, with enough room |

## Left out

- TLV parsing, byte order, MD5 and the pseudo-random prefixes: blobs, hashes and draws are parameters.
- Trickle, keep-alives, the network state and request TLVs and the scheduling of the next prune: the model takes each prune and each flush as a step.
- `node_change_cb`, `republish_cb`, `ep_change_cb` and local TLV callbacks: only `tlv_change_cb` decides what a subscriber holds.
- The AVL tree of libubox under the node, TLV and endpoint lists: a map or a sorted sequence stands for it.
- Failing allocations outside `btrie_add`, among them a new own node that cannot be created in `dncp_set_own_node_id`.
- DncpProto.Collide: the callback that draws a new identifier succeeds or leaves the instance alone.
- `btrie_next_available_loop`, `btrie_skip_down` and `btrie_available_space`: they repeat the walks proved here.
- `pa_rule_random_override_match`, the adopt and static rules and `pa_rule_valid_assignment`: rules are any functions that behave as `RulesBehave` says.
- PaCoreModel.PaCore.PickRule: that no rule could do better is proved only for rules whose BACKOFF answers carry a priority.
- The trie inside the prefix assignment core is a set of entries; the trie itself is proved separately, and iterations over the core's lists take their elements in any order.
- What a third core does, above the parent or below the child, and callbacks that reach the child before the parent's step is over: nothing in the parent's step looks at the child.
- PaStoreModel.PaStore.LinkAdd: two attached links of one name are not modelled.
- The file format, tokens and loading of the store, and the freed memory that the removal of an unnamed link looks at.
- Two links of one node that are connected: `HncpLink.CalculateLink` covers them, the election of the whole link does not.
- `hexlify`, logging, the uloop event loop, sockets, DTLS, multicast, the platform and configuration code.
