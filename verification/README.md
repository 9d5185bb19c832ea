# Verification of the Sintr artifact's shared library, lock server and placement

A Dafny 4.11 model of the parts of the repository whose correctness depends on arithmetic, on whole
runs, or on two pieces of code agreeing with each other, with machine-checked proofs about them.
`dafny verify dfyconfig.toml` checks everything. Nothing here executes the original program; every
statement below is about the model.

## What is modelled

**Batched Merkle signatures.** A batch of n messages is signed once, over the root of an m-ary Merkle
tree that lies in one flat buffer (`MerkleIndex`, `BatchedSigs`). Each message gets the root signature,
n, its index and all hashes on its path. A separate piece of code re-derives the index arithmetic in
wrapping unsigned and signed machine integers and climbs back to the root (`BatchVerify`). The hash and
the signing function are arbitrary functions. Main results: the buffers are never exceeded as long as
the remembered height is at least the depth of the tree; every signature the signer produces is
accepted with exactly the signed root; and an accepted signature that carries the batch's own n and an
index i below it belongs to message i or exhibits a hash collision. The n and i of a signature are not
covered by the root signature, so `HeaderBinding` treats arbitrary ones: it says what an accepted
message can then be, and for which headers nothing can be said at all.

**The replicated lock server.** `LockServer` is one replica with its table and its four upcalls.
`SetDifference` is the merge walk of `std::set_difference`, which `Sync` runs on hash sets that are not
sorted. `LockRecovery` relates the table rebuilt by `Sync` to the live table over every execution
order of proposals and finalizations. `LockMerge` relates `Merge` in a view change to the `Sync` every replica performs on the
merged record. `LockClient` and `LockProtocol` model the deciding client, on the fast and the slow path of the
replication client, and the whole system as a step machine with arbitrary delay, loss and reordering. `Quorum` holds the quorum
intersections that make the merged majority result unique.

**The wire.** `Wire` has the little-endian fields, `TcpTransport` the frame writer and the incremental
reader over arbitrary chunkings, `UdpTransport` serialization, fragmentation and reassembly, and
`UdpNetwork` the fragments over a network that drops, duplicates and reorders.

**Scheduling.** `ThreadPool` is the recycling of callback records between dispatching threads, workers
and event loops, as a step machine over all interleavings. `SimTransport` is the simulated transport's
queue, timers and loop; `SimSchedule` has the laws of its runs and `SimTimers` what becomes of each timer.

**Hashing, size texts, placement.** `Lookup3` shows that the three alignment branches of `hashlittle`
compute one function, with known answers that fix it. `MemorySize` has the size printer and reader. `Placement` compares the writer
of the network configuration with the launcher of the server processes.

## Where a promised property does not hold in general

Each of these has a lemma with a concrete failing input and a lemma stating exactly when the property
holds.

- The tree height is remembered per n, not per (n, m). A signature buffer is large enough exactly if
  nothing is remembered for n or the remembered height is at least the depth of the last leaf, which a
  height remembered from a wider tree need not be (`TableRoomIff`, `HeightIgnoresBranching`).
- A signature with another n or i than the batch's can be accepted with the batch's root. The message is
  then still a signed one, or the children's hashes of an inner node, unless a collision is exhibited or
  a signed message is a block of the climb (`AcceptedIsExplained`); a block accepted as a message is
  `ChildBlockAccepted`. The exception is exact: an index that puts the start behind the last leaf of a
  tree of one level, and such a header has an accepted signature for every message
  (`UnboundAcceptsAll`, `IndexBehindLast`).
- `Sync` subtracts unsorted hash sets with an algorithm for sorted ranges. It rebuilds the intended
  table exactly if the two iteration orders agree on the clients they share (`LockServer.Sync`,
  `DifferenceIff`, `UnsortedKeepsReleased`).
- The record a replica keeps means its live table exactly if no holder's unlock is between its proposal
  and its execution, in every run in which no lock is granted to a client whose unlock of the key has been
  executed there and no final result overturns a recorded one (`FollowsIff`, `SyncEqualsReplay`). Each of
  the three can fail: `PendingUnlockDisagrees`, `OverturnedDisagrees`, and `ReacquireDisagrees` or, for a
  client that asks once, `LateLockDisagrees`.
- After a view change the leader's table and the table rebuilt from the merged record differ exactly
  if a lock was granted whose client already unlocked the key (`MergeAgreesWithSync`, `StaleGrant`).
- With 2f+1 replicas, a fast path that takes over what a fast quorum agrees on, and a slow path that needs
  two successful answers of a quorum, no run lets two clients hold a key exactly if f is at most 1 and
  clients ask for a key once (`ExclusiveIff`, `FiveReplicasBreak`, `ReacquiringBreaks`). The stand-alone
  replicated lock server configures five replicas.
- The UDP receiver stops the process exactly when a fragment arrives that is older than the message in
  progress, which plain reordering causes (`StopsIff`, `ReorderedRunStops`).
- The simulated loop's time assertion holds through a run that is carried to its end exactly if no timer
  was set beyond the 64-bit range, provided no timer is cancelled after one was (`RunPassesIff`); with
  cancellations of any kind it fails exactly if the queue runs empty while such a timer is pending
  (`RunFailsIff`, `CancelledWrapPasses`).
- Launcher and configuration agree exactly if the servers divide evenly among the replicas or there are
  no more groups than servers per replica (`AgreeIff`, `Overshoots`).

## Model

| member | source | states |
|---|---|---|
| Bytes.PackUnpack | src/lib/batched_sigs.cc:42-57 | every 32-bit value survives packInt followed by unpackInt |
| Bytes.UnpackPack | src/lib/batched_sigs.cc:42-57 | every four bytes survive unpackInt followed by packInt |
| MerkleIndex.NumNodesIsLastPlusOne | src/lib/batched_sigs.cc:119-139 | the closed-form node count is the last leaf's index plus one, for every n and m |
| MerkleIndex.TreeShape | src/lib/batched_sigs.cc:119-155 | every internal node has at least two children inside the array and lies before them |
| MerkleIndex.ParentShape | src/lib/batched_sigs.cc:182-189 | every node but the root has an internal parent of smaller index and a sibling group of 2 to m nodes that contains it |
| MerkleIndex.DepthWithinHeight | src/lib/batched_sigs.cc:97-109 | no node lies deeper than the number of base-m digits of n |
| MerkleIndex.DigitsExact | src/lib/batched_sigs.cc:101-107 | the counted height h is the one with m^(h-1) <= n < m^h |
| BatchedSigs.HashLeaves | src/lib/batched_sigs.cc:130-137 | every leaf slot ends as the hash of its message |
| BatchedSigs.HashInternal | src/lib/batched_sigs.cc:138-155 | every slot ends as the recursively defined hash of its node; each internal slot is written once, from the last internal node down to the root |
| BatchedSigs.NodeStep | src/lib/batched_sigs.cc:141-155 | hashing a finished group of siblings into the parent's slot finishes the parent and disturbs no later slot |
| BatchedSigs.LoopStep | src/lib/batched_sigs.cc:141-154 | one turn of the loop handles exactly the children of the next internal node |
| BatchedSigs.BuildTree | src/lib/batched_sigs.cc:119-155 | the allocated buffer is filled with the hash of every node |
| BatchedSigs.RootFromTree | src/lib/batched_sigs.cc:158 | slot 0 is the recursively defined Merkle root |
| BatchedSigs.TreeHeights.GetTreeHeight | src/lib/batched_sigs.cc:97-109 | answers what the table remembers for n, otherwise the digit count; over any sequence of calls with one m the answer is the digit count, and the other entries up to n stay |
| BatchedSigs.TreeHeights.constructor | src/lib/batched_sigs.cc:97 | the table starts empty |
| BatchedSigs.HeightIgnoresBranching | src/lib/batched_sigs.cc:97-109 | a run in which the height 1 remembered for m = 9 is given for m = 2, where the tree is 3 deep |
| BatchedSigs.AppendPath | src/lib/batched_sigs.cc:178-194 | appends exactly the hashes of all sibling groups on the way to the root, inside the buffer |
| BatchedSigs.PathLength | src/lib/batched_sigs.cc:185-193 | a path takes one hash for every node of its sibling groups, at most m a level |
| MerkleIndex.FullGroup | src/lib/batched_sigs.cc:185-189 | every group of siblings that contains an inner node has m nodes |
| MerkleIndex.DeepestLast | src/lib/batched_sigs.cc:182 | depth does not decrease with the index, so the last leaf is deepest |
| BatchedSigs.LeafNodesBounds | src/lib/batched_sigs.cc:182-194 | a leaf at depth d carries at least m(d-1)+2 and at most md hashes |
| BatchedSigs.RoomIff | src/lib/batched_sigs.cc:162-197 | a buffer sized from a height holds all signatures if and only if the height is at least the depth of the last leaf |
| BatchedSigs.TableRoomIff | src/lib/batched_sigs.cc:97-109 | the buffer of a call holds all signatures if and only if the table remembers nothing for n or a height of at least that depth |
| BatchedSigs.HeightLeavesRoom | src/lib/batched_sigs.cc:165 | the height computed for this n and m is at least the depth |
| BatchedSigs.OneBranchingIsSafe | src/lib/batched_sigs.cc:97-109 | while all calls use one m, the table always answers with enough |
| BatchedSigs.NewBuffer | src/lib/batched_sigs.cc:162-172 | the buffer holds every signature and starts with root signature and n |
| BatchedSigs.CutSignature | src/lib/batched_sigs.cc:174-197 | the copy is the shared head, the index and the leaf's path, and the head survives for the next message |
| BatchedSigs.FlattenSignatures | src/lib/batched_sigs.cc:174-198 | one signature a message, each with its own index and path, from one reused buffer |
| BatchedSigs.GenerateBatchedSignatures | src/lib/batched_sigs.cc:111-202 | with a height of at least the depth, all copies stay inside the buffers and the i-th result is the root signature, n, i and the path of leaf i |
| BatchVerify.ComputeBatchedSignatureHash | src/lib/batched_sigs.h:53-105 | the loop returns what the climb along the route says, for every byte string, with every read bounds-checked and every mismatch refused |
| BatchVerify.RoutesAgree | src/lib/batched_sigs.h:79-90 | with the verifier's own machine arithmetic the climb follows the signer's route |
| BatchVerify.IndicesAgree | src/lib/batched_sigs.h:79-81 | the wrapping expressions for the start node and the last leaf give the signer's nodes |
| BatchVerify.HonestClimb | src/lib/batched_sigs.h:81-99 | climbing over the signer's path bytes reaches the root |
| BatchVerify.Completeness | src/lib/batched_sigs.h:53-105 | every signature handed out is accepted for its message and yields exactly the signed root and its signature |
| BatchVerify.BindingClimb | src/lib/batched_sigs.h:81-99 | reaching the root means the node's hash and all path bytes are the signer's, or two different strings hashed at one level collide |
| BatchVerify.Binding | src/lib/batched_sigs.h:53-105 | acceptance with the batch's root, n and index i means the message is the i-th one signed and the path is the signer's, or an explicit collision is given |
| BatchVerify.WrongMessageRejected | src/lib/batched_sigs.h:91-96 | a genuine signature with any message of another hash is refused by a comparison, never by a read past its end |
| BatchVerify.CutSignatureOutOfRange | src/lib/batched_sigs.h:63-99 | every proper prefix of a genuine signature, with its own message, makes the verifier read past the end |
| BatchVerify.EmptyMessageOutOfRange | src/lib/batched_sigs.h:73 | an empty message has no first byte to read, whatever the signature |
| HeaderBinding.Descend | src/lib/batched_sigs.h:81-99 | a climb from inside the tree to the batch's root starts from some node's hash, unless a block of it collides with a string of the signer or is a signed message |
| HeaderBinding.DescendOutside | src/lib/batched_sigs.h:81-99 | the same for a climb that starts behind the last leaf, except in a tree of one level |
| HeaderBinding.AcceptedIsExplained | src/lib/batched_sigs.h:53-105 | for every n and i a signature may carry, outside that exception: acceptance with the batch's root means a signed message, an inner node's child block, an explicit collision, or a signed message among the blocks hashed |
| HeaderBinding.ChildBlockAccepted | src/lib/batched_sigs.h:65-99 | in a batch of four with m = 2 the hashes of the first two leaves are accepted as a message under n = 2 |
| HeaderBinding.SignedBlockAccepted | src/lib/batched_sigs.h:65-99 | a signed message made of two digests is a block under n = 2, and what has the first digest as its hash is accepted |
| HeaderBinding.UnboundAcceptsAll | src/lib/batched_sigs.h:79-96 | in the exception every message has a signature that is accepted with the batch's root |
| HeaderBinding.IndexBehindLast | src/lib/batched_sigs.h:79-90 | the exception occurs: index n of a batch of fewer than m messages |
| LockServer.LockServer.constructor | src/lockserver/server.cc:41 | no key is locked at first |
| LockServer.LockServer.ExecInconsistentUpcall | src/lockserver/server.cc:44-70 | removes exactly the requesting client's own lock of the key, and nothing for a lock request |
| LockServer.LockServer.ExecConsensusUpcall | src/lockserver/server.cc:72-111 | a lock succeeds exactly if the client holds the key afterwards, an unlock exactly if it held it before; failures are -1 and -2; no other client and no other key is affected |
| LockServer.LockServer.Sync | src/lockserver/server.cc:119-167 | the assertion fails exactly if the walk leaves two clients for a key; the outcome is the table the record means if and only if the record leaves one holder a key and the iteration orders agree |
| LockServer.CollectInfo | src/lockserver/server.cc:123-150 | the per-key sets are exactly the clients with a successful lock, and with a successful unlock, in the record |
| LockServer.SyncExact | src/lockserver/server.cc:152-166 | the table of the clients the walk leaves is the intended one if and only if the orders agree on every key |
| LockServer.SyncUnique | src/lockserver/server.cc:119-167 | a record determines at most one table |
| LockServer.LockServer.Merge | src/lockserver/server.cc:169-244 | new table and results are those of granting in order and refusing the rest |
| SetDifference.Difference | src/lockserver/server.cc:155-158 | the loop emits the merge walk of the two iteration orders |
| SetDifference.WalkKeeps | src/lockserver/server.cc:156-158 | from any reachable pair of positions the walk keeps exactly the elements that do not meet an equal key on the other side |
| SetDifference.DifferenceIff | src/lockserver/server.cc:156-158 | on duplicate-free orders the walk is the set difference if and only if every common element stands behind the same greater elements in both |
| SetDifference.SortedDifference | src/lockserver/server.cc:156-158 | on sorted orders the walk is the set difference |
| SetDifference.UnsortedKeepsReleased | src/lockserver/server.cc:155-160 | read in the order 2, 1 the walk keeps the released client 1 beside client 2 |
| SetDifference.OppositeOrdersKeepOne | src/lockserver/server.cc:155-160 | read as 2, 1 and 1, 2 the walk keeps one of two released clients, so two errors can cancel |
| LockRecovery.DeliverFollows | src/replication/ir/replica.cc:115-274 | one message keeps the table on the successful locks whose unlock is not executed if and only if it neither regrants after an executed unlock nor overturns a recorded result |
| LockRecovery.FollowsIff | src/replication/ir/replica.cc:115-274 | for every sequence of messages that holds at every point if and only if no message does either |
| LockRecovery.MeansLiveIff | src/lockserver/server.cc:119-167 | then the record means the live table if and only if no holder's unlock has been proposed, and it never leaves two holders |
| LockRecovery.SyncEqualsReplay | src/lockserver/server.cc:119-167 | after every run without regrant and overturned result, what the record means is the live table if and only if no unlock of a holder is between proposal and execution |
| LockRecovery.NoLateLockFollows | src/lockserver/server.cc:44-111 | if no lock of a client is proposed after its unlock of the key, and final results are those the replica gave, nothing is regranted or overturned, in any interleaving |
| LockRecovery.Rebuild | src/lockserver/server.cc:119-167 | Sync on the record of such a run gives what it means if and only if the iteration orders agree; where no holder's unlock is pending, the live table if and only if they agree, and where they agree, if and only if none is pending |
| LockRecovery.LateLockDisagrees | src/lockserver/server.cc:86-89 | a single lock proposed after its own unlock was executed is held by the table and released by the record |
| LockRecovery.RegrantDisagrees | src/lockserver/server.cc:86-89 | the same after any run that leaves the key free or with that client |
| LockRecovery.PendingUnlockDisagrees | src/replication/ir/replica.cc:137-141 | a proposed unlock is in the record while the table still holds the key |
| LockRecovery.OverturnedDisagrees | src/replication/ir/replica.cc:249-257 | a grant the client decided as refused stays in the table and fails in the record |
| LockRecovery.ReacquireDisagrees | src/lockserver/server.cc:143-158 | lock, executed unlock, lock again: the live table has a holder, the record shows none |
| LockMerge.MergedTable | src/lockserver/server.cc:182-221 | after Merge a key belongs to its earlier holder, or else to the client of the first operation that succeeded on it |
| LockMerge.MergeKeepsLocks | src/lockserver/server.cc:197-215 | Merge alters no lock that is held and grants at most one operation a key |
| LockMerge.MergeResultsOf | src/lockserver/server.cc:182-243 | every operation in d keeps its majority result unless it lost its key, and every operation in u is refused |
| LockMerge.MergeAnswersAll | src/replication/ir/replica.cc:596-605 | Merge answers exactly the operations in d and in u, as many as both have together |
| LockMerge.MergedRecordMeaning | src/replication/ir/replica.cc:607-627 | the merged record locks what R locks and what was granted, and unlocks what R unlocks |
| LockMerge.MergeAgreesWithSync | src/replication/ir/replica.cc:593-627 | the leader's table after Merge is the table rebuilt from the merged record if and only if no granted client has an unlock of the key in R |
| LockMerge.StaleGrant | src/replication/ir/replica.cc:593-627 | a view change after which the leader's table and the rebuilt table differ |
| LockMerge.MergedOneHolder | src/replication/ir/replica.cc:593-627 | the merged record never leaves two holders |
| LockMerge.ViewChange | src/replication/ir/replica.cc:351-402 | leader Sync and Merge, follower Sync: the follower gets the leader's table if and only if its iteration orders agree, where no grant is stale, and if and only if no grant is stale, where they agree |
| LockClient.Decide | src/lockserver/client.cc:142-171 | success exactly if two or more answers counted in the map are successes, in whatever order it is read; the key is that of some answer |
| LockClient.TallyCounts | src/lockserver/client.cc:146-159 | grouping answers by content loses none: the total is the number of successful answers |
| LockProtocol.StepKeepsInv | src/lockserver/server.cc:44-111 | every send, delivery and decision keeps the protocol invariant |
| LockProtocol.ExecutedOnce | src/replication/ir/replica.cc:115-219 | in every run a replica executes each lock and unlock request at most once |
| LockProtocol.DecisionBacked | src/replication/ir/client.cc:258-376 | a lock taken on the fast or the slow path rests on grants of two replicas, or of the only one |
| LockProtocol.MutualExclusion | src/replication/ir/client.cc:258-376 | with one or three replicas and one request a key and client, no run lets two clients hold a key |
| LockProtocol.FiveReplicasBreak | src/lockserver/client.cc:164-168 | with 2f+1 replicas and f at least 2, two clients each hear from a quorum of f+1, find two grants in it and take the key, though each asks once |
| LockProtocol.ReacquiringBreaks | src/lockserver/client.cc:99-119 | with any number of replicas, a client asking again while its unlock is under way loses the new lock to the late unlock, and another client takes the key too |
| LockProtocol.ExclusiveIff | src/replication/ir/client.cc:258-376 | no run breaks mutual exclusion if and only if f is at most 1 and every client asks once |
| Quorum.Overlap | src/lib/configuration.cc:278-288 | two subsets of a group share at least as many members as their sizes exceed the group |
| Quorum.FastQuorumsMeet | src/lib/configuration.cc:278-288 | of 2f+1 replicas a fast quorum meets any quorum in ceil(f/2)+1, and two fast quorums and a quorum share a replica |
| Quorum.MajorityUnique | src/replication/ir/replica.cc:566-582 | among f+1 answers or fewer at most one result occurs ceil(f/2)+1 times |
| Quorum.FastResultSurvives | src/replication/ir/replica.cc:566-588 | a result a fast quorum agreed on is the one majority result among any f+1 replicas |
| Quorum.SizesAreLeast | src/lib/configuration.cc:278-288 | with one replica fewer some fast quorum and quorum share less than the majority count, and some quorum of one fewer misses a quorum |
| Wire.ValLe | src/lib/tcptransport.cc:464-480 | an integer that fits its field is read back as stored |
| Wire.LeAt | src/lib/tcptransport.cc:464-480 | byte k of a stored integer has the weight 256^k, so fields are little-endian |
| Wire.PackIsReversed | src/lib/batched_sigs.cc:42-57 | the integers in batched signatures have the opposite byte order |
| TcpTransport.WriteFrame | src/lib/tcptransport.cc:448-489 | writes exactly the frame, and stops on its assertion exactly if the payload is empty |
| TcpTransport.Connection.constructor | src/lib/tcptransport.cc:811-817 | a connection starts with nothing received |
| TcpTransport.Connection.Readable | src/lib/tcptransport.cc:811-887 | the callback delivers and keeps what the drained stream says |
| TcpTransport.ParseStable | src/lib/tcptransport.cc:819-863 | once a turn is decided, later bytes do not change it |
| TcpTransport.ChunkingIrrelevant | src/lib/tcptransport.cc:817-887 | for every byte stream and every way of cutting it the reader ends as if all bytes had come at once |
| TcpTransport.ParseFrame | src/lib/tcptransport.cc:819-863 | a whole frame in front is taken as the message that was framed, whatever follows |
| TcpTransport.ParsePartial | src/lib/tcptransport.cc:819-839 | a proper prefix of a frame waits |
| TcpTransport.Delivery | src/lib/tcptransport.cc:811-887 | however the frames are cut and however much has come, exactly the messages with complete frames are delivered, in order, and a proper prefix of the next frame is kept |
| TcpTransport.EmptyPayloadStops | src/lib/tcptransport.cc:857-859 | a frame with an empty payload would stop the reader |
| TcpTransport.FrameBytes | src/lib/tcptransport.cc:448-489 | a frame starts with the bytes of the magic number and is 28 bytes longer than type and payload; with a payload and below 1073741826 bytes it can be sent |
| TcpTransport.ForeignBytesStop | src/lib/tcptransport.cc:819-833 | another magic number or a length of 1073741826 or more stops the reader as soon as the field has come |
| TcpTransport.BadLengthsStop | src/lib/tcptransport.cc:847-861 | a type or payload length that does not fit the frame stops the reader |
| TcpTransport.StopIsFinal | src/lib/tcptransport.cc:817-887 | a stopped reader delivers nothing more |
| UdpTransport.Serialize | src/lib/udptransport.cc:491-533 | writes exactly the packet, and stops exactly if the payload is empty |
| UdpTransport.CutFragments | src/lib/udptransport.cc:566-597 | emits the fragments of the body in order |
| UdpTransport.Sender.constructor | src/lib/udptransport.cc:572 | no fragmented message has been sent |
| UdpTransport.Sender.Send | src/lib/udptransport.cc:535-605 | one packet if the message fits, otherwise all fragments under a fresh id |
| UdpTransport.DecodeBody | src/lib/udptransport.cc:675-709 | decoding a serialized body gives back type and data |
| UdpTransport.ProcessSmall | src/lib/udptransport.cc:767-770 | an unfragmented packet is decoded to what was sent and leaves the reassembly buffer alone |
| UdpTransport.ProcessFragment | src/lib/udptransport.cc:771-817 | the receiver finds in a fragment what the sender put there, and its length assertion holds |
| UdpTransport.WireBytes | src/lib/udptransport.cc:491-597 | packets and fragments start with the bytes of their magic numbers; a fragment carries 9000 bytes of the body or all that is left |
| UdpTransport.BadMagicIgnored | src/lib/udptransport.cc:767-821 | a packet with neither magic number changes nothing |
| UdpTransport.CutPacketStops | src/lib/udptransport.cc:675-709 | every proper prefix of a packet stops the receiver |
| UdpTransport.CutFragmentStops | src/lib/udptransport.cc:775-786 | every proper prefix of a fragment stops the receiver, whatever the buffer holds |
| UdpTransport.Receiver.constructor | src/lib/udptransport.cc:789 | no buffer is in use |
| UdpTransport.Receiver.ProcessPacket | src/lib/udptransport.cc:753-821 | handles any packet as specified, with every assertion that can fail, and touches no other sender's buffer |
| UdpNetwork.FragmentCount | src/lib/udptransport.cc:569-574 | the number of fragments sent is the announced one |
| UdpNetwork.PacketsAreFragments | src/lib/udptransport.cc:573-597 | what is sent for a large message is exactly its numbered fragments, in order |
| UdpNetwork.PiecesPartition | src/lib/udptransport.cc:573-588 | the pieces put together are the body, none missing and none overlapping |
| UdpNetwork.InOrderDelivery | src/lib/udptransport.cc:789-817 | fragments in sending order, with any others of its own fragments between, early or repeated, from an idle or older buffer, decode once, at the last one, to the message sent |
| UdpNetwork.OtherPieceIgnored | src/lib/udptransport.cc:801-806 | a fragment of the message in progress that does not start where the buffer ends is ignored |
| UdpNetwork.SendersIndependent | src/lib/udptransport.cc:789 | for every interleaving a sender's buffer and messages are those of its own packets alone |
| UdpNetwork.FragmentStep | src/lib/udptransport.cc:789-817 | a genuine fragment stops the receiver exactly if it is older than the message in progress; otherwise the buffer stays a proper prefix and what comes out was sent |
| UdpNetwork.StepKeepsInv | src/lib/udptransport.cc:771-817 | sending, dropping, repeating and reordering keep every buffer a proper prefix of a body its sender sent |
| UdpNetwork.ReassemblySafe | src/lib/udptransport.cc:771-817 | in every run that does not stop, buffers are prefixes and every decoded message was sent by that sender |
| UdpNetwork.LogIsDecoded | src/lib/udptransport.cc:753-821 | in every such run the messages decoded from a sender are those its own packets decode to, in the order in which they arrived |
| UdpNetwork.StopsIff | src/lib/udptransport.cc:794-799 | on a network that only delivers what was sent, the receiver stops if and only if a fragment older than the message in progress arrives |
| UdpNetwork.LateFragmentStops | src/lib/udptransport.cc:794-795 | from any state in which a sender's buffer is unused, two of its fragmented messages in reverse order stop the receiver at the second delivery |
| UdpNetwork.ReorderedRunStops | src/lib/udptransport.cc:794-795 | the run from the start: two large messages sent, the later one's fragment delivered first |
| SimTransport.SimulatedTransport.constructor | src/lib/simtransport.cc:63-69 | the empty state at time zero |
| SimTransport.SimulatedTransport.SetTimer | src/lib/simtransport.cc:254-265 | the timer lands behind all timers due at or before it, under a fresh id |
| SimTransport.SimulatedTransport.CancelTimer | src/lib/simtransport.cc:267-281 | removes exactly the timers with the id and says whether there was one |
| SimTransport.SimulatedTransport.Perform | src/lib/simtransport.cc:119-161 | a send is queued at once or by a timer, or dropped; timer calls change the timers only |
| SimTransport.SimulatedTransport.DeliverFront | src/lib/simtransport.cc:219-224 | the front message is delivered while still queued and then removed |
| SimTransport.SimulatedTransport.FireEarliest | src/lib/simtransport.cc:226-234 | the earliest timer fires at its due time, or the assertion fails and nothing changes |
| SimTransport.SimulatedTransport.Loop | src/lib/simtransport.cc:212-239 | the nested loops perform exactly the step-by-step run |
| SimSchedule.MessagesConserved | src/lib/simtransport.cc:151-159 | what was delivered plus what is still queued is what was queued, in that order, in every run |
| SimSchedule.NoTimerWhileQueued | src/lib/simtransport.cc:218-234 | whenever a timer fires, every message queued before has been delivered |
| SimSchedule.TimeMovesForward | src/lib/simtransport.cc:226-230 | virtual time never decreases and the assertion never fails in any run whose due times fit 64 bits |
| SimSchedule.TimersFireInOrder | src/lib/simtransport.cc:226-265 | timers fire by due time, those due together in the order they were set, each once |
| SimSchedule.GoneForever | src/lib/simtransport.cc:231-281 | a timer that fired or was cancelled never fires again |
| SimTimers.TimersConserved | src/lib/simtransport.cc:226-265 | in every run without cancellations, for every time and callback: what was pending or set for it fired at that time or is pending still |
| SimTimers.FiresAfterDelay | src/lib/simtransport.cc:254-265 | in every run a timer set for ms fires, if at all, exactly ms later and with its own callback |
| SimTimers.DelayedMessageQueued | src/lib/simtransport.cc:143-156 | a message sent with a delay enters the queue at exactly that time and not before |
| SimTimers.CancelAllIsFinal | src/lib/simtransport.cc:283-288 | after all timers are cancelled none fires, whatever is set later |
| SimSchedule.CancelledNeverFires | src/lib/simtransport.cc:267-281 | a cancelled timer does not fire in any later run |
| SimSchedule.OverdueFails | src/lib/simtransport.cc:217-238 | once the first timer lies in the past and none is cancelled, the loop never comes to rest: it delivers what is queued and then fails |
| SimSchedule.RunPassesIff | src/lib/simtransport.cc:212-265 | a run carried until nothing is left to do, or to the failing assertion, passes it throughout if and only if no timer was set beyond the 64-bit range; callbacks cancel all timers never, and single ones only before such a timer |
| SimSchedule.RunFailsIff | src/lib/simtransport.cc:212-288 | every run, whatever its callbacks cancel, fails the assertion if and only if the queue runs empty while a timer set beyond the 64-bit range is pending |
| SimSchedule.CancelledWrapPasses | src/lib/simtransport.cc:254-281 | a wrapped timer cancelled by the same callback leaves the loop at rest |
| SimSchedule.FailsIffWrapped | src/lib/simtransport.cc:229-260 | a timer set on an idle loop makes the next turn fail if and only if its due time wraps |
| ThreadPool.StepKeepsInv | src/lib/threadpool.cc:283-422 | every step of a dispatcher, worker or event loop keeps each record in one place, with its own job, result and event |
| ThreadPool.NothingBlocked | src/lib/threadpool.cc:283-422 | in every reachable state the index bounds hold by themselves, so no step a thread could take is left out |
| ThreadPool.CallbackFinds | src/lib/threadpool.cc:283-290 | an active event leads to the record of a finished job with that job's own callback and result |
| ThreadPool.EventUnused | src/lib/threadpool.cc:404-416 | an event taken from the free list belongs to no record in use |
| ThreadPool.CallbacksNeverCross | src/lib/threadpool.cc:173-422 | in every interleaving a job's callback runs at most once and with its own result, and exactly once when everything drains without a stop, after which every record and every event ever allocated is free |
| ThreadPool.RunKeepsEvents | src/lib/threadpool.cc:403-422 | at every moment an event is free or kept by the one record it points to |
| ThreadPool.OneJobRuns | src/lib/threadpool.cc:283-422 | a run exists in which any one job is dispatched, executed, called back with its result, and its record and event are given back |
| ThreadPool.RecordsNeverShared | src/lib/threadpool.cc:385-422 | free, queued, running, activated, called and returning records are disjoint at every moment |
| Lookup3.WordIsPart | src/lib/lookup3.cc:171-215 | a word read from memory, masked at the end of the key, is the little-endian number of the key's own bytes whatever follows them |
| Lookup3.HashWords | src/lib/lookup3.cc:171-237 | the word branch computes the bytewise hash |
| Lookup3.HashHalves | src/lib/lookup3.cc:239-285 | the half-word branch computes the bytewise hash |
| Lookup3.HashBytes | src/lib/lookup3.cc:286-327 | the byte branch, with its fall-through cases, computes the bytewise hash |
| Lookup3.HashLittle | src/lib/lookup3.cc:161-331 | the hash depends on the key's bytes, its length and the initial value only, not on address, byte order branch or the bytes behind the key |
| Lookup3.NoBytes | src/lib/lookup3.cc:168-215 | the hash of no bytes is 0xdeadbeef plus the initial value modulo 2^32 |
| Lookup3.OneByte | src/lib/lookup3.cc:122-131 | the hash of the byte 0x61 under 0 is 0x58d68708 |
| Lookup3.ThreeBlocks | src/lib/lookup3.cc:87-331 | the hash of the 30 bytes of "Four score and seven years ago" under 0 is 0x17770551 |
| Lookup3.MixWords | src/lib/lookup3.cc:87-95 | mixing numbers is mixing the 32-bit words that hold them |
| MemorySize.FmtSize | src/lib/memory.cc:38-60 | writes the size in the largest unit that measures it exactly, with its terminator inside 22 bytes |
| MemorySize.TextFits | src/lib/memory.cc:54-58 | every 64-bit size fits the advertised buffer |
| MemorySize.LargestUnit | src/lib/memory.cc:38-58 | a suffix is printed if and only if the number is the size in that unit and, short of G, does not divide by 1024; none if and only if the size does not |
| MemorySize.ReadSize1 | src/lib/memory.cc:62-79 | the fall-through shifts multiply by the suffix's unit modulo 2^64 and take the suffix |
| MemorySize.ReadSize | src/lib/memory.cc:81-100 | the loop returns the sum of the '+'-joined sizes modulo 2^64 and where they end |
| MemorySize.ReadDecimal | src/lib/memory.cc:65 | strtoull with base 0 reads back every printed 64-bit number, up to whatever does not continue it |
| MemorySize.SignedRead | src/lib/memory.cc:65 | blanks and a sign may precede a number; one too large counts as the largest, a negative one modulo 2^64 |
| MemorySize.ReadHex | src/lib/memory.cc:65 | after 0x every hexadecimal digit is taken |
| MemorySize.ReadOctal | src/lib/memory.cc:65 | a number that starts with 0 and not with 0x is octal |
| MemorySize.Characters | src/lib/memory.cc:65 | which characters are octal digits, hexadecimal digits and blanks |
| MemorySize.RoundTrip | src/lib/memory.cc:38-100 | reading a formatted size gives the size and takes the whole text |
| MemorySize.JoinedSum | src/lib/memory.cc:38-100 | reading formatted sizes joined by '+' gives their sum and takes the whole text |
| MemorySize.SuffixRead | src/lib/memory.cc:65-79 | a number before a suffix of either case is read in that unit and the letter is taken |
| MemorySize.TrailingPlus | src/lib/memory.cc:89-94 | a plus sign that ends the text is not taken |
| Placement.WriteConfig | experiment-scripts/lib/indicus_codebase.py:861-874 | lists every replica of every group, and fails exactly if servers do not suffice or n is zero |
| Placement.StartServers | experiment-scripts/utils/experiment_util.py:275-291 | collects for every server exactly the processes launched on it, in order |
| Placement.LaunchedIsListed | experiment-scripts/lib/indicus_codebase.py:514-522 | with n times x servers each launched process has the index, server and slot the configuration lists |
| Placement.LauncherIsBijective | experiment-scripts/utils/experiment_util.py:275-287 | the launcher's turns and the listed replicas of a group correspond one to one |
| Placement.StartedExactlyOnce | experiment-scripts/utils/experiment_util.py:275-291 | on every server exactly the listed replicas are started, each once, for every number of groups |
| Placement.AddressesDiffer | experiment-scripts/lib/indicus_codebase.py:863-874 | no two replicas share a host and port, on many hosts or on one, also with servers to spare |
| Placement.WidthExact | experiment-scripts/lib/indicus_codebase.py:861-866 | the servers per replica index are the largest number that n indices can all have |
| Placement.SlotsFilled | experiment-scripts/lib/indicus_codebase.py:863-874 | every slot of every server below n times x is filled by exactly one replica |
| Placement.EveryServerHosts | experiment-scripts/lib/indicus_codebase.py:861-874 | with a group for each of the x servers of an index, every server below n times x hosts a listed replica |
| Placement.AgreeIff | experiment-scripts/utils/experiment_util.py:275-287 | launcher and configuration agree if and only if the servers divide evenly or no server runs two processes |
| Placement.Overshoots | experiment-scripts/utils/experiment_util.py:278-287 | with servers left over, the last replica of group x starts on a server the configuration does not list for it |

## Left out

- BatchedSigs.GenerateBatchedSignatures: batches whose node indices do not fit a 32-bit int are excluded, since the source's index arithmetic then overflows; empty messages are excluded, since reading their first byte throws.
- BatchVerify.ComputeBatchedSignatureHash: a read past the end of the signature is a verdict of its own, because the source's checked access throws for the first byte of a block only.
- LockServer.LockServer.Sync: the iteration orders of the two hash sets are parameters; requests and replies are values, so protobuf parsing is not modelled, and a recorded unlock without a reply has status 0.
- LockServer.LockServer.Merge: d and u are lists in operation order with the request of their first entry.
- LockProtocol.MutualExclusion: covers normal operation in one view; view changes are the subject of LockMerge, and timers, promises and the confirmation round of the slow path are not modelled.
- LockRecovery.Rebuild: a final result is taken to name a lock, which client operation numbers ensure; the one combination left open is that both a holder's unlock is pending and the iteration orders disagree, where the two errors can cancel (OppositeOrdersKeepOne).
- LockMerge.ViewChange: leaves open only the combination of a stale grant and disagreeing iteration orders.
- UdpTransport.Receiver.ProcessPacket: packets shorter than the magic number, which the source reads past, count as stopped; lengths so large that pointer arithmetic would overflow are taken as too large.
- TcpTransport.Connection.Readable: a closed connection and the dispatch to the receiver are not modelled, and size fields so small or large that pointer arithmetic would leave the buffer count as stopped.
- ThreadPool.CallbacksNeverCross: a step system on values, one step for each lock-protected or thread-private stretch; update in place, memory ordering and libevent's own locking are not captured.
- SimTransport.SimulatedTransport.Loop: the callbacks are given as a script of what each one does; filters are represented by the delay or drop they decide on; timer ids are not bounded to int.
- Lookup3.HashLittle: the branches are compared with the mixing macros as parameters; the macros themselves are fixed by known answers, and their mixing quality is not a subject.
- MemorySize.ReadSize: strtoull is given by its C definition for base 0, without locale-specific forms.
- Placement.StartServers: the number n of replicas for each protocol and the texts of the commands are parameters.
- `computeBatchedSignatureHash2` repeats the verifier's loop and would add nothing.
- BLAKE3, the signature schemes and the key manager are arbitrary functions here.
- The views, view-change messages, timers and persistence of the IR replica and client, and all stores, are not modelled.
- Sockets, multicast, ordered-multicast metadata, simulated drop and reorder in the UDP transport, and connection set-up are not modelled.
- Core pinning, thread start-up, the main-thread queue and jobs without callback in the thread pool are not modelled.
- The configuration file parser, latency accounting, logging, plotting and command-line handling would only add easy members.
