# A verified model of mg_raffle's core components

The repository is a C/C++ toolbox with a small RPC server. This project models its data structures and
protocols in Dafny and proves what they promise over all inputs and all runs. `dafny verify dfyconfig.toml`
checks everything.

| files | component |
|---|---|
| `RbShape`, `RbInsert`, `RbDelete`, `RbHeap` | the red-black tree: values and contexts, insertion, deletion, and the linked nodes with parent pointers |
| `RpcStream`, `RpcTheorems`, `RpcMessages`, `RpcServer` | the streaming RPC frame parser: byte-by-byte meaning, stream theorems, several messages on one connection, the server's objects and loops |
| `ConnectionPool` | the blocking connection pool as interleaved critical sections, and the pool object |
| `Arena` | the bump allocator: memory safety and space bounds over whole runs, and the allocator object |
| `HashTable` | the chained hash table: the value-level index, and the linked nodes with in-place resize |
| `HeapSort`, `ReadBuf`, `RingList`, `MinOperations`, `SqlBuilder` | heap sort, the zero-copy read buffer, the intrusive circular list, the greedy optimum, the SQL placeholder builder |

Two techniques recur. A linked structure is described by a ghost value (a tree in a context, chains of
entries, a ring) and every method that writes links is proved to turn the picture of the old state into a
given function of it; what is promised is then proved about that function. A protocol is a state type with
an `Enabled`/`Apply` pair, and its results hold in every state of every run; what such a state records about the
past is proved to agree with the events.

## Where the text departs from its intent

- Red-black insert chooses the uncle by the side of the inserted node (utils/rbtree.h:113), while the
  drawings show the sibling of the parent. Both readings are modelled (`BySide`, `SiblingOfParent`). Order,
  keys, links and root colour hold for both; balance holds for the drawing, and for the text exactly when the
  climb meets no inner case (`InsertBySideExact`).
- Red-black delete dereferences null at core/mg_rbtree.h:332 and 359 and tests the left child twice at 354.
  `AsWritten` keeps that (a null dereference is `None`), `Intended` reads a null child as black and tests both
  children. `RemoveLeafAsWrittenExact` says exactly when the text works.
- Deleting a node with exactly one child leaves that child as its own child (`DeleteSingle`): no tree has such
  links, and a search that must pass there never ends.
- The parser never restores the magic counter, so the magic is read once per connection, although the
  client writes it before every message. Of several messages on one connection all are parsed only if every
  one after the first is the single message whose frame consists of magic bytes alone (`MessagesExact`); below
  1.7 GB everything after the first is swallowed (`MessagesAreSwallowed`). The magic bytes are stored, not
  compared.
- `MReadBuf` never clears the offset set by `BackUp`. For two skips (`SkipsAddExact`), for the bytes handed out
  after a skip (`SkipThenReadBytes`) and for the byte count (`SkipThenReadExact`) it is said exactly, from the
  fragment sizes, when that does not matter.
- Replacing a stored key in the hash table cuts off the rest of the chain: `InsertPresentExact`. `t->hash` is
  read as `_hash`, line 92 as `ptr = find_node(...)`, and line 114 as clearing every slot.
- Heap sort's first loop passes `length` as an inclusive bound (utils/algorithm.h:94), while line 101 passes the
  last index. Both readings are modelled; as written the sort reads past the array for every even length, and
  for odd ones exactly as `SortPastExact` says.
- The assertion at utils/buffer.h:91 holds for no power of two; its evident intent is modelled.
- `insert_list_end` makes an element the head of the list and `insert_list_front` makes it the tail.

## Model

| member | source | states |
|---|---|---|
| `RbShape.BalancedIffEvenPaths` | utils/rbtree.h:104-177 | the balance condition used throughout says exactly that all paths to a null link carry equally many black nodes |
| `RbInsert.InsertKeys` | utils/rbtree.h:78-102 | under either reading: still sorted, exactly the new key added, the tree unchanged on a duplicate |
| `RbInsert.InsertPlace` | utils/rbtree.h:95-177 | the fix-up moves no key: the new key stands between the smaller and the larger ones, all else in order |
| `RbInsert.InsertItems` | utils/rbtree.h:95-177 | under either reading every node keeps its own key, and only the new node is added, with the new key |
| `RbInsert.DescendFinds` | utils/rbtree.h:39-52 | the walk from the root finds a key exactly when the tree holds it |
| `RbInsert.RecoloringClimbs` | utils/rbtree.h:115-127 | a red uncle: after recolouring, the one possible red pair is two levels up and nothing else is wrong |
| `RbInsert.RotationRestores` | utils/rbtree.h:128-174 | outer and inner rotations leave a red-black subtree of the height its place requires |
| `RbInsert.FixUpRestores` | utils/rbtree.h:104-177 | from one possible red pair the loop ends in a red-black tree: always with the sibling as uncle, as written when no inner case is met |
| `RbInsert.InsertKeepsRedBlack` | utils/rbtree.h:62-178 | with the sibling as uncle, inserting any key into any red-black tree gives a red-black tree |
| `RbInsert.InsertBySideExact` | utils/rbtree.h:107-177 | as written, inserting an absent key keeps the tree red-black iff the climb meets no inner case, and then both readings agree |
| `RbInsert.InnerCaseUnbalances` | utils/rbtree.h:113-127 | as written, an inner case leaves the final tree unbalanced, whatever follows |
| `RbInsert.BySideFails` | utils/rbtree.h:113 | as written, inserting 3, 1, 2 into an empty tree ends in a given unbalanced tree |
| `RbInsert.RunsKeepOrder` | utils/rbtree.h:62-178 | after every run of inserts, under either reading: sorted, root black, exactly the inserted keys |
| `RbInsert.RunsKeepRedBlack` | utils/rbtree.h:62-178 | every run of inserts with the sibling as uncle ends in a red-black tree |
| `RbInsert.SearchIsLogarithmic` | utils/rbtree.h:39-52 | in a red-black tree of n keys a search looks at v nodes with 2^v <= (n+1)^2 |
| `RbDelete.SiblingBlackKeeps` | core/mg_rbtree.h:317-322 | rotating a red sibling keeps the deficit of one black node, one level deeper, under a red parent |
| `RbDelete.LoweredKeeps` | core/mg_rbtree.h:325-329 | a sibling with black children turns red: the deficit moves exactly one level up |
| `RbDelete.FarRedKeeps` | core/mg_rbtree.h:332-337 | rotating the red near child up makes the far child red and changes no height |
| `RbDelete.BorrowedRestores` | core/mg_rbtree.h:338-342 | a red far child: one rotation removes the deficit and the whole tree is red-black |
| `RbDelete.FixUpDeleteRestores` | core/mg_rbtree.h:309-373 | from one black short, the loop ends in a red-black tree: always as intended, as written if it meets no defect |
| `RbDelete.FixUpDeleteKeys` | core/mg_rbtree.h:309-373 | no reading of the loop changes the order of the keys |
| `RbDelete.RemoveLeafItems` | core/mg_rbtree.h:309-375 | under either reading the other nodes stay, each with its own key |
| `RbDelete.RedRedStays` | core/mg_rbtree.h:353-357 | a red pair made below is never repaired by the rest of the climb |
| `RbDelete.DefectBreaks` | core/mg_rbtree.h:353-359 | as written, a defect on the way up ends in a null dereference or a red pair |
| `RbDelete.RemoveLeafRestores` | core/mg_rbtree.h:286-290 | as intended, deleting a childless node of a red-black tree gives a red-black tree with just that key gone |
| `RbDelete.RemoveLeafAsWrittenExact` | core/mg_rbtree.h:309-375 | as written, it does so iff the node is red or the climb meets no defect |
| `RbDelete.AsWrittenFails` | core/mg_rbtree.h:353-354 | a concrete red-black tree on which the text dereferences null |
| `RbDelete.AsWrittenFailsLeft` | core/mg_rbtree.h:332 | a concrete red-black tree on which line 332 does |
| `RbDelete.AsWrittenLeavesRedPair` | core/mg_rbtree.h:353-357 | a concrete red-black tree which the repeated test turns into a given tree with a red pair |
| `RbHeap.RbTree.LeftRotate` | utils/rbtree.h:352-370 | all links, with parent pointers, of the rotated tree in its unchanged surroundings |
| `RbHeap.RbTree.RightRotate` | utils/rbtree.h:380-399 | the mirror image |
| `RbHeap.RbTree.Grandparent` | utils/rbtree.h:111-113 | a red parent has a parent of its own: the grandparent is never null |
| `RbHeap.RbTree.Climb` | utils/rbtree.h:107-175 | one turn of the insert loop does what the fix-up function says, on the links, and moves up |
| `RbHeap.RbTree.Rebalance` | utils/rbtree.h:104-177 | the loop ends, with the links of exactly the fixed-up tree and a black root |
| `RbHeap.RbTree.Search` | utils/rbtree.h:39-52 | finds a node with the key iff the tree holds the key, and looks at exactly the nodes counted by `Visits` |
| `RbHeap.RbTree.Insert` | utils/rbtree.h:62-178 | on the heap: sorted keys, consistent parent and child links, black root are kept, and red-black too with the sibling as uncle; exactly the new node joins and every node keeps its key; the new tree is the insertion function of the old one |
| `RbHeap.RbTree.DeleteTurn` | core/mg_rbtree.h:312-372 | one turn of the delete loop on the links, for either reading and both sides |
| `RbHeap.RbTree.RepairAround` | core/mg_rbtree.h:309-373 | the delete loop terminates and leaves the doomed leaf in a place whose removal gives the specified tree |
| `RbHeap.RbTree.DeleteLeafNode` | core/mg_rbtree.h:131-143 | only the leaf is unlinked |
| `RbHeap.RbTree.DeleteChildless` | core/mg_rbtree.h:286-290 | on the heap: exactly that node and key are gone, all links consistent |
| `RbHeap.RbTree.Delete` | core/mg_rbtree.h:277-375 | exactly the given key and its node are gone, the other nodes keep their keys; as intended, red-black stays red-black |
| `RbHeap.RbTree.CutOff` | core/mg_rbtree.h:131-143 | whatever the links are, exactly the root link or one child link of the parent is cleared |
| `RbHeap.RbTree.ChangeNode` | core/mg_rbtree.h:146-186 | all links, colours and the root after the swap: a child of the upper node no longer names its parent, and a parent swapped with its own child ends as its own child and parent |
| `RbHeap.RbTree.DeleteSingle` | core/mg_rbtree.h:293-301 | deleting a node with one child puts the child in its place, linked to itself on the side where it hung; all above it is as before |
| `RbHeap.SelfLinkFitsNoTree` | core/mg_rbtree.h:293-301 | no node of a linked tree is its own child, so those links belong to no tree |
| `RbHeap.SearchNeverEnds` | core/mg_rbtree.h:58-72 | a search for a key on the self-linked side stays at that node for any number of turns |
| `RpcStream.EncodeDecode` | gencode/mg_server/server/util.h:26-29 | the four bytes of a non-negative length are the encoding of their decoding |
| `RpcStream.LittleEndian` | gencode/mg_server/client/client.cpp:77-82 | the first byte of a length is its remainder by 256, the others are the bytes of the quotient |
| `RpcStream.TwosComplement` | gencode/mg_server/server/util.h:26-29 | four bytes decode to the signed number they stand for, the least significant first |
| `RpcStream.TurnIsRun` | gencode/mg_server/server/parser.cpp:25-73 | taking as many bytes at once as a phase wants is the same as taking them one by one |
| `RpcTheorems.RunSplits` | gencode/mg_server/server/main.cpp:103-135 | feeding a, then b, gives the state and the requests of feeding a+b |
| `RpcTheorems.ChunkingIndependent` | gencode/mg_server/server/main.cpp:103-135 | from any reachable state, every way of cutting a stream into chunks gives the same state and requests |
| `RpcTheorems.RunLosesNothing` | gencode/mg_server/server/parser.cpp:25-79 | magic, encodings of the emitted requests in order, and the unfinished frame are exactly the bytes received |
| `RpcTheorems.BytesAreCounted` | gencode/mg_server/server/parser.cpp:25-79 | bytes consumed are magic bytes plus the sizes of the emitted frames plus the partial frame |
| `RpcTheorems.FrameIsRead` | gencode/mg_server/server/parser.cpp:25-73 | an encoded frame is read as exactly its header and body, and the rest is read from a frame start |
| `RpcTheorems.EmptyBodyWaits` | gencode/mg_server/server/parser.cpp:27 | a frame with an empty body at the end of the stream is complete but emitted only with a further byte |
| `RpcTheorems.FramesRoundTrip` | gencode/mg_server/server/parser.cpp:25-79 | any list of frames parses to that list in order; only an empty last body still waits |
| `RpcTheorems.StreamRoundTrip` | gencode/mg_server/server/main.cpp:103-135 | the same for magic and frames delivered in any chunks to a new connection |
| `RpcTheorems.MessageRoundTrip` | gencode/mg_server/client/client.cpp:77-90 | one client message with a body, in any chunks, parses to exactly its header and body |
| `RpcTheorems.MessageLayout` | gencode/mg_server/client/client.cpp:77-90 | the bytes on the wire: "peng", header length, body length, header, body, each at its offset |
| `RpcMessages.EmittedIsPrefix` | gencode/mg_server/server/parser.cpp:25-79 | on every stream, even one that decodes a negative length, the encodings of the emitted requests are the first bytes received |
| `RpcMessages.RepeatedMagicExact` | gencode/mg_server/server/main.cpp:109-121 | between frames, messages with their magics parse to themselves iff all are the message of magic bytes, too few to add up to one more |
| `RpcMessages.MessagesExact` | gencode/mg_server/server/parser.cpp:75-79 | any list of client messages in any chunks on a new connection is parsed to that list iff it is empty, one message with a body, or a message followed by such magic-only ones |
| `RpcMessages.MessagesAreSwallowed` | gencode/mg_server/client/client.cpp:77-90 | of two or more messages only the first is parsed while the rest is shorter than the length the magic stands for |
| `RpcMessages.OneMessagePerConnection` | gencode/mg_server/client/client.cpp:77-90 | of messages up to that size, the last with a body, all are parsed iff there is at most one |
| `RpcMessages.TwoMessagesFail` | gencode/mg_server/server/parser.cpp:75-79 | two concrete messages of fourteen bytes: the second is never parsed |
| `RpcServer.Parser.TurnLengths` | gencode/mg_server/server/parser.cpp:29-42 | the length-header phase on the parser's counters is one turn of the stream parser |
| `RpcServer.Parser.TurnHeader` | gencode/mg_server/server/parser.cpp:43-55 | the same for header fragments |
| `RpcServer.Parser.TurnContent` | gencode/mg_server/server/parser.cpp:56-69 | the same for body fragments; a full body is emitted, with the lengths it came with, and the parser reset |
| `RpcServer.Parser.SplitMessage` | gencode/mg_server/server/parser.cpp:25-73 | never entered in the magic phase; terminates despite zero-byte phase changes; the outcome of the stream stays what it was |
| `RpcServer.Parser.Reset` | gencode/mg_server/server/parser.cpp:75-79 | back to the magic phase, with the magic counter left alone |
| `RpcServer.TurnMagic` | gencode/mg_server/server/main.cpp:109-121 | the magic phase is one turn of the stream parser |
| `RpcServer.ParseConnection` | gencode/mg_server/server/main.cpp:103-135 | the loops over a chunk end, use it up, and leave the state and requests of the byte-by-byte parser; each request carries the lengths of its header and body |
| `RpcServer.WriteMessage` | gencode/mg_server/client/client.cpp:77-90 | copying the parts to computed offsets writes exactly the encoded message and nothing behind it |
| `PoolProtocol.WakeupStep` | utils/connection_pool.h:28-56 | every step keeps: if a call is blocked un-notified, pooled connections do not outnumber notified calls |
| `PoolProtocol.ExclusiveStep` | utils/connection_pool.h:43-56 | every step keeps each connection in exactly one place |
| `PoolProtocol.FifoStep` | utils/connection_pool.h:43-55 | every step keeps: given back = handed out, then still queued, in that order |
| `PoolProtocol.EveryRun` | utils/connection_pool.h:19-62 | all of these hold in every state of every interleaving, with spurious wakes, timeouts and late arrivals |
| `PoolProtocol.NobodyIsForgotten` | utils/connection_pool.h:28-56 | in every run, a call waiting while a connection is pooled has a notified call that will take the front one |
| `PoolProtocol.QuiescentPoolServesAll` | utils/connection_pool.h:32-41 | in every run, once no notified call is left to run, nobody waits while a connection is pooled |
| `PoolProtocol.CallsGetTheirOwn` | utils/connection_pool.h:64-87 | in every run, only calls made with a timeout return null, no connection is held twice, hand-out order is push order |
| `PoolProtocol.RunRecords` | utils/connection_pool.h:33-40 | in every run a call is recorded as timed iff it was made with a timeout; a call made without one never returns null |
| `PoolProtocol.RunningCallIsServed` | utils/connection_pool.h:32-47 | a call that gets to run takes the oldest pooled connection if there is one; it waits or returns null only if there is none |
| `PoolProtocol.FirstInFirstOut` | utils/connection_pool.h:43-55 | in every run the connections calls came to hold are, in order, the first of those handed in; the rest are queued in order |
| `PoolProtocol.EveryCallIsSomewhere` | utils/connection_pool.h:28-56 | in every run a call that entered waits, holds a connection, returned null, or has given its connection back |
| `PoolProtocol.RunOwns` | utils/connection_pool.h:26 | in every run the pool owns exactly the connections added |
| `PoolProtocol.NoneIsLost` | utils/connection_pool.h:26-56 | in every run, queued and held connections are together all that were added, also in number |
| `PoolObject.ConnectionPool.EnterGet` | utils/connection_pool.h:28-47 | the first critical section of a call is the entering step; it takes the front of the queue, and waits iff there is none |
| `PoolObject.ConnectionPool.ResumeGet` | utils/connection_pool.h:32-47 | a call that runs again re-tests the queue |
| `PoolObject.ConnectionPool.TimeoutGet` | utils/connection_pool.h:36-47 | a timed-out call still takes a connection if there is one, and returns null exactly otherwise |
| `PoolObject.ConnectionPool.GiveBackConnection` | utils/connection_pool.h:50-56 | push and notify one blocked call, if any |
| `PoolObject.ConnectionPool.AddConnection` | utils/connection_pool.h:26 | the same for a new connection |
| `ArenaModel.FittingStep` | utils/buffer.h:71-77 | serving from the current block keeps regions disjoint, owned, and apart from the free rest |
| `ArenaModel.FallbackStep` | utils/buffer.h:56-69 | so does serving from a new block |
| `ArenaModel.EveryRunIsSound` | utils/buffer.h:49-103 | over every run regions lie in owned blocks and are pairwise disjoint, and the usage is the blocks' total size |
| `ArenaModel.EveryRequestIsServed` | utils/buffer.h:71-103 | over every run there is one region for each request, in order, of its size, aligned where asked for; the totals are those of the requests |
| `ArenaModel.ExactFit` | utils/buffer.h:75-96 | a plain request for exactly what is left opens a new block, an aligned one uses it up |
| `ArenaModel.AlignedResult` | utils/buffer.h:85-103 | an aligned request returns a multiple of the pointer size |
| `ArenaModel.SpaceBound` | utils/buffer.h:49-83 | in every run of plain requests, 3073 (usage - 4096) <= 4096 times the bytes requested |
| `ArenaModel.MixedSpaceBound` | utils/buffer.h:49-103 | in every run, 3073 (usage - 4096) <= 4096 times the bytes requested plus 7 per aligned request |
| `ArenaModel.BoundIsTight` | utils/buffer.h:56-83 | for every k a run of plain requests retires k blocks that carry only 3073 bytes each |
| `ArenaObject.BufferPool.AllocateFallback` | utils/buffer.h:56-69 | large requests get their own block, small ones retire the current block |
| `ArenaObject.BufferPool.Allocate` | utils/buffer.h:71-83 | the new region is owned and apart from every earlier one |
| `ArenaObject.BufferPool.AllocateAlign` | utils/buffer.h:85-103 | the same, at an aligned address |
| `HashModel.IndexIsRemainder` | utils/hashtable.h:62 | masking with a power of two less one is the remainder, so the index is in range |
| `HashModel.AllPlaced` | utils/hashtable.h:115-128 | spreading entries over the new buckets neither loses nor duplicates one |
| `HashModel.PresentIffStored` | utils/hashtable.h:61-77 | a lookup in the bucket of the hash finds an entry exactly when some chain holds it |
| `HashModel.RehashedShape` | utils/hashtable.h:108-133 | a rehashed table has every entry in the bucket of its hash, the same entries, each once |
| `HashModel.PlacedReverses` | utils/hashtable.h:117-127 | of two entries that meet in a new bucket, the one moved later comes first |
| `HashModel.ResizeKeepsLookups` | utils/hashtable.h:108-133 | resizing changes the answer of no lookup |
| `HashModel.InsertAbsent` | utils/hashtable.h:90-105 | inserting an absent key adds one entry and changes no other lookup |
| `HashModel.InsertedAtEnd` | utils/hashtable.h:90-94 | it goes to the end of the chain of its hash, and no other chain changes |
| `HashModel.InsertPresent` | utils/hashtable.h:93-95 | replacing a stored key loses exactly the entries behind it in its chain |
| `HashModel.InsertPresentExact` | utils/hashtable.h:93-95 | replacing a stored key keeps every lookup iff the old node was the last of its chain |
| `HashModel.ReplacingLosesTheRest` | utils/hashtable.h:93-95 | a concrete bucket of two keys: inserting the first again loses the second |
| `HashObject.PushFront` | utils/hashtable.h:119-124 | one node moves to the front of its new bucket, on the links |
| `HashObject.MoveChain` | utils/hashtable.h:117-127 | so does a whole chain, counted |
| `HashObject.HashTable.NewLength` | utils/hashtable.h:109-112 | the new length is a power of two, at least the element count, and the least of 4, 16, 64, ... that is |
| `HashObject.HashTable.Resize` | utils/hashtable.h:108-133 | every node is relinked into its new bucket, none lost; the count equals the number of nodes |
| `HashObject.HashTable.FindNode` | utils/hashtable.h:61-73 | the link to the matching node, or the null link at the end of its chain |
| `HashObject.HashTable.Lookup` | utils/hashtable.h:75-77 | what the plain map holds under the hash and key, or null |
| `HashObject.HashTable.InsertNode` | utils/hashtable.h:90-105 | an absent key updates the plain map at that key only, across a resize; for a stored one the replaced node is returned, the map loses what was behind it, and the table stays valid iff that is nothing |
| `HeapSort.SiftRestores` | utils/algorithm.h:68-87 | `adjust_heap` restores the heap on an inclusive range |
| `HeapSort.SiftKeeps` | utils/algorithm.h:68-87 | it permutes that range and touches nothing else |
| `HeapSort.AdjustHeap` | utils/algorithm.h:68-87 | the in-place loop computes the sifting function, for an end inside the array or one past it |
| `HeapSort.SiftPastExact` | utils/algorithm.h:92-95 | with `length` as the end, a sift reads past the array iff it comes to the parent of that place, and is the plain sift otherwise |
| `HeapSort.SortPastExact` | utils/algorithm.h:89-103 | as written, the sort reads past the array for every even length of at least two, for an odd one iff a sift comes to its middle, and otherwise agrees with its intent |
| `HeapSort.SortPastFails` | utils/algorithm.h:94 | concrete arrays of two and three elements, some with equal ones, on which it does, and one of three on which it does not |
| `HeapSort.Drain` | utils/algorithm.h:97-102 | the second loop, in place; it never leaves the array |
| `HeapSort.Sort` | utils/algorithm.h:89-103 | both loops in place, under either reading of the end |
| `HeapSort.SortIsCorrect` | utils/algorithm.h:89-103 | for every length and total preorder the result is an ordered permutation of the input, unless the text reads past the array |
| `ReadModel.NextDeliversAll` | gencode/mg_server/server/buffer_manager.h:127-138 | by `Next` alone a fully appended buffer hands out exactly its fragments and counts every byte |
| `ReadModel.SkipLands` | gencode/mg_server/server/buffer_manager.h:158-169 | one skip from the start ends at the fragment and offset that the fragment sizes give for that byte |
| `ReadModel.SingleSkip` | gencode/mg_server/server/buffer_manager.h:158-169 | it succeeds iff that many bytes are there, counts them, and what lies ahead is every byte from that number on; the following `Next` hands out the first of these |
| `ReadModel.BackUpUnreads` | gencode/mg_server/server/buffer_manager.h:140-146 | backing up k bytes after a `Next`, up to the whole fragment, puts exactly those bytes ahead again and takes them off the count |
| `ReadModel.BackUpUndoesNext` | gencode/mg_server/server/buffer_manager.h:127-146 | backing up all that a `Next` handed out restores the reader |
| `ReadModel.NothingMoves` | gencode/mg_server/server/buffer_manager.h:140-169 | a count of zero or less moves nothing; a skip by less than zero fails |
| `ReadModel.ClearingSkipsAdd` | gencode/mg_server/server/buffer_manager.h:127-146 | if `Next` cleared the offset, two skips would be one |
| `ReadModel.SkipsAddExact` | gencode/mg_server/server/buffer_manager.h:140-169 | as written, skipping a and then b is skipping a+b iff byte a starts a fragment or byte a+b is in the same one |
| `ReadModel.TwoSkipsFail` | gencode/mg_server/server/buffer_manager.h:140-169 | two concrete fragments on which two skips end a byte too far |
| `ReadModel.SkipThenReadBytes` | gencode/mg_server/server/buffer_manager.h:127-169 | after one skip, reading to the end hands out exactly the remaining bytes iff byte n starts a fragment or only empty fragments follow its own |
| `ReadModel.SkipThenReadExact` | gencode/mg_server/server/buffer_manager.h:127-173 | after one skip, reading to the end counts every byte iff byte n starts a fragment or is in the last one |
| `ReadModel.SkipThenReadFails` | gencode/mg_server/server/buffer_manager.h:127-169 | the same two fragments: after skipping one byte, one is never handed out and four of five are counted |
| `ReadObject.MReadBuf.Append` | gencode/mg_server/server/buffer_manager.h:121-125 | the fragment goes to the end, reading starts over, offset and count stay |
| `ReadObject.MReadBuf.NextChunk` | gencode/mg_server/server/buffer_manager.h:127-138 | the rest of the current fragment from the offset on, with its size |
| `ReadObject.MReadBuf.BackUpBy` | gencode/mg_server/server/buffer_manager.h:140-146 | the last `count` bytes of the fragment just passed are ahead again and off the count |
| `ReadObject.MReadBuf.SkipBy` | gencode/mg_server/server/buffer_manager.h:158-169 | the skipping loop computes the skipping function |
| `RingList.InitList` | core/mg_list.c:12-15 | a ring of one |
| `RingList.InsertListFront` | core/mg_list.c:17-22 | the element joins the ring as its tail |
| `RingList.InsertListEnd` | core/mg_list.c:24-29 | the element joins the ring as its head |
| `RingList.RemoveListNode` | core/mg_list.c:31-38 | just that element leaves the ring; with cleanup it is a ring of its own |
| `RingList.ListHead` | core/mg_list.c:40 | the node after the sentinel |
| `RingList.ListTail` | core/mg_list.c:42 | the node before the sentinel |
| `RingList.IsEmpty` | core/mg_list.h:33 | the sentinel test agrees with emptiness |
| `RingList.InsertThenRemove` | core/mg_list.c:17-38 | inserting at either end and removing restores every link |
| `MinOperations.RaisedIsLeast` | gencode/mg_server/helloworld.cpp:211-218 | the greedy sequence is pointwise least among all strictly increasing ones above the input |
| `MinOperations.MinOperations` | gencode/mg_server/helloworld.cpp:205-220 | the result is the minimum total increment over all those sequences, and is attained |
| `SqlBuilder.PlaceholderOwner` | gencode/openresty-app/common/db.lua:41-79 | a placeholder stands in a clause's text iff the value of the same rank was supplied by that clause |
| `SqlBuilder.WhereMatched` | gencode/openresty-app/common/db.lua:46-78 | for every list of conditions in any order, every piece of the WHERE clause has as many placeholders as values |
| `SqlBuilder.UpdateMatched` | gencode/openresty-app/common/db.lua:156-175 | so has every piece of an UPDATE, its SET values before its WHERE values |
| `SqlBuilder.InsertMatched` | gencode/openresty-app/common/db.lua:126-137 | so has every piece of an INSERT |
| `SqlBuilder.ClauseMeans` | gencode/openresty-app/common/db.lua:51-74 | binding a condition's values gives the condition with each value in its place: BETWEEN the low one before AND, the high one after |
| `SqlBuilder.WhereMeans` | gencode/openresty-app/common/db.lua:41-79 | binding the values of a WHERE clause gives every condition with its own values, after WHERE and joined by AND |
| `SqlBuilder.UpdateMeans` | gencode/openresty-app/common/db.lua:156-175 | binding the values of an UPDATE gives the table, every assignment and every condition with its own values, nothing left over |
| `SqlBuilder.InsertMeans` | gencode/openresty-app/common/db.lua:126-137 | binding the values of an INSERT gives the table, the fields and the values in order |
| `SqlBuilder.UpdateBinds` | gencode/openresty-app/common/db.lua:49-75 | each value is bound to a placeholder that follows its own condition's name and keyword |
| `SqlBuilder.UpdateValues` | gencode/openresty-app/common/db.lua:163-175 | the values are those of the assignments, then those of the conditions; the text is SET with commas, then WHERE with ANDs |
| `SqlBuilder.JoinIsFlatten` | gencode/openresty-app/common/db.lua:60 | joining with a separator is concatenation, but for the last separator |
| `SqlBuilder.BuildWhereClause` | gencode/openresty-app/common/db.lua:41-79 | the loops build a clause and values that read, when bound, as all the conditions |
| `SqlBuilder.Update` | gencode/openresty-app/common/db.lua:156-175 | the statement and its bound values read as the whole UPDATE |
| `SqlBuilder.Insert` | gencode/openresty-app/common/db.lua:126-137 | the statement and its bound values read as the whole INSERT |

## Left out

- RbHeap.RbTree.Delete: asks that the node have no children, because `change_rb_node`, which the source calls otherwise, always leaves inconsistent links (`ChangeNode`, `DeleteSingle`); what the rest of the text then does to a node that had two children is not modelled.
- RbHeap.RbTree.Insert: leaves out `_count` and the return codes, which the source's comment and code give differently, and takes `int` for the key type.
- core's own insert (core/mg_rbtree.h:196-275): its search returns null at the insert position, so it replaces the root.
- RpcServer.ParseConnection: asks that no negative length be decoded; the source would then move its buffer position backwards.
- RpcServer.WriteMessage: asks that the message fit the buffer; the source does not check.
- Buffers and fragments of the parser are values: recycling through `MBufferPool`, where several guards share one buffer, is not modelled.
- Lengths are read least significant byte first, as on the little-endian hosts the server copies them on.
- HashObject.HashTable.InsertNode: asks for a node whose `next` is null, as its constructor leaves it; `prev` links, which resize does not maintain, and `remove_node` are not modelled.
- ConnectionPool: connections are distinct, guards are not copied, and the clock is a step that may come at any time.
- Addresses of new blocks come from the environment, aligned and apart from the blocks owned.
- SqlBuilder.Update: conditions come with their operator in upper case and an argument of the right kind; SELECT and DELETE put the caller's text around the same WHERE clause and bind no values of their own.
- Unbounded integers stand for the source's 32- and 64-bit ones; allocation always succeeds.
- Sockets, epoll, signals, logging, the protobuf messages, the other sorts and samples, skip lists, the small-block path of core/mg_pool.h, and src/stream.h.
