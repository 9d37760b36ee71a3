# ApexDB, verified

A Dafny model of ApexDB, the in-memory key-value store: the hand-written structures it is built from,
the store they make up, the bytes on the wire, and the cluster of shards behind a proxy. Every operation
that changes state is a method on objects or buffers, proved against a plain mathematical description;
the descriptions are then put together into theorems about whole runs.

How the parts build on each other:

- `AvlTree`, `AvlNodes`: the AVL tree with parent pointers, heights and subtree counts. `AvlTree` is about
  trees as values and the paths to their nodes; `AvlNodes` is the pointer code, whose nodes are objects,
  proved to represent those trees at every step.
- `HashMap`: the hash map that migrates 128 nodes per call. Two tables always stand for one set of nodes.
- `Bytes`, `Doubles`, `ZSets`: the sorted set, a tree by (score, name) and a hash index by name over the
  same nodes, standing for one map from names to scores.
- `Entries`, `TtlHeap`: the deadline heap, whose items point to entries that hold their own heap index.
- `Decimals`, `StoreSpec`: what each command means on a plain map from keys to a text or a ranking with
  an optional deadline.
- `KvStore`: the store itself. Hash map, heap, back-indices and sorted sets stand for one such map, and
  `Execute` does to it what `StoreSpec` says.
- `Queries`, `Answers`: what queries answer, by rank, and the laws between the answers of commands that a client
  can observe.
- `StoreRuns`, `KvRuns`: theorems about runs, and the method that ties runs of the structures to them.
- `ThreadPool`: the worker pool as interleaved steps of any number of threads.
- `Wire`, `Requests`, `Tagged`: the wire format, its encoders and its parsers; `Readable`: the client prints
  what the store answers.
- `Connections`: one connection of the event loop, over arbitrary reads and writes.
- `Sharding`, `Proxy`, `Cluster`, `ClusterRuns`: routing and gathering, the simulation between the cluster
  and one store, and the methods that run them.

Conventions. The clock is an input that never goes back; where a command reads it twice, both readings
are given. `strtod` is a parameter, any function. A double is its 64-bit pattern with the IEEE 754 order.
Native byte order is little endian. The heap index `(size_t)-1` is -1.

One property holds only with a condition. Shards are asked for their keys one after the other, so a
deadline that passes in between can split them, and the gathered keys can be those of one store at no
instant (`Cluster.NoInstant`). They are exactly the keys that live until their own shard is asked
(`Cluster.Scattered`), and those of one store at an instant if and only if every key is due then exactly
when it is due as its own shard is asked (`Cluster.OneInstant`, `Cluster.SameKeys`).

## Model

| member | source | states |
|---|---|---|
| AvlTree.RotLSame | src/avl.cpp:14-28 | A left rotation keeps the in-order sequence and the set of nodes, and distinctness. |
| AvlTree.RotRSame | src/avl.cpp:30-44 | The same for a right rotation. |
| AvlTree.Fix1Same | src/avl.cpp:60-80 | Repairing one node keeps the in-order sequence, the nodes and their distinctness, whichever single or double rotation it takes. |
| AvlTree.FixLBalanced | src/avl.cpp:46-51 | A node whose left subtree is two higher, over balanced subtrees, comes out balanced and at most one lower than it was. |
| AvlTree.FixRBalanced | src/avl.cpp:53-58 | The mirror image. |
| AvlTree.ClimbInOrder | src/avl.cpp:60-80 | The whole bottom-up repair keeps the in-order sequence: what is before the hole, the new subtree, what is after it. |
| AvlTree.ClimbBalanced | src/avl.cpp:60-80 | If every ancestor was balanced with the old subtree in place and the new one differs in height by at most one, the repaired tree is balanced everywhere. |
| AvlNodes.Update | src/avl.cpp:9-12 | Over two correctly linked subtrees, height and count become those of the subtree, so the node is a correctly linked root. |
| AvlNodes.RotLeft | src/avl.cpp:14-28 | The pointer changes leave parent links, heights and counts that represent exactly the rotated tree, with the parent link of the old root. |
| AvlNodes.RotRight | src/avl.cpp:30-44 | The mirror image. |
| AvlNodes.FixLeft | src/avl.cpp:46-51 | The pointers represent the tree that the single or double rotation prescribes. |
| AvlNodes.FixRight | src/avl.cpp:53-58 | The mirror image. |
| AvlNodes.Fix | src/avl.cpp:60-80 | Climbing from any node in place, every ancestor is repaired; the result is the true root and every link, height and count is that of the repaired tree. |
| AvlNodes.DelEasy | src/avl.cpp:82-95 | Unhooking a node with at most one child leaves its child in its place and the tree above repaired. |
| AvlNodes.Successor | src/avl.cpp:97-120 | The walk ends at the node directly after the deleted one in the in-order sequence, and that node has no left child. |
| AvlNodes.Replace | src/avl.cpp:97-120 | After the successor was unhooked and rebalancing may have moved the node anywhere, the successor takes over its links; the pointers represent the same tree with the one node exchanged. |
| AvlNodes.Del | src/avl.cpp:97-120 | For every valid tree and every node of it: a valid tree (links, heights, counts, balance) of exactly the other nodes, whose in-order sequence is the old one without that node; the result is its root. |
| AvlNodes.Offset | src/avl.cpp:123-145 | From the node of rank r, any offset d: the node of rank r + d if there is one, null if not; at most twice the height in steps (first climbing, then only descending). |
| AvlTree.FibonacciBound | src/avl.cpp:60-80 | A balanced tree of height h has at least Fib(h + 2) - 1 nodes. |
| HashMap.HInsert | src/hashtable.cpp:14-20 | The table then holds exactly the old nodes and the new one, each once and in its slot. |
| HashMap.HLookup | src/hashtable.cpp:22-35 | Finds a stored node with that hash code that the comparison accepts, with its place; if not, no stored node qualifies. |
| HashMap.HDetach | src/hashtable.cpp:37-42 | Removes exactly the node at that place. |
| HashMap.HMap.HelpRehashing | src/hashtable.cpp:46-61 | Moves min(128, left) nodes; the one set of nodes is unchanged, the buckets below the cursor stay empty, and the old table is freed when it is empty. |
| HashMap.HMap.CursorInRange | src/hashtable.cpp:46-61 | While the old table has nodes, the migration cursor points into it. |
| HashMap.HMap.TriggerRehashing | src/hashtable.cpp:63-68 | The full table becomes the old one beside an empty one of twice its capacity; the set of nodes is unchanged. |
| HashMap.HMap.Lookup | src/hashtable.cpp:70-77 | In every mid-rehash state: a node of the map with that hash code and accepted, or none exists. The map is unchanged. |
| HashMap.HMap.Insert | src/hashtable.cpp:79-92 | In every mid-rehash state: exactly the node is added, whether or not its key is new; a rehash starts exactly when the table reaches its load factor. |
| HashMap.HMap.Delete | src/hashtable.cpp:94-103 | In every mid-rehash state: a matching node is removed and returned, nothing else changes; or none matches. |
| HashMap.HMap.Size | src/hashtable.cpp:111-113 | The number of nodes in both tables is the size of the one map. |
| HashMap.HForEach | src/hashtable.cpp:115-124 | The nodes of a table in walk order, up to and including the first one at which the visitor stops. |
| HashMap.HMap.ForEach | src/hashtable.cpp:126-128 | The visited nodes are those of the walk through both tables up to the first stop; a stop in the new table skips the old one. |
| HashMap.HMap.EachOnce | src/hashtable.cpp:126-128 | The walk meets every node of the map exactly once, also mid-rehash. |
| HashMap.HMap.RehashInTime | src/hashtable.cpp:44-103 | Between calls the newer table is below its load factor, so no second rehash is owed, and it has twice the capacity of an old one; an old table of n nodes has seen fewer than ceil(n / 128) calls; the cursor is in range while it has nodes. |
| Bytes.NameLessTransitive | src/zset.cpp:29-46 | The order of names (common prefix, then length) is transitive. |
| Bytes.NameLessTotal | src/zset.cpp:29-46 | Of two different names exactly one is less; no name is less than itself. |
| ZSets.ZLessTransitive | src/zset.cpp:29-46 | The order of (score, name) is transitive, infinities and both zeros included. |
| ZSets.ZLessTotal | src/zset.cpp:29-46 | Members of different names are ordered one way exactly, whatever their scores; one of the same name and an equal score is not less. |
| Bytes.NameLessIsEarlier | src/zset.cpp:29-46 | The comparison of names is the order of bytes: the first byte that differs decides, then the shorter name comes first. |
| Doubles.KeyIsOrder | src/zset.cpp:29-46 | Comparing score keys is comparing the numbers that the patterns stand for, exponent and fraction; both zeros are zero. |
| Doubles.InfinitiesAtTheEnds | src/zset.cpp:29-46 | The infinities lie below and above every other number. |
| Doubles.NaNBits | src/kv_store.cpp:167-173 | What is rejected as NaN is exactly a pattern with all exponent bits set and a fraction. |
| Queries.ZLessIsBefore | src/zset.cpp:29-46 | The order of members is by score as a number, ascending, then by name as bytes. |
| ZSets.Descend | src/zset.cpp:48-58 | The descent ends at the one free place where the new node keeps the order, after at most as many steps as the tree is high. |
| ZSets.TreeInsert | src/zset.cpp:48-58 | Attaching a fresh leaf and repairing gives a valid tree, with its true root, of exactly the old nodes and the new one, strictly sorted. |
| ZSets.ZSet.Update | src/zset.cpp:60-68 | The node moves to its place by the new score: its score then compares equal to that score, keeping its bits if it did before; every other member keeps its score, and both indexes hold the same nodes as before. |
| ZSets.ZSet.Insert | src/zset.cpp:70-81 | The name then has a score that compares equal to the given one, the old bits if it had before; every other name keeps its score; the result says whether the name was new. Tree and index agree again. |
| ZSets.ZSet.EmptyTogether | src/zset.cpp:98-109 | The tree is empty exactly when the index is, which the early return relies on. |
| ZSets.ZSet.Lookup | src/zset.cpp:89-109 | Null exactly when no member has the name; otherwise the node of that name with its score. |
| ZSets.ZSet.Delete | src/zset.cpp:111-120 | Exactly that member leaves both indexes; everything else keeps its score and its order. |
| ZSets.SeekGe | src/zset.cpp:122-133 | The first node of the in-order sequence that is not less than (score, name), with the number of nodes that are; at most as many steps as the tree is high. |
| ZSets.ZSet.Seek | src/zset.cpp:122-133 | The same in terms of the sorted member list. |
| ZSets.ZSet.OffsetFrom | src/zset.cpp:135-138 | The member that many places further in the sorted list, or null if that is outside it. |
| ZSets.ListingUnique | src/zset.cpp:29-46 | The members have one strictly sorted list. |
| Queries.QueryByRank | src/kv_store.cpp:340-369 | A query answers exactly the members whose rank, the number of members before them, is start, start + 1 and so on, where start is offset more than the rank of the member asked for: min(rest, ceil(limit / 2)) pairs; nothing if the seek finds nothing or start is no rank. |
| Queries.QueryInOrder | src/kv_store.cpp:340-369 | In an answer the numbers do not decrease, equal ones stand in byte order of their names, and with an offset of zero or more none is before the member asked for. |
| TtlHeap.Heap.Up | src/heap.cpp:16-26 | If only that slot may be too small, heap order is restored, the items are the same multiset, and every entry knows the place of its item. |
| TtlHeap.Heap.Down | src/heap.cpp:28-53 | The same if only that slot may be too big. |
| TtlHeap.OneWay | src/heap.cpp:55-61 | A single changed slot violates the order in one direction only. |
| TtlHeap.Heap.Update | src/heap.cpp:55-61 | After any one slot changed, moving its item in one direction restores order and all back-references, with the same items. |
| TtlHeap.RootLeast | src/heap.cpp:4-26 | In a heap the first item is the least. |
| TtlHeap.Heap.Delete | src/kv_store.cpp:130-136 | Filling a slot from the back and popping: exactly that item leaves; order and back-references hold for the rest. |
| TtlHeap.Heap.Upsert | src/kv_store.cpp:138-146 | Exactly the item of that entry is replaced, or a new one added; order and back-references hold. |
| Decimals.ParseDecimal | src/kv_store.cpp:159-165 | Every 64-bit integer is read back from the text that incr stores. |
| Decimals.ParseExactly | src/kv_store.cpp:159-165 | Accepted as an integer is exactly an optional minus sign, any zeros and the decimal digits of a 64-bit integer, and that is its value. |
| StoreRuns.NeverNaN | src/kv_store.cpp:167-173 | In every run from an empty store, whatever strtod makes of a text, no score is ever NaN, so the order of scores is total. |
| KvStore.KVStore.Find | src/kv_store.cpp:78-82 | An entry with that key exactly when the abstract map has the key; nothing changes. |
| KvStore.KVStore.SetTtl | src/kv_store.cpp:148-157 | Exactly the deadline of that entry changes; a negative duration removes it. Heap order and all back-references hold, and an entry has an index exactly when it has an item. |
| KvStore.KVStore.HeapPlace | src/kv_store.cpp:130-157 | An entry has a deadline exactly when its heap index is not -1, and then its item stands at that index. |
| KvStore.KVStore.EntryDel | src/kv_store.cpp:119-128 | The deadline goes; the entry is freed at once or, as a sorted set of more than 1000 members, queued for the pool, exactly once. |
| KvStore.KVStore.ExpireFirst | src/kv_store.cpp:458-471 | The entry in front of the heap is one with the least deadline, deleting its own node from the map cannot miss, and exactly it leaves. |
| KvStore.KVStore.ProcessTimers | src/kv_store.cpp:458-471 | Up to 2001 entries leave, each of them due, in the order of their deadlines; fewer than 2001 only if nothing is due any more; every one is disposed of once. |
| KvStore.HowManyRemoved | src/kv_store.cpp:458-471 | One call removes exactly min(2001, number due). |
| KvStore.KVStore.ReapDue | src/kv_store.cpp:371-375 | The loop terminates, and what has left is exactly what was due, disposed of once each; everything else is unchanged. |
| KvStore.KVStore.NextTimerMs | src/kv_store.cpp:439-452 | No sleep unless there is a deadline below 2^64 - 1; it never ends after a deadline still to come; and it is zero with a deadline that has passed, or ends at a deadline, or is 2^31 - 1 ms with every deadline later. |
| KvStore.KVStore.DoGet | src/kv_store.cpp:175-188 | The bytes of the answer that the abstract map dictates, all error cases included. |
| KvStore.KVStore.DoSet | src/kv_store.cpp:190-211 | The abstract map gets the text under the key and no deadline, or the error and no change. |
| KvStore.KVStore.DoDel | src/kv_store.cpp:213-222 | The key leaves the abstract map and its entry is disposed of once; the answer says whether it was there. |
| KvStore.KVStore.DoExpire | src/kv_store.cpp:224-242 | The deadline is set to now plus the duration; a duration of zero or less deletes the key and disposes of its entry; errors change nothing. |
| KvStore.KVStore.DoTtl | src/kv_store.cpp:244-259 | -2 for no key, -1 for no deadline, else what is left of it, never negative. |
| KvStore.KVStore.DoExists | src/kv_store.cpp:387-388 | 1 exactly when the abstract map has the key. |
| KvStore.KVStore.DoType | src/kv_store.cpp:389-390 | What kind of value the abstract map has under the key. |
| KvStore.KVStore.DoPersist | src/kv_store.cpp:391-396 | The deadline goes; 1 exactly when there was one. |
| KvStore.KVStore.DoIncr | src/kv_store.cpp:397-413 | The integer under the key goes up by one in the abstract map and keeps its deadline; a new key starts at 1; overflow and non-integers are errors. |
| KvStore.KVStore.DoKeys | src/kv_store.cpp:261-271 | Every key of the abstract map exactly once, and a count that is right. |
| KvStore.KVStore.DoZadd | src/kv_store.cpp:273-297 | The member gets the score in the abstract map; 1 exactly when it is new; a key with a text is an error. |
| KvStore.KVStore.DoZrem | src/kv_store.cpp:301-324 | The member leaves; 1 exactly when it was there; the key stays, also with no members. |
| KvStore.KVStore.DoZscore | src/kv_store.cpp:326-338 | The score of the member in the abstract map, nil if there is none. |
| KvStore.KVStore.DoZquery | src/kv_store.cpp:340-369 | Exactly the slice of the sorted member list from (first member not less than the key) + offset, of min(rest, ceil(limit / 2)) pairs; empty if the seek finds nothing or the start is outside; the patched count is the number of elements. |
| StoreSpec.QueryReplyUnique | src/kv_store.cpp:340-369 | That specification of a query has one answer. |
| KvStore.KVStore.Execute | src/kv_store.cpp:371-437 | From every reachable state of hash map, heap, back-indices and sorted sets together: what is due leaves, then the command does to the one abstract map what it dictates, and the bytes appended encode its answer. Every entry ever in the map is still in it or disposed of exactly once. |
| KvRuns.RunAll | src/kv_store.cpp:371-471 | Any sequence of commands and timer calls in the order of the clock is a run of the abstract map, and the bytes appended are its answers; no entry is forgotten on the way. |
| StoreRuns.OnlyItsKey | src/kv_store.cpp:371-437 | A command changes at most the item under its own key. |
| StoreRuns.SameAtItsKey | src/kv_store.cpp:371-437 | What a command does and answers depends on the item under its key alone. |
| StoreRuns.FailureChangesNothing | src/kv_store.cpp:175-437 | A command that answers an error changes nothing. |
| StoreRuns.DeadlineChanges | src/kv_store.cpp:148-437 | Of all commands only a successful set and persist clear a deadline and only pexpire sets one; incr, zadd, zrem and failures keep it; a key leaves only by del or by pexpire with no time left; a new key has no deadline. |
| StoreRuns.DeadlineOrigin | src/kv_store.cpp:224-242 | In every run from an empty store, a deadline stems from a successful pexpire and has stood unchanged since. |
| StoreRuns.PttlBounded | src/kv_store.cpp:244-259 | In every run, pttl answers what is left of the last duration set, so never more than that duration. |
| StoreRuns.IncrCounts | src/kv_store.cpp:397-413 | n increments add n, up to the 64-bit limit, and leave the deadline alone. |
| Answers.OneMoment | src/kv_store.cpp:175-437 | At any moment the answers about a key fit together: exists, type, get, pttl, del and persist say the same about whether it is there, what it is and whether it has a deadline. |
| Answers.OneMember | src/kv_store.cpp:313-338 | zrem answers 1 exactly when zscore answers a double and 0 exactly when it answers nil; a text is refused by both. |
| Answers.KeysExist | src/kv_store.cpp:261-271 | keys lists exactly the keys for which exists answers 1, each once. |
| Answers.PingEchoes | src/kv_store.cpp:378-379 | ping answers PONG or its argument. |
| Answers.OtherKeys | src/kv_store.cpp:371-437 | A command leaves every answer about every other key as it was. |
| Answers.AfterSet | src/kv_store.cpp:190-211 | set refuses a sorted set; otherwise get then answers the text, type string, exists 1 and pttl -1. |
| Answers.AfterDel | src/kv_store.cpp:213-222 | del answers whether the key existed; then get answers nil, exists 0, type none, pttl -2 and zscore nil. |
| Answers.AfterIncr | src/kv_store.cpp:397-413 | incr answers 1 for a new key and one more than the number get answers; get then answers the sum; a text that is no integer, the largest integer and a sorted set are refused; the deadline stays. |
| Answers.AfterExpire | src/kv_store.cpp:224-242 | pexpire answers whether the key existed; pttl then counts down from the duration and get answers as before; zero or less removes the key; what is no integer is refused. |
| Answers.ExpiresOnTime | src/kv_store.cpp:371-375 | A key exists before its deadline and not from its deadline on. |
| Answers.AfterPersist | src/kv_store.cpp:391-396 | persist answers whether pttl gave a deadline; then pttl answers -1, and get as before. |
| Answers.AfterZadd | src/kv_store.cpp:273-297 | zadd refuses what strtod does not read whole, in range and as a number, and a text; otherwise it answers whether zscore was nil, zscore then answers a double equal to the score as a number, other members and the deadline stay. |
| Answers.AfterZrem | src/kv_store.cpp:313-324 | zrem answers whether the member was there, zscore then answers nil, and the key, its type, its deadline and its other members stay. |
| Answers.QueryAnswers | src/kv_store.cpp:340-369 | zquery takes key, score, name, offset and limit in this order, refuses each malformed one and a text, answers nothing for a limit of zero or less, and otherwise the members by rank; each pair is a member with the score zscore answers. |
| Answers.LastWrite | src/kv_store.cpp:175-211 | In every run, get answers the text of the last successful set or incr of the key, if no del or pexpire came after it and no deadline that stood has passed; after a set none stands. |
| ThreadPool.StepKeeps | src/thread_pool.cpp:6-80 | Every step of every thread keeps mutual exclusion, the account of jobs, the wake-up guarantee and the shutdown protocol. |
| ThreadPool.WorkerConserved | src/thread_pool.cpp:6-22 | A worker takes jobs in the order of the queue and never loses or repeats one. |
| ThreadPool.MainWakeup | src/thread_pool.cpp:71-80 | Push and signal under the mutex leave a worker awake whenever the queue is not empty. |
| ThreadPool.EveryCallCounts | src/thread_pool.cpp:71-80 | In every run, the jobs submitted and the job of a call under way are the jobs of all calls of thread_pool_queue, in order. |
| ThreadPool.EveryInterleaving | src/thread_pool.cpp:6-80 | In every interleaving, spurious wake-ups included: jobs taken, jobs queued and the job of a call under way are the jobs of all calls in order, each taken job is finished or in one hand, and outside the push-signal window a non-empty queue has a worker neither asleep nor gone. |
| ThreadPool.DrainedOnReturn | src/thread_pool.cpp:24-38 | When destroy returns the queue is empty, the job of every call of thread_pool_queue has run exactly once, and every thread has exited. |
| ThreadPool.NoDeadlock | src/thread_pool.cpp:6-80 | While a job waits or a call is under way, some thread can move other than by a spurious wake-up. |
| ThreadPool.DestroyReturns | src/thread_pool.cpp:24-38 | Once destroy has broadcast, every run is bounded by a rank, and a run in which destroy has not returned can go on; so it returns in every interleaving. |
| KvRuns.DisposedOnce | src/kv_store.cpp:84-128 | Once the pool is destroyed that was called for the queued entries, the entries freed are exactly those that were ever in the map and are not any more, each once. |
| Wire.ReadU32OfU32 | src/protocol.cpp:6-13 | A 32-bit integer is read back from its bytes, whatever follows. |
| Wire.U32OfReadU32 | src/protocol.cpp:6-13 | Any four bytes are the bytes of the integer read from them. |
| Wire.Buffer.Out | src/protocol.cpp:75-104 | Exactly the encoding of the value is appended. |
| Wire.Buffer.EndArr | src/protocol.cpp:111-120 | The patched bytes are those of an array announced with that count from the start. |
| Wire.Buffer.ResponseEnd | src/protocol.cpp:122-140 | What was appended since the header becomes one frame; a body over the limit is replaced by the error. |
| Requests.EncodeRequest | src/protocol.cpp:142-162 | The framed body exactly when the command is within both limits, nothing otherwise. |
| Requests.ParseReq | src/protocol.cpp:24-49 | Accepts exactly the bodies of commands within both limits, and returns the command whose body it is. |
| Requests.BodyPrefixFree | src/protocol.cpp:24-49 | No body is a strict prefix of another, and a body has one command. |
| Connections.ScanResumes | src/server_loop.cpp:104-132 | One pass over a stream can be interrupted after any byte and resumed with the bytes left over. |
| Connections.DecidedEarly | src/server_loop.cpp:104-132 | Once a prefix has ended the connection, later bytes change neither the commands nor the decision. |
| Connections.RequestsScan | src/server_loop.cpp:104-132 | Requests sent one after the other are the commands executed, in order, whatever follows them. |
| Connections.StreamIs | src/server_loop.cpp:104-132 | Every stream is well-formed requests and then the beginning of one, or a malformed one, and it closes the connection in the second case only. |
| Connections.ClosesExactly | src/server_loop.cpp:104-132 | Requests followed by one that announces too many bytes, or whose bytes are no command, are executed and close the connection; followed by the beginning of one they do not. |
| Connections.OneFrameEach | src/server_loop.cpp:125-128 | A client that cuts the responses into frames finds one answer per command, in order, and the error for an answer that is too long. |
| Connections.Conn.TryOneRequest | src/server_loop.cpp:104-132 | Takes exactly the first request of the pass over what is buffered and appends its response frame, or finds that the pass stops there and whether it closes. |
| Connections.Conn.HandleWrite | src/server_loop.cpp:134-150 | Exactly the bytes the socket takes leave, from the front, and only an error closes; bytes written followed by bytes waiting stay the frames of the executed commands, and the connection wants to write exactly while bytes wait. |
| Connections.Conn.HandleRead | src/server_loop.cpp:152-175 | After any chunk, the commands executed, the bytes left and the close decision are those of one pass over everything received; as much of the answers leaves as the socket takes; an end of file or an error closes. |
| Connections.Conn.Turn | src/server_loop.cpp:293-301 | One poll round keeps all of that and moves exactly the bytes that the poll and the socket allow; a write is only tried with bytes waiting. |
| Connections.Conn.Serve | src/server_loop.cpp:104-175 | For every stream, every way it is cut into reads and every way responses are taken: how far reading and writing come is decided by the rounds; the commands executed and the close decision are those of one pass over the stream; bytes written followed by bytes waiting are the response frames in request order; and enough willing rounds get everything read and answered. |
| Connections.AllServed | src/server_loop.cpp:134-175 | Within as many willing rounds as there are bytes to read and to write, everything is read and answered, or the connection is closed. |
| Tagged.EncodeCancel | src/protocol.cpp:75-120 | A tagged value is cut off the front of bytes in one way only. |
| Tagged.FixedValues | README.md:100-107 | One value of every tag, byte by byte. |
| Tagged.FixedRequest | README.md:100-107 | A request, byte by byte. |
| Tagged.Decode | src/client.cpp:18-96 | Accepts exactly when a well-formed value within 64 levels stands at the front, consumes exactly its encoding and prints that value. |
| Tagged.DecodeArr | src/client.cpp:74-92 | The same for arrays, whose items are decoded one after the other. |
| Tagged.ReadBack | src/client.cpp:18-96 | Every value within 64 levels is read back from its encoding followed by any bytes. |
| Readable.AnswersReadable | src/kv_store.cpp:371-437 | In every run from an empty store, an answer that fits in a response is one that the format can carry and the client accepts. |
| Readable.ClientReads | src/client.cpp:18-96 | The client prints exactly the answer that the abstract map dictates, and consumes all of it. |
| Proxy.ParseKeys | src/proxy.cpp:32-54 | Accepts exactly the encoded lists of strings, to the last byte, and returns the strings. |
| Proxy.MergeKeyArrays | src/proxy.cpp:30-60 | If every body is a list of strings, the encoding of their concatenation is appended; if any is not, nothing is. |
| Proxy.ExtractBody | src/proxy.cpp:62-73 | Accepts exactly the frames and returns their body. |
| Sharding.FixedShards | tests/test_sharding.cpp:12-13 | The keys a and b among three shards. |
| Proxy.ShardRequest | src/shard_main.cpp:65-73 | A key of another shard is refused and changes nothing; any other command is executed. |
| Proxy.Rpc | src/tcp_rpc.cpp:130-134 | The command survives encoding and parsing, and the response is the frame of the shard's answer. |
| Proxy.Scatter | src/proxy.cpp:136-148 | Every shard executes the command once, in turn, and its answer is collected; no shard disturbs another. |
| Proxy.OnRequest | src/proxy.cpp:132-170 | The body appended and the new states of all shards are those of the cluster specification: ping answered alone, keys gathered from all, a keyed command from the one shard that owns its key, an error for the rest. No shard disturbs another, so requests can follow one another. |
| Cluster.GuardSilent | src/shard_main.cpp:65-70 | A shard never refuses a command that the proxy routes to it. |
| Cluster.ForeignRefused | src/shard_main.cpp:65-70 | A shard of several refuses a command for a key of another shard, with its error code, and keeps what it has. |
| Cluster.NeverForeign | src/shard_main.cpp:65-73 | Whatever clients ask a shard directly, it never holds a key of another shard. |
| Cluster.Routed | src/proxy.cpp:155-169 | For a keyed command the shard answers what one store would, and the store stays the disjoint union of the shards. |
| Cluster.Scattered | src/proxy.cpp:136-152 | keys lists exactly the keys that live until their own shard is asked, each once, and the store stays the disjoint union of the shards. |
| Cluster.OneInstant | src/proxy.cpp:136-152 | The keys gathered are those of one store at an instant if and only if every key is due at that instant exactly when it is due as its own shard is asked. |
| Cluster.SameKeys | src/proxy.cpp:136-152 | The same for the body sent: a store could send it at that instant if and only if that condition holds. |
| Cluster.NothingPasses | src/proxy.cpp:136-152 | If no deadline passes while the shards are asked, the body is one the store would send at the time of the command, and has as many bytes as any order of its keys. |
| Cluster.NoInstant | src/proxy.cpp:136-152 | Two keys due at 10 on two shards, asked at 5 and at 20: the answer is that of one store at no instant. |
| Cluster.TooManyKeys | src/proxy.cpp:136-152 | If the keys of a shard do not fit in a response, the proxy answers that it cannot merge them. |
| Cluster.UnroutableAnswer | src/proxy.cpp:155-158 | What the proxy cannot route, a store answers with the same error code. |
| Cluster.SameFrame | src/proxy.cpp:132-170 | The frame the client gets for a keyed command is byte for byte the one a store would send, also when the answer is too long. |
| Cluster.ShardTimer | src/shard_main.cpp:75-76 | Timers of a shard may run at any moment without being noticed. |
| Cluster.RunsAgree | src/proxy.cpp:132-170 | For every sequence of commands and timer steps under one clock, from equal contents, the proxy with its shards answers all the way as one store would. |
| ClusterRuns.RunCluster | src/proxy.cpp:132-170 | Any commands and shard timers, given to the proxy and its shards one after the other, make a run of the cluster, and the bytes appended are its answers. |
| ClusterRuns.RunBoth | src/proxy.cpp:132-170 | The structures of one store and those of a proxy with its shards, from equal contents and given the same commands at the same times: every answer agrees. |

## Left out

- Sockets, poll, signals, the file descriptor table, accepting and DNS: reads, writes and polls are given
  as inputs, and an RPC is a call.
- The idle-connection list and its timeout.
- The user interface, command-line parsing and `main`.
- `malloc`, `free` and destructors (`hm_clear`, `zset_clear`, `~Impl`): objects are only ever dropped, and
  what is freed is a list of entries.
- `thread_pool_init` and its failures: the pool starts with its workers created.
- HashMap.HMap.Insert: bucket arrays and chain pointers are sequences of sequences, so in-place update of
  a chain and aliasing between chains are not captured. `hcode & mask` is the remainder by a power of two,
  and sizes do not wrap, since memory runs out first.
- AvlNodes.Update: heights and counts do not wrap at 32 bits, since memory runs out first.
- TtlHeap.Heap.Update: the vector is a sequence that the methods reassign slot by slot.
- KvStore.KVStore.SetTtl: `now + ttl` does not wrap at 64 bits; it would take a clock of 2^63 ms.
- KvStore.KVStore.DoKeys: the 32-bit element count of an array is taken modulo 2^32 as in the code, and no
  limit on the number of keys is assumed.
- Tagged.Decode: for fewer than 2^31 bytes, since the code returns sizes as `int32_t`; a response has at
  most 32 MiB. Text on the terminal is represented by the value printed.
- Connections.Conn.Serve: one connection. The request handler is any function of the commands of that
  connection; other connections show only in its answers.
- Proxy.OnRequest: every shard can be reached and is listed under its own id; unreachable shards answer
  with errors of the proxy.
- Cluster.RunsAgree: the keys of each shard fit in a response; otherwise the proxy answers that it cannot
  merge them, where a store answers that the response is too big.
- Cluster.SameKeys: for a body within the limit of a response; a longer one is never sent.
- ThreadPool.DestroyReturns: from the broadcast on; before that, taking the mutex needs a fair scheduler.
