# Verified model of the knowledge-base-cpp data structures

This project models the five containers in `data_structures/include/data_structures/`
in Dafny and proves what each of their operations does:

- **LRU cache** (`lru.hpp`, module `Lru`). A key index (`m_lookup`), a reverse
  index from node to key (`m_reverse_lookup`) and a doubly linked recency list
  (`m_head` … `m_tail`), with `m_size` counted against a fixed `m_max_size`.
  - The nodes live in an arena (`nodes: seq<Entry<V>>`). A node's identity is its
    slot, and `next`/`prev` are slot indices (`Ptr`).
  - The ghost `Spine` lists the slots of the recency list from head to tail.
  - The ghost `Order` and `Values` are the cache as seen from outside. Module
    `LruSpec` defines that view and what `Get` and `Update` do to it.
  - Module `LruLinks` holds the invariant over plain values: the list is well
    linked, the two indexes are inverse, and they agree with the list and the slots.
    Module `LruSteps` proves that each step keeps that invariant.
- **Ring buffer** (`ring_buffer.hpp`, module `RingBuffers`). A fixed-capacity
  circular FIFO over an `array`, with read position `head`, write position `tail`
  and an `isFull` flag. Enqueuing into a full buffer overwrites the oldest value.
- **Queue, Stack and singly linked list** (`queue.hpp`, `stack.hpp`,
  `singley_linked_list.hpp`; modules `Queues`, `Stacks` and `LinkedLists`).
  - Each is a class over heap `Node` objects (`node.hpp`, module `Nodes`). The
    ghost `Spine` holds the nodes reachable from `head`, and `Contents` their values.
  - In the queue and the list, removing the last value clears `head` but leaves
    `tail` on the removed node. `Empty()` tests both pointers, so it stays false from
    then on. The model exposes this state, called *stale*:
    - `TailStale` records it.
    - `Stale` is the chain that starts at the removed node.
    - `Lost` holds the values later linked after that node. They count in `size`,
      but no walk from `head` reaches them.

The stack has no such state: its `Empty()` tests `head` only.

## Model

| member | source | states |
|---|---|---|
| Nodes.Node.constructor | data_structures/include/data_structures/node.hpp:11-13 | a new node holds the value and links to nothing |
| Stacks.Stack.constructor | data_structures/include/data_structures/stack.hpp:17 | a new stack is empty, with size 0 |
| Stacks.Stack.Empty | data_structures/include/data_structures/stack.hpp:69-73 | the null-head test holds exactly when the stack holds no value, and exactly when Size() is 0 |
| Stacks.Stack.Size | data_structures/include/data_structures/stack.hpp:63-67 | the counter equals the number of values on the stack |
| Stacks.Stack.Peek | data_structures/include/data_structures/stack.hpp:51-61 | the top value, or None on an empty stack; reads only |
| Stacks.Stack.Push | data_structures/include/data_structures/stack.hpp:19-34 | the value goes on top of the contents, Size() grows by one, the stack is not empty |
| Stacks.Stack.Pop | data_structures/include/data_structures/stack.hpp:36-49 | returns the top value and leaves the rest, with Size() one less (LIFO); on an empty stack returns None and changes nothing |
| Stacks.PushThenPopAll | data_structures/tests/tests.cpp:119-141 | pushing n values and popping n times yields all n values in reverse order and leaves the stack empty, with size 0 |
| Queues.Queue.constructor | data_structures/include/data_structures/queue.hpp:17 | a new queue is empty, with size 0, and not stale |
| Queues.Queue.Empty | data_structures/include/data_structures/queue.hpp:67-70 | true exactly when no value is reachable and the queue was never drained; then the size is 0 |
| Queues.Queue.Size | data_structures/include/data_structures/queue.hpp:62-65 | the counter equals the reachable values plus the lost ones; the reachable ones alone while not stale |
| Queues.Queue.Peek | data_structures/include/data_structures/queue.hpp:50-60 | the oldest reachable value, or None when `head` is null; reads only |
| Queues.Queue.Enqueue | data_structures/include/data_structures/queue.hpp:19-33 | the value is appended at the back of the contents, or after the stale node once the queue is stale; the size grows by one |
| Queues.Queue.LinkAfterTail | data_structures/include/data_structures/queue.hpp:27-31 | the new node is linked after `tail` and becomes `tail`, appending its value to the contents or, when stale, to the lost values |
| Queues.Queue.Deque | data_structures/include/data_structures/queue.hpp:35-48 | returns the oldest value and drops it, with the size one less (FIFO); on an empty queue returns None and changes nothing; the queue turns stale exactly when its last value leaves, and `tail` never moves |
| Queues.EnqueueThenPeek | data_structures/tests/tests.cpp:71-86 | after enqueuing values on a new queue, Peek yields the first one twice and the size counts them all |
| Queues.DrainThenEnqueue | data_structures/include/data_structures/queue.hpp:36-48 | dequeuing the only value leaves Empty() false; a value enqueued then counts in the size, but Peek does not see it |
| LinkedLists.LinkedList.constructor | data_structures/include/data_structures/singley_linked_list.hpp:17 | a new list is empty, with size 0, and not stale |
| LinkedLists.LinkedList.Empty | data_structures/include/data_structures/singley_linked_list.hpp:20-23 | true exactly when no value is reachable and the list was never emptied by PopFront; then the size is 0 |
| LinkedLists.LinkedList.Size | data_structures/include/data_structures/singley_linked_list.hpp:71-74 | the counter equals the reachable values plus the lost ones; the reachable ones alone while not stale |
| LinkedLists.LinkedList.PushFront | data_structures/include/data_structures/singley_linked_list.hpp:25-38 | the value is prepended to the contents and the size grows by one; `tail` moves only on an empty list |
| LinkedLists.LinkedList.LinkBeforeHead | data_structures/include/data_structures/singley_linked_list.hpp:32-36 | the new node is linked before `head` and becomes `head`; the contents gain its value at the front |
| LinkedLists.LinkedList.PopFront | data_structures/include/data_structures/singley_linked_list.hpp:40-53 | returns the front value and drops it, with the size one less; with a null `head` returns None and changes nothing; the list turns stale exactly when its last reachable value leaves |
| LinkedLists.LinkedList.PushBack | data_structures/include/data_structures/singley_linked_list.hpp:55-69 | the value is appended at the back of the contents, or after the stale node once the list is stale, where it counts in the size but is not reachable |
| LinkedLists.LinkedList.LinkAfterTail | data_structures/include/data_structures/singley_linked_list.hpp:62-66 | the new node is linked after `tail` and becomes `tail`, appending its value to the contents or, when stale, to the lost values |
| LinkedLists.PushFrontThenPop | data_structures/tests/tests.cpp:27-43 | after pushing values at the front, the size counts them, a pop yields the last value pushed, and the size drops by one |
| LinkedLists.PushBackThenPop | data_structures/include/data_structures/singley_linked_list.hpp:40-69 | after pushing values at the back, the size counts them (as tests.cpp:45-56 checks) and a pop, which that test does not make, yields the first value pushed |
| LinkedLists.PopLastThenPushBack | data_structures/include/data_structures/singley_linked_list.hpp:40-69 | popping the only value leaves Empty() false; a value then pushed at the back counts in the size, but the next pop returns None |
| RingBuffers.Advance | data_structures/include/data_structures/ring_buffer.hpp:28-30 | `(i + 1) % capacity` is the next position, wrapping to 0 at the end of the array |
| RingBuffers.RingBuffer.constructor | data_structures/include/data_structures/ring_buffer.hpp:17-19 | a new buffer has the given capacity, holds nothing, and has Size() 0 |
| RingBuffers.RingBuffer.Empty | data_structures/include/data_structures/ring_buffer.hpp:50-53 | true exactly when no value is retained, and exactly when Size() is 0 |
| RingBuffers.RingBuffer.Size | data_structures/include/data_structures/ring_buffer.hpp:55-71 | the number of retained values, at most the capacity, and the capacity when full |
| RingBuffers.RingBuffer.SizeWraps | data_structures/include/data_structures/ring_buffer.hpp:59-69 | when not full, Size() is `(tail - head) mod capacity` |
| RingBuffers.RingBuffer.Enqueue | data_structures/include/data_structures/ring_buffer.hpp:21-32 | a buffer that is not full appends the item and grows by one; a full one drops its oldest value and stays at capacity; the buffer is full exactly when Size() reaches capacity; `head` and `tail` stay in range and `isFull` implies they meet |
| RingBuffers.RingBuffer.Dequeue | data_structures/include/data_structures/ring_buffer.hpp:34-48 | returns the oldest retained value, drops it, clears the full flag, and lowers Size() by one, keeping the same array so later Enqueues may follow; on an empty buffer returns None and changes nothing |
| RingBuffers.OverwriteOldest | data_structures/include/data_structures/ring_buffer.hpp:23-48 | in a buffer of capacity 2, a third item overwrites the first: the size stays 2 and dequeues yield the second and third items, then None |
| RingBuffers.DequeueThenEnqueue | data_structures/include/data_structures/ring_buffer.hpp:21-48 | in a buffer of capacity 3, a dequeue followed by two enqueues wraps round and overwrites the oldest value: the buffer holds 3 items and yields the last three, then None |
| LruSpec.Get | data_structures/include/data_structures/lru.hpp:56-74 | the abstract Get: it yields a value exactly when the key is cached, that value is the key's, the key then comes first in the order, and no value changes |
| LruSpec.Update | data_structures/include/data_structures/lru.hpp:26-54 | the abstract Update as the code performs it: afterwards the key is cached with the new value, and every other cached key was cached before with the same value |
| LruSpec.UpdateIntended | data_structures/include/data_structures/lru.hpp:26-54 | the corrected Update: the key, if cached afterwards, holds the new value, every other cached key keeps its old value, and an empty capacity-0 cache stays empty |
| LruSpec.UpdatePresentKeepsKeys | data_structures/include/data_structures/lru.hpp:29-38 | updating a cached key evicts nothing: the same keys stay cached, the size is unchanged, the key holds the new value and is promoted |
| LruSpec.ConsistentLength | data_structures/include/data_structures/lru.hpp:78-81 | when the list holds exactly the indexed keys, the size is the list's length and within capacity |
| LruSpec.PromoteKeepsOthers | data_structures/include/data_structures/lru.hpp:67-68 | touching a key puts it first, keeps every other key in its relative order, and neither adds nor loses a key |
| LruSpec.GetPreserves | data_structures/include/data_structures/lru.hpp:56-74 | Get keeps the listed keys distinct and indexed, and keeps list and index in step |
| LruSpec.UpdatePreservesIndexed | data_structures/include/data_structures/lru.hpp:26-54 | Update keeps the listed keys distinct and indexed, for every capacity |
| LruSpec.EvictKeepsInvariants | data_structures/include/data_structures/lru.hpp:147-156 | when an absent key overflows the capacity and the tail key is evicted, the listed keys stay distinct and indexed, and with capacity at least 1 list and index stay in step within capacity |
| LruSpec.EvictPreservesConsistent | data_structures/include/data_structures/lru.hpp:140-157 | evicting the last listed key of a full cache to admit a new one keeps list and index in step |
| LruSpec.UpdatePreservesConsistent | data_structures/include/data_structures/lru.hpp:26-54 | with capacity at least 1, Update keeps the list exactly the indexed keys, and the size within capacity |
| LruSpec.UpdateEvictsLeastRecent | data_structures/include/data_structures/lru.hpp:140-157 | an absent key inserted into a full cache goes first holding the new value, evicts exactly the least recently touched key, keeps every other key and its value, and leaves the size at capacity |
| LruSpec.UpdateBelowCapacityGrows | data_structures/include/data_structures/lru.hpp:39-53 | an absent key inserted below capacity goes first with its value; nothing is evicted and the size grows by one |
| LruSpec.TouchProtects | data_structures/include/data_structures/lru.hpp:61-69 | a key touched by Get survives the next insertion whenever another key is listed |
| LruSpec.ZeroCapacityExceeded | data_structures/include/data_structures/lru.hpp:47-52 | with capacity 0, the first key is detached from the list but stays cached and counted, so the size exceeds the capacity |
| LruSpec.IntendedPreservesConsistent | data_structures/include/data_structures/lru.hpp:140-157 | the corrected update keeps list and index in step and the size within capacity, capacity 0 included |
| LruSpec.AsWrittenMatchesIntended | data_structures/include/data_structures/lru.hpp:26-54 | with capacity at least 1, the update as written is the corrected one |
| LruSpec.Fill | data_structures/tests/tests.cpp:154-164 | with capacity 3, three distinct keys fill the cache, the last inserted first |
| LruSpec.FillThenEvict | data_structures/tests/tests.cpp:166-170 | a fourth key evicts the first one inserted and keeps the other three values |
| LruSpec.TouchThenEvict | data_structures/tests/tests.cpp:170-179 | in that cache the evicted key is absent and a Get of "bar" yields its value; re-inserting the evicted key then evicts "bazz" instead of "bar" |
| LruLinks.UnlinkedAt | data_structures/include/data_structures/lru.hpp:97-105 | joining a listed node's neighbours rewrites that node and its two neighbours and no other slot |
| LruLinks.UnlinkKeepsNext | data_structures/include/data_structures/lru.hpp:97-100 | after the unlink, every remaining node's `next` is its successor in the shortened list |
| LruLinks.UnlinkKeepsPrev | data_structures/include/data_structures/lru.hpp:102-105 | after the unlink, every remaining node's `prev` is its predecessor in the shortened list |
| LruLinks.DetachEnds | data_structures/include/data_structures/lru.hpp:107-119 | `head` or `tail` moves to the neighbour when the detached node is at an end; detaching the only node leaves both null |
| LruLinks.DetachKeepsLinked | data_structures/include/data_structures/lru.hpp:95-123 | after unlinking a listed node, the rest of the list is well linked both ways, with the new head and tail |
| LruLinks.DetachSlots | data_structures/include/data_structures/lru.hpp:95-123 | Detach leaves the rest of the list well linked, keeps every value, changes only listed slots, and clears the node's links |
| LruLinks.TouchKeepsIndexing | data_structures/include/data_structures/lru.hpp:61-68 | moving a cached key's node to the front keeps both indexes agreeing with the list once the key is promoted in the order |
| LruSteps.TouchKeepsRepresents | data_structures/include/data_structures/lru.hpp:61-68 | Detach then Prepend of a cached key's node keeps the whole invariant, with the key promoted |
| LruSteps.RevalueKeepsRepresents | data_structures/include/data_structures/lru.hpp:34-35 | giving a cached key's node a new value keeps the invariant, with that key's value replaced |
| LruSteps.FreshSlot | data_structures/include/data_structures/lru.hpp:47 | a newly made node is in neither index nor the list |
| LruSteps.RoomKeepsRepresents | data_structures/include/data_structures/lru.hpp:47-52 | below capacity, the new node and key go in front of the list and both indexes, and the size grows by one |
| LruSteps.EmptyKeepsRepresents | data_structures/include/data_structures/lru.hpp:142-152 | with capacity 0, TrimCache detaches the new node itself, which is not yet in the reverse index: the list stays empty and the key is still indexed and counted |
| LruSteps.EvictKeepsRepresents | data_structures/include/data_structures/lru.hpp:147-156 | at capacity, the tail's key leaves both indexes and the tail leaves the list, while the new key goes in front |
| LruSteps.InsertKeepsRepresents | data_structures/include/data_structures/lru.hpp:39-53 | the absent-key branch of Update keeps the invariant in each of its three cases |
| Lru.LRUCache.constructor | data_structures/include/data_structures/lru.hpp:19-23 | a new cache is empty, with size 0, and MaxSize() is the given capacity; the capacity is a constant and never changes |
| Lru.LRUCache.Size | data_structures/include/data_structures/lru.hpp:78-81 | the number of cached keys; with capacity at least 1, also the length of the recency list, and at most the capacity |
| Lru.LRUCache.MaxSize | data_structures/include/data_structures/lru.hpp:84-87 | the capacity given at construction, a constant field, so no operation changes it |
| Lru.LRUCache.Empty | data_structures/include/data_structures/lru.hpp:89-92 | true exactly when no key is cached |
| Lru.LRUCache.Get | data_structures/include/data_structures/lru.hpp:56-74 | a present key yields its value and moves to the front of the order, the others keeping their order; an absent key yields None and changes nothing; the invariant holds |
| Lru.LRUCache.Touch | data_structures/include/data_structures/lru.hpp:67-68 | Detach then Prepend of a cached key's node keeps the invariant, promotes the key, and keeps the node's value |
| Lru.LRUCache.Update | data_structures/include/data_structures/lru.hpp:26-54 | the cache after the call is LruSpec.Update of the cache before it, and the invariant holds |
| Lru.LRUCache.Replace | data_structures/include/data_structures/lru.hpp:29-38 | a present key takes the new value and moves to the front; nothing is evicted |
| Lru.LRUCache.Revalue | data_structures/include/data_structures/lru.hpp:34-35 | the key's node takes the new value and no link changes; the invariant holds |
| Lru.LRUCache.Add | data_structures/include/data_structures/lru.hpp:39-53 | an absent key is inserted as LruSpec.Update says, evicting at most the least recently used key; the invariant holds |
| Lru.LRUCache.MoveToFront | data_structures/include/data_structures/lru.hpp:36-37 | Detach then Prepend: the node becomes the head, the list is otherwise as before, and no value changes |
| Lru.LRUCache.Insert | data_structures/include/data_structures/lru.hpp:47-52 | a new node is counted, prepended, the cache is trimmed, and only then is the key indexed; each outcome of the trim is spelled out |
| Lru.LRUCache.Admit | data_structures/include/data_structures/lru.hpp:47-48 | a new unlinked node holding the value is made and counted |
| Lru.LRUCache.Index | data_structures/include/data_structures/lru.hpp:51-52 | the key and its node enter both indexes |
| Lru.LRUCache.TrimCache | data_structures/include/data_structures/lru.hpp:140-157 | within capacity nothing changes; otherwise the tail node is detached and, when it is indexed, its key leaves both indexes and the size drops by one |
| Lru.LRUCache.Detach | data_structures/include/data_structures/lru.hpp:95-123 | the node leaves the list, its neighbours are joined, `head`/`tail` move off it, its links are cleared, and an unlinked node stays as it is |
| Lru.LRUCache.Prepend | data_structures/include/data_structures/lru.hpp:125-138 | the node becomes the head; on an empty list it becomes the tail too; the list stays well linked |

## Left out

- `Print()` (queue.hpp, stack.hpp and singley_linked_list.hpp) writes to the console. It is not modelled.
- Memory management is not modelled:
  - `shared_ptr` reference counting, node deallocation and the `prev`/`next` ownership cycle are left out.
  - In the LRU arena, a detached node's slot is never reused.
- `std::unordered_map` hashing and the `reserve` calls in the LRU constructor are left out. The indexes are Dafny maps, and `reserve` has no observable effect.
- Move and copy semantics (`std::move`) are not modelled: values are copied.
- `std::size_t` counters are unbounded `nat`s, and wrap-around is not modelled. In a live container each count is bounded by the nodes in memory. A stale Queue or LinkedList is different: each later `Enqueue` or `PushBack` frees the previous tail node yet still increments `m_size`, so the count grows while memory stays constant. Reaching 2^64 would still take 2^64 such calls, which is far beyond any practical run.
- The singly linked containers never use the `prev` field of `node.hpp`. It is present in `Nodes.Node` and ignored.
- Queues.Queue.Deque: requires `Empty() || head != null`. On a stale queue the source follows the null `head`, which is undefined behaviour.
- RingBuffers.RingBuffer.Enqueue: requires a positive capacity. With capacity 0 the source writes past the empty vector and takes `% 0`.
- Lru.LRUCache.TrimCache: requires a non-empty list. Its only caller runs right after Prepend. On an empty list the source would follow a null `m_tail`.
- LruSpec.Fill, LruSpec.FillThenEvict, LruSpec.TouchThenEvict: these state the test scenario for any four distinct keys and any values, not for the string and integer literals.
  - They leave out the Gets of a key just inserted. That key is already first, so those Gets change nothing.
  - The scenario is proved on the abstract cache, whose link to the class is the contract of `Lru.LRUCache.Update` and `Lru.LRUCache.Get`.
- The tests call `MaxSize()`/`Size()` on the cache and `Size()` on the queue, whereas the code defines `max_size()`/`size()`. The model follows the behaviour, and its names follow the tests.

## Findings

| source | as written | input that shows it | evidently intended | confidence | as-written member | corrected member |
|---|---|---|---|---|---|---|
| data_structures/include/data_structures/lru.hpp:47-52 | `m_size` is incremented and TrimCache runs before the new node is entered in `m_reverse_lookup`. With `max_size == 0`, TrimCache detaches the new node, cannot find its key, and leaves it cached and counted. | `LRUCache(0)`, then `Update(k, v)`: `size() == 1 > max_size() == 0`, and `k` stays cached though it is on no list | a capacity-0 cache keeps nothing, and the size never exceeds the capacity | high (not executed) | LruSpec.ZeroCapacityExceeded | LruSpec.IntendedPreservesConsistent |

The class follows the code as written. `LruSpec.AsWrittenMatchesIntended` proves that the two updates agree for every capacity of at least 1. So the consistency invariant and all eviction properties above hold whenever the capacity is positive.
