# Concurrent FIFO queue (ProducerConsumer) in Dafny

This project models the queue at the heart of the ProducerConsumer program: a
singly linked list of `CNode`s bracketed by a head and a tail sentinel, with
`push` splicing a new node in just before the tail and `pop` unlinking the
head's successor and setting its `marked` flag. The model is single-threaded:
the per-node `recursive_mutex` and the `atomic<bool>` are treated as plain
fields and no-op locks, and the lock-then-validate test that `push` and `pop`
run before mutating is stated as an assertion that is proved to hold on the
first pass, so the retry loop never repeats.

Two modules:

- `ConcurrentQueue` (`concurrent_queue.dfy`) is the heap model. `Node` has the
  mutable fields `value`, `next` and `marked`. `Queue` has the `head` and
  `tail` sentinels, the ghost sequence `nodes` of the value-bearing nodes, the
  ghost sequence `contents` of their values, a `Repr` footprint and the
  invariant `Valid()`. `Valid()` states these facts:
  - the chain is `head -> nodes[0] -> ... -> tail`, with no node repeated;
  - `tail.next` is null;
  - no linked node and neither sentinel is marked;
  - both sentinels hold the default value `dflt`;
  - `contents` lists the values of `nodes`.

  `Search`, `Push` and `Pop` follow the source line by line. `PopIdentity` is
  the pop with the intended node-identity test. `Drive` runs a sequence of
  calls.
- `QueueModel` (`queue_model.dfy`) gives the meaning of the operations on plain
  sequences. `PopByValue` is pop as written; `PopByIdentity` is pop as
  intended. `RunByValue` and `RunByIdentity` run a whole sequence of
  operations. The lemmas state FIFO order, the value-comparison quirk and the
  condition under which the two pops agree.

The sentinels are built with `T()` in the source; Dafny has no default
constructor for a type parameter, so the queue's constructor takes that value
as the parameter `dflt` and stores it in both sentinels. `head` and `tail` are
`const`: the source assigns them only in the constructor.

`pop` returns only the node's value, the tail's value when the queue looks
empty, and it tests for the tail by comparing values. The evident intent is a
node-identity test, `succ == tail`, together with a found flag. `Pop` models
the code as written and `PopIdentity` models that intent (see Findings).
Popped nodes are never freed.

## Model

| member | source | states |
|---|---|---|
| ConcurrentQueue.Node.constructor | Concurrent_Queue/src/main.cpp:25-29 | a new node holds the given value, has a null `next` and is unmarked |
| ConcurrentQueue.Queue.constructor | Concurrent_Queue/src/main.cpp:54-59 | a new queue is valid and empty: `head.next == tail`, `tail.next == null`, both sentinels unmarked and holding the default value, the footprint all fresh |
| ConcurrentQueue.Queue.Search | Concurrent_Queue/src/main.cpp:62-74 | the walk ends with `succ` the tail and `pred.next == succ`, `pred` being the head on an empty queue and otherwise the last value-bearing node; the list is only read |
| ConcurrentQueue.Queue.Push | Concurrent_Queue/src/main.cpp:78-104 | the validation after `search` holds on the first pass; the result is `true`; `contents` becomes `old(contents) + [x]`; the new node is fresh, unmarked, holds `x`, links to the tail and is appended to `nodes`, all earlier nodes staying in place; the invariant is preserved |
| ConcurrentQueue.Queue.Pop | Concurrent_Queue/src/main.cpp:107-141 | the validation holds on the first pass. The returned value and new `contents` are those of `PopByValue`: on an empty queue the default value and no change. When the front value equals the default: that value and no change to any object. Otherwise: the front value; `nodes` loses its first node, which is marked; `head.next` becomes that node's old `next`. The invariant is preserved |
| ConcurrentQueue.Queue.PopIdentity | Concurrent_Queue/src/main.cpp:115-136 | the same splice with the tail test by node identity: `found` is false and nothing changes exactly when the queue is empty; otherwise the front value is returned and its node unlinked and marked, as `PopByIdentity` says |
| ConcurrentQueue.Queue.Drive | Concurrent_Queue/src/main.cpp:78-141 | any sequential run of pushes and pops keeps the invariant (so the sentinels stay in place and unmarked), and its final contents and popped values are those of `RunByValue` |
| QueueModel.PopAgreement | Concurrent_Queue/src/main.cpp:122-131 | the value test and the identity test give the same pop exactly when the queue is empty or its front value differs from the default |
| QueueModel.FifoByValue | Concurrent_Queue/src/main.cpp:92-131 | with no value equal to the default ever queued, the values pops return (other than the default returned on empty) are the values pushed, in push order, followed by what is still queued |
| QueueModel.FifoByIdentity | Concurrent_Queue/src/main.cpp:115-131 | with the identity test, for any values at all, the found values are the values pushed, in push order, followed by what is still queued |
| QueueModel.StuckOnDefault | Concurrent_Queue/src/main.cpp:122-125 | once the front value equals the default, every later pop returns the default and every pushed value stays queued behind it |
| QueueModel.ValueMatchesIdentity | Concurrent_Queue/src/main.cpp:122-131 | with no value equal to the default ever queued, a run with the value test leaves the same contents and returns the same values as with the identity test |
| ConcurrentQueue.PopsInPushOrder | Concurrent_Queue/src/main.cpp:78-141 | pushing three values that differ from the default and popping four times returns them in order, then the default for the empty queue |
| ConcurrentQueue.DefaultBlocksQueue | Concurrent_Queue/src/main.cpp:120-136 | after pushing the default value and then `a`, two pops both return the default value and `a` is never returned |
| ConcurrentQueue.DefaultPassesByIdentity | Concurrent_Queue/src/main.cpp:120-136 | with the identity test the same two pops return the default value and then `a`, and a third pop finds the queue empty |

## Findings

| source | as written | input that shows it | evidently intended | confidence | as-written member | corrected member |
|---|---|---|---|---|---|---|
| Concurrent_Queue/src/main.cpp:122 | `pop` treats the queue as empty when the head's successor has the same value as the tail sentinel, `T()` | push `T()` (an empty string for the program's `std::string` queue), push `a`, pop, pop: both pops return `T()`, nothing is unlinked, and `a` is never returned | the tail test compares nodes, `succ == tail`, so every pushed value comes out in order | not executed | QueueModel.StuckOnDefault | ConcurrentQueue.Queue.PopIdentity |

The as-written side is also shown on the heap by
`ConcurrentQueue.DefaultBlocksQueue`. On the corrected side,
`QueueModel.FifoByIdentity` proves FIFO for all values, and
`ConcurrentQueue.DefaultPassesByIdentity` runs the same input. `Pop`, `Drive`
and `RunByValue` keep the behaviour as written. `QueueModel.ValueMatchesIdentity`
shows the two behaviours agree whenever no default value is pushed.

## Left out

- Locking (`recursive_mutex`, `lock`, `unlock`) and the `atomic<bool>` flag (Concurrent_Queue/src/main.cpp:15-24): concurrency primitives. Locks are no-ops and `marked` is a plain field.
- Thread interleavings, lock ordering, linearizability and the lock-discipline properties: the model is single-threaded.
- The retry behaviour of the `while (1)` loops in `push` and `pop` (Concurrent_Queue/src/main.cpp:84, 113): validation can only fail under contention. Sequentially it is proved to pass on the first pass, so the loop body runs once and is written without the loop.
- The local `res` in `pop` (Concurrent_Queue/src/main.cpp:111, 124, 130) is never returned. It appears only as the `removed` field of `PopByValue`'s result.
- The destructor (Concurrent_Queue/src/main.cpp:44-51): a defect. `p` is never advanced, so `while (p)` never terminates and keeps calling `pop` forever: on an empty queue once it drains, or on a queue whose front value equals `T()`, which never drains (`QueueModel.StuckOnDefault`). No terminating behaviour exists to model.
- Memory reclamation: popped nodes are never deleted in the source. The model drops them from `Repr` and leaves them to Dafny's garbage-collected heap.
- Allocation failure in `push`: `new` cannot fail in Dafny.
- `Producer`, `Consumer` and `main` (Concurrent_Queue/src/main.cpp:145-211): thread spawning, `stringstream` and `cout` output, `stoi` argument parsing and `cin`. These are I/O and driver plumbing. `Drive` stands for one thread's sequence of calls.
