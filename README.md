# Deque over a doubly linked list, and a queue over two stacks

This project is a Dafny model of two small Java containers, with proofs about them.

- **`LinkedDeque`** (`linked_deque.dfy`) models `DList`, a doubly linked list of `DNode`s. The list has two permanent sentinel nodes, `header` and `trailer`.
  - It also models `DListDeque`, a double-ended queue whose every operation is one `DList` call.
  - Nodes are heap objects. `insertAfter`, `insertBefore` and `remove` relink `prev`/`next` in place.
  - The list's meaning is given by two ghost sequences:
    - `Chain`: every node, from `header` to `trailer`;
    - `Contents`: the values of the data nodes, front to back.
  - `Valid()` ties the heap to those sequences:
    - `next` links walk `Chain` forwards and `prev` links walk it backwards;
    - no node occurs twice;
    - the sentinels hold no value;
    - `size` counts the data nodes.
- **`TwoStackQueue`** (`stack_queue.dfy`) models `StackQueue`, a FIFO queue built from two stacks, `inStack` and `outStack`, plus a `size` counter.
  - Each stack is a `seq` whose top is its last element.
  - The queue the object stands for is `Reverse(outStack) + inStack`.
  - Each operation is specified by its effect on that queue and on both stacks.
  - A reference model of the `Queue` interface on plain sequences (`Next`, `Answer`, `Answers`, `Final`) comes with a proof of first-in, first-out order for every run of calls (`RunIsFifo`). `Enqueue`, `First` and `Dequeue` each state that they take exactly one step of it. `Replay` runs any sequence of calls on a `StackQueue` object and carries that proof over to the object.
- `Options.Option` stands in for Java's `null` results.

## Model

| member | source | states |
|---|---|---|
| LinkedDeque.DNode.constructor | src/DListDeque.java:226-230 | the new node holds the given payload and links |
| LinkedDeque.DNode.SetNext | src/DListDeque.java:248-250 | only `next` changes, and it becomes the argument |
| LinkedDeque.DNode.SetPrev | src/DListDeque.java:253-255 | only `prev` changes, and it becomes the argument |
| LinkedDeque.DList.constructor | src/DListDeque.java:124-129 | a new list is valid and empty, has `size == 0`, and `header.next == trailer` and `trailer.prev == header` |
| LinkedDeque.DList.Size | src/DListDeque.java:131-133 | the result is the number of data nodes, i.e. the length of `Contents` |
| LinkedDeque.DList.IsEmpty | src/DListDeque.java:135-137 | true exactly when the list holds no values |
| LinkedDeque.DList.GetFirst | src/DListDeque.java:139-142 | null exactly when the list is empty; otherwise the node right after `header`, holding the front value |
| LinkedDeque.DList.GetLast | src/DListDeque.java:144-147 | null exactly when the list is empty; otherwise the node right before `trailer`, holding the back value |
| LinkedDeque.DList.GetNext | src/DListDeque.java:149-153 | the result is null or `v.next`, never the trailer; for the node at position `k` of a valid list it is the node at `k + 1`, or null when that is the trailer or there is none |
| LinkedDeque.DList.GetPrev | src/DListDeque.java:155-159 | the result is null or `v.prev`, never the header; for the node at position `k` of a valid list it is the node at `k - 1`, or null when that is the header or there is none |
| LinkedDeque.DList.InsertAfter | src/DListDeque.java:164-170 | a fresh node holding `d` is linked right after `v`, the value enters `Contents` at `v`'s position, the list stays valid, and no other node's links change |
| LinkedDeque.DList.InsertBefore | src/DListDeque.java:173-179 | a fresh node holding `d` is linked right before `v`, the value enters `Contents` just ahead of `v`'s value, the list stays valid, and no other node's links change |
| LinkedDeque.DList.AddFirst | src/DListDeque.java:181-183 | prepends `d` to `Contents` through a fresh node after `header` |
| LinkedDeque.DList.AddLast | src/DListDeque.java:185-187 | appends `d` to `Contents` through a fresh node before `trailer` |
| LinkedDeque.DList.Remove | src/DListDeque.java:189-197 | on a sentinel: returns None and changes nothing. On a data node: returns its value, unlinks exactly that node (its neighbours now point at each other), drops exactly that value, and leaves the removed node's own links unchanged; the list stays valid |
| LinkedDeque.DList.ToString | src/DListDeque.java:200-214 | walking `next` from `header` until `trailer` yields exactly `Contents`, front to back |
| LinkedDeque.DListDeque.constructor | src/DListDeque.java:11-13 | a new deque is valid and empty |
| LinkedDeque.DListDeque.Size | src/DListDeque.java:15-17 | the number of elements |
| LinkedDeque.DListDeque.IsEmpty | src/DListDeque.java:19-21 | true exactly when the deque has no elements |
| LinkedDeque.DListDeque.First | src/DListDeque.java:23-25 | on a non-empty deque, the front element |
| LinkedDeque.DListDeque.Last | src/DListDeque.java:27-29 | on a non-empty deque, the back element |
| LinkedDeque.DListDeque.AddFirst | src/DListDeque.java:31-33 | `x` is put in front of the elements; every node of the list afterwards was already in it or is fresh, so the deque can be changed again by a caller allowed to change its list |
| LinkedDeque.DListDeque.AddLast | src/DListDeque.java:35-37 | `x` is put behind the elements; every node of the list afterwards was already in it or is fresh |
| LinkedDeque.DListDeque.RemoveFirst | src/DListDeque.java:39-41 | on a non-empty deque, returns the front element and drops exactly it; every node left in the list was already in it |
| LinkedDeque.DListDeque.RemoveLast | src/DListDeque.java:43-45 | on a non-empty deque, returns the back element and drops exactly it; every node left in the list was already in it |
| LinkedDeque.DListDeque.ToString | src/DListDeque.java:47-49 | the rendering lists the elements front to back |
| LinkedDeque.DemoDeque | src/DListDeque.java:52-55 | `addLast 5; addFirst 3; addFirst 7` on a new deque gives 7, 3, 5 |
| LinkedDeque.DequeDemo | src/DListDeque.java:52-60 | the demo's expected values: front 7, back 5, rendering 7, 3, 5; `removeLast` returns 5 and leaves 7, 3 |
| TwoStackQueue.Reverse | src/StackQueue.java:33-34 | the order in which elements leave a stack popped empty: position `i` holds the element `i` places from the top |
| TwoStackQueue.StepIsFifo | src/StackQueue.java:104-135 | for one call on the `Queue` interface, what it hands out followed by the queue after it equals the queue before it followed by what it adds |
| TwoStackQueue.RunIsFifo | src/StackQueue.java:100-103 | for any interleaving of `enqueue`, `dequeue` and `first`: the values dequeued, in order, followed by those still queued, equal the starting queue followed by the enqueued values |
| TwoStackQueue.StackQueue.constructor | src/StackQueue.java:16-20 | both stacks are empty, `size == 0`, and the queue is empty |
| TwoStackQueue.StackQueue.Size | src/StackQueue.java:22-24 | the length of the queue, which is the number of elements on both stacks |
| TwoStackQueue.StackQueue.IsEmpty | src/StackQueue.java:26-28 | true exactly when the queue is empty |
| TwoStackQueue.StackQueue.Enqueue | src/StackQueue.java:38-41 | `x` is pushed on `inStack` only and joins the back of the queue; `outStack` is untouched and `size` grows by one |
| TwoStackQueue.StackQueue.MoveInToOut | src/StackQueue.java:33-34 | the transfer loop empties `inStack` onto `outStack`, so the bottom of `inStack` ends on top; `size` is unchanged |
| TwoStackQueue.StackQueue.Refill | src/StackQueue.java:32-34 | the transfer runs only when `outStack` is empty; it preserves the queue and `size`, and leaves the front element on top of `outStack` |
| TwoStackQueue.StackQueue.First | src/StackQueue.java:30-36 | on an empty queue: None, and nothing changes. Otherwise: the front element; the queue and `size` are unchanged, and the stacks move only when `outStack` was empty |
| TwoStackQueue.StackQueue.Dequeue | src/StackQueue.java:43-50 | on an empty queue: None, and nothing changes. Otherwise: returns the front element, removes exactly it, and decrements `size`; the new contents of both stacks are stated |
| TwoStackQueue.StackQueue.DrainOut | src/StackQueue.java:60-64 | popping `outStack` empty yields its elements from the top down; `inStack` and `size` are untouched |
| TwoStackQueue.StackQueue.PourBack | src/StackQueue.java:74-75 | popping the scratch stack empty onto `outStack` pushes its elements in reverse |
| TwoStackQueue.StackQueue.ToString | src/StackQueue.java:52-78 | emits the queue front to back, and leaves the queue and `size` unchanged. On a non-empty queue it ends with `inStack` empty and every element on `outStack`, front on top |
| TwoStackQueue.Call | src/StackQueue.java:30-50 | one `enqueue`, `dequeue` or `first` call on a two-stack queue gives the answer the `Queue` interface prescribes and leaves the queue it prescribes |
| TwoStackQueue.Replay | src/StackQueue.java:100-135 | any run of calls on a two-stack queue gives the interface's answers and final queue, and the values dequeued, then those left, are the values queued at the start, then those enqueued |
| TwoStackQueue.QueueDemoStart | src/StackQueue.java:81-88 | the first half of the demo: `first` answers 0, the `dequeue` returns 0, the rendering is 1, 2, and `first` answers 1 |
| TwoStackQueue.QueueDemo | src/StackQueue.java:81-95 | the whole demo: the renderings 1, 2 then 1, 2, 3, 4, 5 then 2, 3, 4, 5, with `dequeue` returning 0 then 1 and `first` answering 0, 1 and 2 |

## Left out

- Text rendering: both `toString`s are modelled as the sequence of elements they visit, in order. The literal text and Java's element-to-string conversion are not modelled.
- The `main` methods and their console output: their call sequences are checked by `DequeDemo` and `QueueDemo`.
- `DNode`'s no-argument constructor and `setData` are unused by the list and are not modelled. A node's payload is therefore a `const`.
- `DNode.getData`, `getNext` and `getPrev` are plain field reads, and the model reads the fields directly.
- Java `null` as a stored element: stored values are `T`, and a data node holds `Some(d)`. Only the sentinels hold `None`.
- LinkedDeque.DList.InsertAfter, LinkedDeque.DList.InsertBefore and LinkedDeque.DList.Remove take a ghost position `k` of `v` in the list. The Java methods have no such parameter.
  - They also require `v` to be a node of this list. Java accepts any node, and a node of another list would be relinked into or out of that list; this is not modelled.
  - `insertAfter(d, trailer)` and `insertBefore(d, header)` dereference null in Java. The model excludes them by precondition.
- LinkedDeque.DList.GetNext and LinkedDeque.DList.GetPrev: for a node outside the list, such as one already removed, only the raw-link clause is stated.
- LinkedDeque.DListDeque.First, LinkedDeque.DListDeque.Last, LinkedDeque.DListDeque.RemoveFirst and LinkedDeque.DListDeque.RemoveLast require a non-empty deque. The `Deque` interface comments (src/DListDeque.java:85, 91, 109, 115) promise null on an empty deque. The code instead dereferences the null returned by `getFirst`/`getLast` (src/DListDeque.java:24, 28, 191). The model follows the code.
- StackQueue.ToString does not put the two stacks back as they were: it leaves `inStack` empty and the whole queue on `outStack`. Only the queue order is preserved, and the model states exactly that.
- `size` is a Java `int` and would wrap past 2^31 - 1 elements. The model uses unbounded integers.
- `java.util.Stack` internals: stacks are sequences with push, pop and peek at the end.
- Amortized cost (src/StackQueue.java:3-4) is not functional behaviour and is not modelled.
- Concurrency: neither class is thread-safe. The model is sequential.
