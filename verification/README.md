# linked_list_c — a Dafny model of the list engine and its three façades

`linked_list_c` is an intrusive singly-linked list for nodes that may come
from a foreign allocator. One engine, `InnerList`, holds a head address, an
iteration cursor and a destruction policy:

- `DropType::First`: one destructor call, on the head;
- `DropType::Each`: one call per node, head to tail.

The engine prepends chains (`add`), absorbs another engine (`combine`),
reports its head, destroys its chain when dropped and iterates with a small
cursor machine. Three façades fix how the engine is built:

- `List` owns boxed nodes, uses `Each` with a dealloc closure, and can be
  built from a `Vec`;
- `CustomList` takes a caller's destructor;
- `ConstList` takes over another list's engine and only iterates.

The model:

- Addresses are `nat` and `0` is null. Memory is a heap `map<Addr, Node>`.
  A `Node` has a `next` link and a `val` payload, which stands for every
  other field of the element type.
- `Chains.IsChain(h, a, s)` says that following links from `a` visits the
  distinct nodes `s` and then reaches null. Operations that walk the list
  take the chain as a ghost argument; that is the caller's obligation in the
  source.
- A destructor call is an entry in a log. A call also removes its node from
  the heap, so reading a node after its destructor ran fails to verify. This
  is how the model checks that `Drop` reads each successor first.
- The destructor function itself is a tag, `DropFn`: `Dealloc` is the
  closure the owning list and the view install, and `Custom(id)` is a
  caller's function.
- The source leaves some inputs undefined. These are preconditions:
  - `add` with a null `elem` into a non-empty list;
  - `combine` of an empty donor into a non-empty list, which reaches the same
    null dereference;
  - `combine` of a head-only engine with a per-node engine;
  - a cursor that points outside the heap.
- `next`, `head` and the façades' iteration read the heap but never return
  one, so they cannot change a link; only `add` and `combine` write.
- The allocator of `From<Vec>` is a parameter: a sequence of distinct,
  unused, non-null addresses, one per value.

## Model

| member | source | states |
|---|---|---|
| `LlItem.SetNext` | src/llitem.rs:21-29 | after the write `get_next` reads the new successor and the payload is unchanged; the result is None exactly when the old successor was null, and otherwise holds that old successor |
| `LlItem.SetNextUndo` | src/llitem.rs:21-29 | writing back the value `set_next` returned restores the node, so the result carries everything the write overwrote |
| `LlItem.SetNextTwice` | src/llitem.rs:18-28 | a second write overrides the first and reports the first write's value as the previous successor |
| `LlItem.SetLink` | src/innerlist.rs:57 | writing the tail link through `set_next` changes only that node's `next`; every other node and the allocated set stay the same |
| `Chains.ChainSplice` | src/innerlist.rs:51-59 | linking the tail of a chain `es` to the start of a disjoint chain `ls` gives the chain `es + ls` |
| `InnerList.HeadIsFirstNode` | src/innerlist.rs:74-77 | `head` is the chain's first node, and it is null exactly when the chain is empty |
| `InnerList.Add` | src/innerlist.rs:50-61 | on an empty list only the head moves and no link changes; otherwise the loop finds the tail of `elem`'s chain and links it to the old head, so the chain becomes `es + ls`; only the tail's link changes; payloads, the cursor and the policy are kept |
| `InnerList.AddSpecSplices` | src/innerlist.rs:50-59 | the state `add` leaves behind has `elem` as head, the old cursor and policy, and the chain `es + ls` |
| `InnerList.AddKeepsIteration` | src/innerlist.rs:50-61 | an iteration under way yields the same next item after an `add` as it would have without it |
| `InnerList.Combine` | src/innerlist.rs:67-70 | the donor's chain is spliced in front (`os + ls`), and the receiver's cursor and policy are kept |
| `InnerList.CombineIteratesDonorFirst` | src/innerlist.rs:67-70 | after `combine`, iteration from the reset cursor yields the donor's nodes, then the receiver's, then nothing |
| `InnerList.CombineDestroysEachOnce` | src/innerlist.rs:63-70 | under `Each`, destroying the combined engine calls the destructor once on every node of both chains and on no other address |
| `InnerList.NaiveAddDestroysTwice` | src/innerlist.rs:64-65 | adding the donor's head with `add` and then dropping both engines destroys the donor's first node twice, which is the double free `combine` avoids |
| `InnerList.Drop` | src/innerlist.rs:80-97 | `First`: one call on the head if it is non-null, none otherwise, and no traversal. `Each`: one call per chain node in head-to-tail order, each node once, each successor read before its node is destroyed; exactly the destroyed nodes leave the heap |
| `InnerList.Next` | src/innerlist.rs:103-124 | head and policy never change; an empty list yields None; a reset cursor yields the head; a yielded item is the new cursor; a None from a non-empty list leaves the cursor null |
| `InnerList.NextPreserves` | src/innerlist.rs:103-124 | a cursor that is null or on the chain stays null or on the chain, and each node it reads is allocated |
| `InnerList.RunKeepsList` | src/innerlist.rs:103-124 | any number of `next` calls leaves the head and policy as they were and yields one item per call |
| `InnerList.IterFrom` | src/innerlist.rs:114-123 | from a cursor on node `k`, the remaining calls yield the nodes after `k`, then None, and leave the cursor null |
| `InnerList.IterYieldsChain` | src/innerlist.rs:103-124 | from the reset cursor, iteration yields the chain in order, then None, and returns to the starting state; an empty list yields None at once |
| `InnerList.IterRestarts` | src/innerlist.rs:108-113 | after exhaustion the next call restarts at the head, so two passes yield the chain twice |
| `List.FromAdoptsChain` | src/list.rs:11-14 | `List::from(first)` is an owning `Each` list headed by `first`; it iterates the chain of `first` and destroys every node of it |
| `List.NewIsEmpty` | src/list.rs:15-18 | `List::new()` is empty and owning, its first `next` is None, and destroying it calls nothing |
| `List.Add` | src/list.rs:19-21 | delegates to the engine's `add`: same heap and engine result, the chain becomes `es + ls`, and the list stays owning |
| `List.Combine` | src/list.rs:22-24 | delegates to the engine's `combine`: the donor's chain goes in front and the list stays owning |
| `List.Next` | src/list.rs:30-35 | yields what the engine's `next` yields and moves the engine the same way |
| `List.Drop` | src/list.rs:12-17 | destroying an owning list calls `Dealloc` on every node once, in chain order, and frees exactly the chain's nodes |
| `List.Push` | src/list.rs:46-49 | one loop step: a fresh node holding the value with a null link goes in front of the chain, and no earlier node changes |
| `List.FromVec` | src/list.rs:42-52 | one fresh node per value with a null link, prepended in vector order; the chain is the allocations reversed, so the values read head to tail are the vector reversed; the length equals the vector's; earlier nodes are untouched |
| `List.FromVecIteratesReversed` | src/list.rs:42-52 | iterating a list built from a vector yields its nodes last value first, then None |
| `List.AddTwoIteratesNewestFirst` | tests/tests.rs:26-37 | two single nodes added to a new list iterate as the second, the first, then None |
| `List.MultipleIterations` | tests/tests.rs:39-52 | adds interleaved with `next` leave the running iteration on course: second, then first, then None, with each add only moving the head and linking the new node to the old head |
| `List.MultipleIterationsFinalPass` | tests/tests.rs:52-55 | after the fifth add, the next pass restarts at the newest node and yields fifth down to first, then None |
| `CustomList.FromDestroysHeadOnly` | src/customlist.rs:16-18 | `CustomList::from` uses the caller's destructor under `First`: destruction is one call on the head whatever the chain length, or none for a null start; iteration yields the chain |
| `CustomList.NewIsEmpty` | src/customlist.rs:23-25 | `CustomList::new` is empty, head-only, yields None and destroys nothing |
| `CustomList.DropEachSkipsTail` | src/customlist.rs:27-32 | as written, `drop_each` builds a head-only engine, so on a two-node chain the second node never reaches the destructor |
| `CustomList.DropEachIntendedDestroysEach` | src/customlist.rs:27-29 | the documented `drop_each` is a per-node engine that destroys every adopted node once, head to tail |
| `CustomList.Add` | src/customlist.rs:33-35 | delegates to the engine's `add` and keeps the policy |
| `CustomList.Combine` | src/customlist.rs:36-38 | consumes the donor and puts its chain in front; under `First` the only destruction left is one call on the donor's head |
| `CustomList.Next` | src/customlist.rs:44-49 | exactly the engine's cursor machine |
| `ConstList.FromDestroysEach` | src/constlist.rs:14-18 | `ConstList::from(first)` is a per-node `Dealloc` engine headed by `first` that destroys every node once, in order |
| `ConstList.FromListTakesOver` | src/constlist.rs:28-32 | taking over a `List` keeps its head, cursor and policy, so the view destroys every node of the chain once and no second destruction exists |
| `ConstList.FromCustomTakesOver` | src/constlist.rs:34-38 | taking over a `CustomList` keeps its head, cursor and head-only policy with the same destructor |
| `ConstList.Next` | src/constlist.rs:21-26 | yields what the engine's `next` yields |
| `ConstList.ViewIsFrozen` | src/constlist.rs:10-26 | however long the view is iterated, its head, policy and chain stay the same, and it yields exactly what the engine yields |

## Findings

| source | as written | input that shows it | evidently intended | confidence | as-written member | corrected member |
|---|---|---|---|---|---|---|
| src/customlist.rs:30-31 | `drop_each` builds its engine with `InnerList::new`, the head-only `First` policy | a two-node chain `1 -> 2` adopted with `drop_each`: dropping it calls the destructor on `1` only | the doc comment (src/customlist.rs:27-29) promises one call per element, head first, which is `InnerList::drop_each` (`Each`) | not executed | `CustomList.DropEachSkipsTail` | `CustomList.DropEachIntendedDestroysEach` |

## Left out

- Logging through `trace!`: diagnostics only, with no effect on state.
- Real memory release (`drop_in_place`, `alloc::dealloc`, `Layout::for_value`) and boxing (`Box::new`, `Box::into_raw`, `Into`). A destructor is a log entry that also removes its node from the heap, and allocation is the caller-given address sequence of `List.FromVec`.
- What a `First` destructor does to the rest of the chain: it is a foreign bulk free whose effect the model cannot see, so only the head leaves the heap.
- `unsafe impl Send/Sync`, `PhantomData` and the lifetimes: type-level markers with no sequential behaviour.
- The unused `LlItemPtr` helper trait, the derive re-export and the module wiring in `src/lib.rs`.
- Undefined behaviour (dangling addresses, mixed-policy `combine`, null `elem` into a non-empty list) is excluded by preconditions, not modelled.
- The element type is fixed to one node shape with a string payload; the source is generic over any `LlItem` type.
- `Iterator::Item` is a reference to the node; the model yields the node's address.
