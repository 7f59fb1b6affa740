# double_list: a verified model of the sentinel-terminated doubly linked list

This project models `double_list<T>` from `deque.hpp`. It is the doubly linked list that the
`deque` container keeps its blocks in. The list is a chain of heap nodes linked by `pre` and
`nxt`. The chain ends in a sentinel node `tail`, which holds no value (`val == nullptr`) and has
a null `nxt`. The list is empty exactly when `head == tail`.

The model is imperative, like the source:

- `Node<T>` is a class with the mutable fields `val`, `pre` and `nxt`. The sentinel's `val` is `None`.
- `DoubleList<T>` is a class with the fields `head` and `tail`. It has two ghost fields that give
  its abstract value: `nodes` holds the real nodes in order and then the sentinel, and `contents`
  holds the values of the real nodes.
- `Valid()` ties the pointers to that view:
  - `head` is `nodes[0]` and `tail` is the last entry of `nodes`;
  - consecutive nodes are linked both ways;
  - `head.pre` and `tail.nxt` are null;
  - each real node holds the matching element of `contents`, and the sentinel holds nothing.
- `Valid()` does not say that nodes are pairwise distinct. The lemma `NodesDistinct` derives that
  from the links: only `head` has a null `pre`, so the chain cannot repeat a node.
- Every mutator rewires `pre`/`nxt` in place, as the source does. Each one is proved to keep
  `Valid()` and to change `contents` and `nodes` exactly as stated.
- `Iterator<T>` is a value holding the node pointer `p`, like the C++ iterator, which is copied
  by value. Stepping it returns the stepped iterator. Its methods take the list they point into
  as a ghost parameter, so that their contracts can speak of positions.
- Each throw (`invalid_iterator`, `container_is_empty`) is modelled as an `Err`/`Fail` value of
  the datatypes in `errors.dfy`, never as a precondition. Preconditions exclude what the source
  leaves undefined: a dangling iterator, and `erase(end())` on a non-empty list. For `Erase` and
  `SetAt` they also exclude an iterator into another list. The source handles that case, but its
  effect on the other list is not modelled (see Left out).

The copy constructor and `operator=` run the same `while (temp != tail)` loop (deque.hpp:44-47
and 60-63). Here that loop is written once, as `AppendCopies`, and both call it. The second
branch of `erase` (deque.hpp:248-253) is the method `UnlinkAt`, which `Erase` calls.

Two points follow the code, not its comments:

- `empty()` returns `head != tail`, which is true for a non-empty list. This is recorded under
  Findings.
- `erase` has no guard for the end position, although its comment says it does nothing there.
  On an empty list `end()` equals `head`, so the call goes to `delete_head`, which throws
  `container_is_empty`; `Erase` models that error. On a non-empty list the code writes through
  the sentinel's null `nxt`, so `Erase` requires that `end()` is passed only for an empty list.

## Model

| member | source | states |
|---|---|---|
| `DoubleList.Node.constructor` | deque.hpp:15-23 | A new node holds the given value, and both of its links are null. |
| `DoubleList.DoubleList.DistinctAt` | deque.hpp:15-30 | Two different positions of a valid list hold different nodes. The proof goes by induction along the `pre` links back to `head`. |
| `DoubleList.DoubleList.OnlyAt` | deque.hpp:15-30 | The node at a given position of a valid list occurs at no other position. |
| `DoubleList.DoubleList.NodesDistinct` | deque.hpp:15-30 | A valid list repeats no node. So it is acyclic, and the sentinel is reached exactly once. |
| `DoubleList.DoubleList.IndexOfAt` | deque.hpp:234-240 | In a valid list, the position that `erase` speaks of is well defined: looking up the node at position `i` finds `i`. |
| `DoubleList.DoubleList.EmptyIffHeadIsTail` | deque.hpp:32-39 | `head == tail` holds exactly when `contents` is empty. |
| `DoubleList.DoubleList.constructor` | deque.hpp:36-39 | A new list is valid and empty, and its only node is a fresh sentinel. |
| `DoubleList.DoubleList.Copy` | deque.hpp:40-48 | The copy holds `other`'s values in order. Every node of the copy is fresh, so no node is shared with `other` (a deep copy). |
| `DoubleList.DoubleList.AppendCopies` | deque.hpp:43-47 | Walking `other` from `head` up to its sentinel and inserting each value at the tail turns an empty list into one with `other`'s contents. The sentinel stays the same, and every real node is fresh. |
| `DoubleList.DoubleList.Assign` | deque.hpp:53-65 | After `operator=` the list holds `other`'s old contents. Self-assignment leaves `nodes`, `head` and `tail` unchanged. Otherwise every node is fresh. |
| `DoubleList.Iterator.Increment` | deque.hpp:104-110 | `++it` fails with `InvalidIterator` exactly when `p` is null or is the sentinel. Otherwise it moves from position i to position i+1, so the last element steps onto `end()`. |
| `DoubleList.Iterator.PostIncrement` | deque.hpp:93-100 | `it++` fails in the same cases as `++it`. Otherwise it gives the stepped iterator and the unchanged copy from before the step. |
| `DoubleList.Iterator.Decrement` | deque.hpp:125-131 | `--it` fails with `InvalidIterator` exactly when `p` is null or is `head`. Otherwise it moves from position i to position i-1. |
| `DoubleList.Iterator.PostDecrement` | deque.hpp:114-121 | `it--` fails in the same cases as `--it`. Otherwise it gives the stepped iterator and the copy from before the step. |
| `DoubleList.Iterator.Deref` | deque.hpp:136-141 | `*it` fails with `InvalidIterator` exactly when `p` is null or is the sentinel. On the real node at position i it gives `contents[i]`. |
| `DoubleList.DoubleList.SetAt` | deque.hpp:136-141 | `*it = v` through the returned `T&` fails with `InvalidIterator`, changing nothing, exactly when `p` is null or is the sentinel. Otherwise element i of `contents` becomes `v` in place, and no node and no other element changes. |
| `DoubleList.Iterator.Equals` | deque.hpp:151-154 | `==` holds exactly when the two iterators are the same value, i.e. hold the same node pointer. `IteratorsEqualIffSamePosition` proves that this is the same position in a valid list. |
| `DoubleList.Iterator.NotEquals` | deque.hpp:155-158 | `!=` holds exactly when the node pointers differ, so it is the negation of `==`. |
| `DoubleList.DoubleList.IteratorsEqualIffSamePosition` | deque.hpp:151-158 | For two iterators into a valid list, `==` holds exactly when they denote the same position, and `!=` exactly when they denote different positions. |
| `DoubleList.DoubleList.Begin` | deque.hpp:165-172 | `begin()` denotes position 0. It equals `end()` exactly when the list is empty. |
| `DoubleList.DoubleList.End` | deque.hpp:187-194 | `end()` denotes the sentinel at position `|contents|`. That node has a null `nxt` and no value. |
| `DoubleList.DoubleList.Last` | deque.hpp:177-182 | `last()` fails with `InvalidIterator` exactly when the list is empty. Otherwise it denotes the last real node, which holds the last element of `contents`. |
| `DoubleList.DoubleList.Empty` | deque.hpp:200-203 | As written, `empty()` returns true exactly when the list is NOT empty. |
| `DoubleList.FreshListReportsNonEmpty` | deque.hpp:196-203 | On a freshly constructed, empty list, `empty()` as written returns false. |
| `DoubleList.DoubleList.IsEmpty` | deque.hpp:196-199 | As documented, `empty()` returns true exactly when `contents` is empty. |
| `DoubleList.DoubleList.Destroy` | deque.hpp:208-218 | The `while (temp != tail)` walk releases every node of the list in order, each exactly once, and the sentinel last. |
| `DoubleList.DoubleList.Clear` | deque.hpp:223-228 | After `clear()` the list is valid and empty, and `head == tail` is a fresh sentinel. |
| `DoubleList.DoubleList.InsertHead` | deque.hpp:259-272 | `contents` becomes `[v] + old(contents)`. The new head is a fresh node with a null `pre`, and the sentinel is unchanged. |
| `DoubleList.DoubleList.InsertTail` | deque.hpp:276-290 | `contents` becomes `old(contents) + [v]`. A fresh node is placed just before the sentinel, which is the same node as before. |
| `DoubleList.DoubleList.DeleteHead` | deque.hpp:294-310 | On an empty list it fails with `ContainerIsEmpty` and changes nothing. Otherwise `contents` becomes `old(contents)[1..]`, and the new head's `pre` is null. |
| `DoubleList.DoubleList.DeleteTail` | deque.hpp:314-329 | On an empty list it fails with `ContainerIsEmpty` and changes nothing. Otherwise the last element is dropped, and removing the only element leaves `head == tail`. |
| `DoubleList.DoubleList.Erase` | deque.hpp:242-255 | On the empty list (where the only iterator is `end() == begin()`), it fails with `ContainerIsEmpty` through `delete_head` and changes nothing. Otherwise, erasing the real element at position i removes exactly that element from `contents` and that node from `nodes`. The returned iterator denotes position i of the new list: the old successor, or `end()`. |
| `DoubleList.DoubleList.UnlinkAt` | deque.hpp:247-254 | Bypassing a node that is neither `head` nor the sentinel removes exactly that position. It returns the iterator to the old successor. |

## Findings

| source | as written | input that shows it | evidently intended | confidence | as-written member | corrected member |
|---|---|---|---|---|---|---|
| deque.hpp:200-203 | `empty()` returns `head != tail`, which is true when the list holds elements | a freshly constructed list, on which `empty()` returns false | true exactly when `head == tail`. The comment at deque.hpp:196-198 says so, and the `deque` code calls `blocks->empty()` in that sense at deque.hpp:762, 772, 864 and 894 | high; not executed | `DoubleList.DoubleList.Empty`, `DoubleList.FreshListReportsNonEmpty` | `DoubleList.DoubleList.IsEmpty` |

## Left out

- The `deque<T>` class (deque.hpp:331-902) is an unfinished draft:
  - `at`, `operator[]`, `insert` and `erase` have empty bodies;
  - `push_*`/`pop_*` read a `list.size` member that `double_list` does not have;
  - `Blocks::nxt` is declared as a value, not a pointer.
  Block split, merge and reconstruction do not exist in the file at all. `double_list` likewise has no element count, no split, no merge, no positional insert and no `get_pos`, so none of these is modelled.
- Memory management is not modelled. That covers `new`/`delete`, `~Node` deleting `val`, and the destructor `~double_list`. Nodes are fresh objects and are never freed. `Destroy` returns the nodes it would delete instead of deleting them, and it leaves the list's fields as they were. The source's "cannot be used after destroy" state is therefore not represented.
- The exception types come from exceptions.hpp, which is not part of this model. Each throw is an `Err`/`Fail` value.
- The iterator's copy constructor, destructor and `at()` (deque.hpp:78-89) only copy, clear or return `p`. In the model, `at()` is the field `p` of the `Iterator` value.
- `operator->` (deque.hpp:142-147) performs the same check as `operator*` and returns the pointer. It is declared `noexcept`, so its throw would end the program instead. It is not modelled separately.
- The `const` overloads of `begin()` and `end()` are identical to the non-const ones and are covered by `Begin` and `End`.
- The iterator methods require `p` to be null or a node of the list passed as their ghost parameter. The C++ iterator holds only `Node* p` and only reads `p->nxt`, `p->pre` and `p->val`, so an iterator into any live list is covered by passing that list. Only a dangling `p`, to a node already deleted, is undefined behaviour, and it is not modelled.
- Erase: requires the iterator's node to belong to this list. Through an iterator to an interior node of another live list, the source's `erase` (deque.hpp:248-253) is defined: it unlinks and deletes that node from the other list and returns its successor. That cross-list effect is not modelled here; the same effect on the other list is `other.Erase(pos)`. A foreign `head` or sentinel would reach a null `pre`/`nxt`, which is undefined behaviour.
- SetAt: requires the iterator's node to belong to this list. Through an iterator into another live list, `*it = v` (deque.hpp:136-141) is defined and overwrites that list's element. That cross-list write is not modelled here; the same effect on the other list is `other.SetAt(it, v)`.
- `Erase` requires that `end()` is passed only for an empty list. On a non-empty list the source's `erase(end())` writes through the sentinel's null `nxt`, which is undefined behaviour and is not modelled.
- The optional `pre`/`nxt` arguments of the `Node` constructor are never passed by the list. `Node.constructor` takes only the value.
