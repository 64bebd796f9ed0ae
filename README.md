# xorll: a verified model of an XOR-linked list

`list.c` implements a generic doubly-linked list in which every node stores a
single word, "both", holding the XOR of the addresses of its previous and next
neighbours (a missing neighbour counts as the null pointer), followed by one
item of a size fixed when the list is created.  Walking the list needs two
addresses at a time: the successor of `it` reached from `prev` is
`both(it) ^ prev`.  The list record (`_ListData`) keeps only the two edge
nodes, the item size and the node count.

The model has three layers plus a replay of the demonstration program:

- `seqs.dfy` (`Seqs`): sequence reversal, insertion and deletion, with their
  index lemmas.
- `links.dfy` (`XorLinks`): the node storage layer.  Addresses are
  `Addr(bits: nat)` with `Null = Addr(0)`; `_xor_pointers` is the bitwise
  exclusive or of the two addresses' bits.  The heap of "both" words is a map
  `link` from live node address to word.  `Linked(s, link)` is the XOR-link
  invariant for the chain `s` of live nodes, front to back: distinct non-null
  addresses, exactly the live ones, each holding the XOR of its neighbours.
  The lemmas show that decoding from either end visits the chain and stops
  past the other end, and that each relinking step of the list operations
  turns a linked chain into the expected linked chain.
- `list.dfy` (`XorList`): the class `ListData` with the fields of
  `_ListData` (`front`, `back`, `itemSize`, `num`), the heap words `link`,
  the items `items` and a ghost chain `nodes`.  Each operation of `list.c` is
  a method or function proved against the sequence of items, `Items()`.
  `ListHandle` models a handle variable and `Destroy` models `list_destroy`.
- `scenario.dfy` (`Scenario`): `example.c` replayed on the model, with the
  list contents, traversal results and query results it produces at each
  step.

The model follows `list.c` as written, including two behaviours a reader may
not expect:

- `list_pop_all` resets only `num` (list.c:216); `front` and `back` keep the
  addresses of freed nodes.  So "the list is empty exactly when both edges are
  null" fails from a `list_pop_all` until the next push, which sets both edges
  to the fresh node (list.c:358-364); popping back to empty nulls them again
  (list.c:392-397).  The model states the property as the separate predicate
  `Settled`, which the constructor and every push and pop establish.
- When `_list_get_node_at` walks from the back, `prev` is the node after
  `it`, so `list_push_at` puts the new item one place further back than the
  index asks (`PushAtSlot`).  In `example.c`, `list_push_at(-3)` on
  `de0fghijklmnopqrstuvw` gives `de0fghijklmnopqrstu0vw`.

## Model

| member | source | states |
|---|---|---|
| XorLinks.Xor | list.c:433-437 | XOR with the null pointer gives the other address, and an address XOR itself is null |
| XorLinks.NodeNext | list.c:293-299 | the successor decoded from a word is the address that, XOR-ed with `prev`, gives the word back |
| XorLinks.XorCancel | list.c:433-437 | XOR-ing a "both" word with either neighbour gives back the other neighbour |
| XorLinks.XorNull | list.c:433-437 | XOR with the null pointer leaves an address unchanged, so an end node's word names its only neighbour |
| XorLinks.XorCommutes | list.c:433-437 | the XOR of two addresses does not depend on their order |
| XorLinks.BitXorWord | list.c:433-437 | the XOR of two k-bit words is a k-bit word, so unbounded addresses need no truncation |
| XorLinks.StepAt | list.c:293-299 | on a linked chain, one decoding step `next = both ^ prev` from position i reaches position i + 1 |
| XorLinks.WalkFrom | list.c:342-347 | k decoding steps from position i visit exactly the nodes i to i + k - 1 and stand at position i + k |
| XorLinks.DecodeFromEitherEnd | list.c:286-299 | starting at either end with `prev` null, decoding visits every node in order (reversed from the back) and ends past the opposite end with no successor |
| XorLinks.LinkedReverse | list.c:227-231 | the XOR-link invariant still holds when the chain is read back to front |
| XorLinks.LinkedReverseIff | list.c:227-231 | a chain is linked exactly when its reverse is linked |
| XorLinks.LinkedKeys | list.c:203-217 | on a linked chain the live nodes of the heap are exactly the nodes of the chain |
| XorLinks.PushFirstLinked | list.c:360-364 | a single node whose word is null is a linked chain |
| XorLinks.PushEdgeLinked | list.c:369-376 | a fresh front node with the old front as its word, after the old front's word gets the fresh node XOR its old successor, gives a linked chain |
| XorLinks.PushBackLinked | list.c:369-376 | the same relinking at the back gives a linked chain with the fresh node last |
| XorLinks.PopEdgeLinked | list.c:400-406 | the old front's word decodes to its neighbour; after the neighbour's word drops the old front and the old front is freed, the rest is linked |
| XorLinks.PopBackLinked | list.c:400-406 | the same unlinking at the back leaves the chain without its last node linked |
| XorLinks.PopLastLinked | list.c:392-397 | freeing the only node leaves an empty heap |
| XorLinks.SpliceInLinked | list.c:115-120 | rewriting the words of adjacent nodes and the fresh node, with the pair given in either order, inserts the fresh node between them and keeps the chain linked |
| XorLinks.SpliceOutLinked | list.c:194-199 | an inner node's word decodes to its other neighbour; relinking the neighbours to each other and freeing it deletes it and keeps the chain linked |
| XorList.Natural | list.c:105 | an index in `[-num, num - 1]` resolves to a position of the list, and one in `[-num - 1, num]` to a value from -1 to `num` |
| XorList.FirstNonZeroSpec | list.c:419-429 | a traversal returns 0 exactly when every visit returns 0, and otherwise the result of the first visit that does not |
| XorList.PushStep | list.c:353-382 | the edge push on values: empty heap becomes one null-word node, otherwise the fresh node is linked at that edge; items gain the new item at that edge |
| XorList.PopStep | list.c:385-409 | the edge pop on values: the edge node's word decodes to the new edge, the rest stays linked and loses the item at that edge |
| XorList.LinkStep | list.c:115-121 | the inner insertion on values: the chain and items gain the fresh node and item at the position between `prev` and `it` |
| XorList.UnlinkStep | list.c:193-199 | the inner removal on values: `next` decodes to the other neighbour and the chain and items lose the element at that position |
| XorList.ListData.constructor | list.c:61-71 | a new list is valid, empty, with both edges null and the given item size |
| XorList.ListData.IsEmpty | list.c:240-244 | true exactly when the list holds no items |
| XorList.ListData.Num | list.c:247-253 | never negative and equal to the number of items |
| XorList.ListData.GetItemSize | list.c:256-260 | the item size is positive |
| XorList.ListData.NodeSize | list.c:263-267 | a node is one word followed by one item |
| XorList.ListData.CurrentSize | list.c:270-275 | the record plus one node block per live heap node, which is one per item |
| XorList.ListData.GetFront | list.c:125-130 | the first item |
| XorList.ListData.GetBack | list.c:133-138 | the last item |
| XorList.ListData.PushEdge | list.c:353-382 | the list stays valid and settled, `num` grows by one, the fresh node and its item are added at the chosen end and the rest keeps its order; on an empty list the node is both edges with a null word |
| XorList.ListData.PushFront | list.c:83-88 | the item is prepended and the fresh node is the new front |
| XorList.ListData.PushBack | list.c:91-96 | the item is appended and the fresh node is the new back |
| XorList.ListData.PopEdge | list.c:385-409 | the list stays valid and settled, `num` drops by one, exactly the chosen end's item goes and its node is freed; popping the last node nulls both edges |
| XorList.ListData.PopFront | list.c:162-167 | the first item and its node go, and an emptied list has null edges |
| XorList.ListData.PopBack | list.c:170-175 | the last item and its node go, and an emptied list has null edges |
| XorList.ListData.GetNodeAt | list.c:332-350 | walking from the front exactly when `natural < num / 2` (integer division), it returns the node at `natural` and its neighbour on the side walked from, null at that end |
| XorList.ListData.PushAt | list.c:99-122 | natural 0 and `num` push at the edges; otherwise the item lands at `natural` when walked from the front and at `natural + 1` when walked from the back; the list stays valid and everything else keeps its order |
| XorList.ListData.Link | list.c:115-121 | the fresh node and item go in between `prev` and `it`, which are adjacent in either order |
| XorList.ListData.GetAt | list.c:141-159 | for an index in `[-num, num - 1]`, the item at the natural index, changing nothing |
| XorList.ListData.PopAt | list.c:178-200 | exactly the item at the natural index goes and its node is freed, whichever end the walk starts from; the rest keeps its order, and an emptied list has null edges |
| XorList.ListData.Unlink | list.c:193-199 | the inner node goes after its two neighbours are linked to each other |
| XorList.ListData.PopAll | list.c:203-217 | every node is freed and `num` is 0, while `front` and `back` keep their old values |
| XorList.ListData.ForeachInternal | list.c:412-430 | starting from the front or the back, the result is the first non-zero visitor result over the items in that order, or 0 |
| XorList.ListData.Foreach | list.c:220-224 | the first non-zero visitor result over the items front to back, or 0 |
| XorList.ListData.ForeachReversed | list.c:227-231 | the first non-zero visitor result over the items back to front, or 0 |
| XorList.ListHandle.constructor | list.c:70 | a handle refers to the given list record and is valid exactly when that record is non-null |
| XorList.ListHandle.IsValid | list.c:234-237 | a handle is valid exactly when it refers to a list record |
| XorList.Destroy | list.c:74-80 | every node is freed and the handle is no longer valid |
| Scenario.FreshAddr | list.c:278-283 | an address above every node address is non-null and not a live node, so it may stand for a fresh allocation |
| Scenario.Fill | example.c:16-20 | 26 pushes at the back of a new list of one-byte items give the items 'a' to 'z' |
| Scenario.Show | example.c:21 | a traversal with `print_my_item` visits every item and returns 0 |
| Scenario.ShowReversed | example.c:29 | a reversed traversal with `print_my_item` visits every item and returns 0 |
| Scenario.Inspect | example.c:24-28 | the filled list is not empty and holds 26 one-byte items in nodes of a word and a byte, the record plus 26 nodes in all |
| Scenario.Trim | example.c:31-36 | three pops at each end leave `defghijklmnopqrstuvw` |
| Scenario.ContentsGrowFront | example.c:40 | inserting '0' at position 2 of `defghijklmnopqrstuvw` gives `de0fghijklmnopqrstuvw` |
| Scenario.ContentsGrowBack | example.c:41 | inserting '0' at position 19 gives `de0fghijklmnopqrstu0vw` |
| Scenario.ContentsShrinkFront | example.c:49 | deleting position 3 gives `de0ghijklmnopqrstu0vw` |
| Scenario.ContentsShrinkBack | example.c:50 | deleting position 17 gives `de0ghijklmnopqrst0vw` |
| Scenario.GrowFront | example.c:40 | pushing at index 2 gives `de0fghijklmnopqrstuvw` |
| Scenario.GrowBack | example.c:41 | pushing at index -3 gives `de0fghijklmnopqrstu0vw` |
| Scenario.Read | example.c:44-46 | indices 1 and -2 read `e` and `v` |
| Scenario.ShrinkFront | example.c:49 | popping at index 3 gives `de0ghijklmnopqrstu0vw` |
| Scenario.ShrinkBack | example.c:50 | popping at index -4 gives `de0ghijklmnopqrst0vw` |
| Scenario.Finish | example.c:54-56 | the handle is invalid after `list_destroy` |
| Scenario.Open | example.c:16-29 | filling, then a traversal, the handle's validity, the queries and a reversed traversal, with the results printed |
| Scenario.Edit | example.c:31-51 | the contents after trimming, the two inserts and the two removals, the two items read, and a traversal result of 0 after each group |
| Scenario.Example | example.c:14-59 | the contents after each step of the program, the query results, the two items read, all five traversal results and the handle's validity before and after `list_destroy` |

## Left out

- Memory allocation: `malloc` is a parameter `a`, a fresh non-null address not
  in the heap.  Allocation failure, asserted at list.c:65, 361 and 370 and
  unchecked at list.c:116, is not modelled.  `free` removes the node from the
  heap maps, and the record's own `malloc` and `free` are not modelled.
- Item bytes: `_node_get_item` (list.c:302-307) and the caller's write through
  the returned item pointer are modelled together as storing the value `x` in
  the new node.  Items are opaque values of type `T`, and `itemSize` only
  enters the size arithmetic.
- `sizeof(size_t)` and `sizeof(_ListData)` are the parameters `wordSize` and
  `recordSize` of `NodeSize` and `CurrentSize`.
- Addresses are unbounded naturals rather than 64-bit words.  The bitwise XOR
  of two 64-bit addresses is itself a 64-bit word (`BitXorWord`), so nothing
  wraps.  The counts and sizes are unbounded integers, and `int` overflow in
  `num` or `list_get_current_size` is not modelled.
- The `LIST_DEBUG` assertions (list.c:6-13) are preconditions.  Their
  failures are not modelled as behaviour.
- XorList.ListData.PushAt: the natural index -1 (index `-num - 1`) and, on a
  list of two or more, the natural index `num - 1` (for example index -1)
  leave `prev` null.  The first relink then fails the assertion at list.c:295,
  so `PushAtDefined` excludes these indices.
- XorList.ListData.Foreach, XorList.ListData.ForeachReversed,
  XorList.ListData.ForeachInternal, XorList.ListData.PopAll and
  XorList.Destroy require `Settled()`, which every state the constructor, a
  push or a pop leaves satisfies.  Only between a `list_pop_all` and the next
  push is it false: the edge fields then name freed nodes, and walking from
  them reads freed memory.
- The visitor is a pure function from item to `int`.  Its `void*` context and
  its side effects are not modelled, so the model cannot observe that the
  successor is read before the visitor runs.  Mutating the list during a
  traversal is unsupported (list.h:37).
- `_list_get_data` and `_list_get_handle` are identity casts: a handle is a
  reference to the `ListData` object.
- list.h holds declarations and comments only.
- `example.c`'s printing is not modelled: its five traversals are replayed
  with a visitor that returns 0, and the values it prints are the results of
  the scenario methods.  The byte sizes depend on the platform's
  `sizeof(size_t)` and `sizeof(_ListData)`, which are parameters.
