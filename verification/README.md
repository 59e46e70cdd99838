# collect-c tree-map, stock comparators and doubly-linked list, modelled in Dafny

This project models the core of the collect-c library:

- the unbalanced binary-search-tree map `collect_c_tmap_t` (`src/tmap.c`, `include/collect-c/tmap.h`);
- the stock integer comparison functions it is used with (`src/stock_cmp_fns.c`);
- the doubly-linked list with its spare-node chain (`src/dlist.c`).

The model is purely functional. A node pointer is the subtree rooted at that node, so `Tree = Leaf | Node(left, key, val, right)` and NULL is `Leaf`. Keys and values are type parameters; the map's comparator is a parameter `cmp: (K, K) -> int`. The search-tree properties are proved under `Ordering.IsTotalOrder(cmp)`: the comparator is reflexive, sign-antisymmetric and transitive. Every stock comparator is proved to satisfy it.

"Equal" means `cmp(a, b) == 0`, as it does in the source. The model therefore speaks of keys that are *equivalent* to a probe, not identical to it.

Everything outside the pure logic becomes a parameter or a trace:

- **Allocator.** Whether allocation succeeds is a `bool` parameter. The byte count requested is part of the result (`Layout.NodeSize`).
- **Element-free callback.** Its calls form a trace:
  - `Replaced(-1, oldValue)` when a value is replaced (the key argument is NULL);
  - `Erased(-1, key, value)` per node when the storage is freed.
- **Walk callback.** It is a function from the visits made so far, the current one included, to "continue?". This covers callbacks that keep state in `param_walk`. A walk's result is the sequence of visits it made, with depths.
- **Debug assertions.** The recursive node helpers (walk and teardown) assert a non-NULL node. Their recursive calls check for NULL first, so in the model the helpers `require` a node. Where a public function hands a helper the root without checking, the failed assertion is an outcome of that function: walking an empty map gives `TMap.NullRootFailure`, freeing one gives `TMap.AssertionFailure` (see Findings). Where release behaviour is well defined (an unknown walk direction falls through to the downward walk), the model follows the release build.

Modules and files: `Common` (common.dfy), `Layout` (layout.dfy), `Ordering` (ordering.dfy), `StockCmp` (stock_cmp.dfy), `BstTree` (tree.dfy), `TreeWalk` (walk.dfy), `TMap` (tmap.dfy), `TMapScenarios` (scenarios.dfy), `DList` (dlist.dfy).

## Model

| member | source | states |
|---|---|---|
| Layout.AsWrittenIsCeilingWhenWidthsAgree | src/tmap.c:50-51 | Where `sizeof(size_t)` equals the 8-byte node-data quantum (LP64), the key's quantum count as written (`Layout.NumQuantaForKeyAsWritten`, giving `Layout.ValOffsetAsWritten`) is the ceiling of key size over the quantum. |
| Layout.AsWrittenOverlapsOnILP32 | src/tmap.c:48-53 | As written, a 4-byte key on a 32-bit target gets 0 quanta, so the value pointer equals the key pointer. |
| Layout.AsWrittenAgreesOnLP64 | src/tmap.c:50-51 | On LP64 the rounding as written gives the intended value offset for every key size. |
| Layout.IntKeyValueAtSecondQuantum | test/unit/test.unit.tmap/entry.c:221 | An int map's value sits one quantum past the key (`data[1]`), and its node takes 36 bytes. |
| Layout.NumQuantaForKey | src/tmap.c:50 | Corrected rounding: the fewest whole quanta that hold the key. |
| Layout.ValOffset | src/tmap.c:48 | The value starts at the first quantum boundary at or after the end of the key, less than one quantum past it. |
| Layout.NodeSize | src/tmap.c:53 | A node is its 24-byte header, the key rounded up to whole quanta, then the value. The value ends the node. |
| StockCmp.Value | src/stock_cmp_fns.c:39-175 | The result is always in the type's range. A pattern within the width reads as itself, except that a signed helper reads a pattern with the top bit set as that pattern minus 2^width. |
| StockCmp.ValueReadsOwnWidth | src/stock_cmp_fns.c:39-175 | A helper reads only its own width: a key reads as its pattern modulo 2^width. |
| StockCmp.HelperCmp | src/stock_cmp_fns.c:39-175 | Each fixed-width helper returns -1, 0 or +1 exactly as the read values compare (less, equal, greater). |
| StockCmp.HelperIsTotalOrder | src/stock_cmp_fns.c:39-175 | Every fixed-width helper is a total order in the sense the tree-map needs. |
| StockCmp.EqualOnlyWhenIdentical | src/stock_cmp_fns.c:39-175 | For in-range patterns a helper returns 0 exactly when the two keys are the same. |
| StockCmp.CmpSized | src/stock_cmp_fns.c:210-322 | The sized entry points (`collect_c_fn_cmp_int16` … `_uint64`) need a non-zero `el_size` equal to the type's width. They return 0 exactly for identical keys; the unsigned ones order by unsigned value, the signed ones by two's-complement value. |
| StockCmp.SignedSelect | src/stock_cmp_fns.c:178 | Selecting by byte count 2, 4 or 8 gives the signed helper of that width; any other count falls to the 2-byte helper. |
| StockCmp.UnsignedSelect | src/stock_cmp_fns.c:179 | Selecting by byte count 2, 4 or 8 gives the unsigned helper of that width; any other count falls to the 2-byte helper. |
| StockCmp.BuiltinHelperAsWritten | src/stock_cmp_fns.c:192-203 | As written, every built-in type, unsigned ones included, is dispatched to a signed helper of its width. |
| StockCmp.CmpBuiltinAsWritten | src/stock_cmp_fns.c:192-203 | The built-in comparators as written: every type, unsigned ones included, orders its keys by the two's-complement value of its width, and returns 0 exactly for identical in-range keys. |
| StockCmp.UnsignedBuiltinComparesSigned | src/stock_cmp_fns.c:198-201 | As written, `collect_c_fn_cmp_ushort` ranks 0xFFFF below 0, and likewise for `uint` and `ullong`. |
| StockCmp.CmpBuiltin | src/stock_cmp_fns.c:325-476 | Corrected built-in comparators: 0 exactly for identical keys; the unsigned types order by unsigned value, the signed types by two's-complement value. |
| StockCmp.SignedBuiltinsUnchanged | src/stock_cmp_fns.c:194-197 | For short, int, long and long long the correction changes nothing. |
| BstTree.Search | src/tmap.c:201-252 | A node found by the search lies in the tree and its key compares equal to the probe. |
| BstTree.Find | src/tmap.c:201-252 | `clc_c_tm_find_`: `*num_visited` is always left 0. `*last_visited` is NULL exactly when the root is. On success it is the found node. |
| BstTree.SearchComplete | src/tmap.c:201-252 | On a search tree under a total order, the search succeeds exactly when some stored key is equivalent to the probe. |
| BstTree.EquivProbesFindSame | src/tmap.c:201-252 | Equivalent probes find the same node. |
| BstTree.SetVal | src/tmap.c:486-497 | Replacing a value keeps the tree's shape and node count. Afterwards the probe finds the new value. A failed search changes nothing. |
| BstTree.SetValLookup | src/tmap.c:486-497 | After a replacement, probes equivalent to the key find the new value; every other probe finds what it found before. |
| BstTree.AddNode | src/tmap.c:165-199 | `add_node_to_` keeps the root and the untouched side, adds exactly one node, and the new leaf is what the search for its key then finds. |
| BstTree.AddNodeKeepsBst | src/tmap.c:165-199 | Hanging a new node where the search failed keeps the search-tree ordering. |
| BstTree.AddNodeLookup | src/tmap.c:165-199 | After adding, probes equivalent to the new key find its value; every other probe finds what it found before. |
| BstTree.AddNodeKeys | src/tmap.c:165-199 | The keys held after adding are the old ones plus the new one. |
| TreeWalk.Run | src/tmap.c:253-378 | Cutting a reference order at the first callback returning 0: the visits made are a prefix; all of them on completion; otherwise the last visit is the one the callback refused. |
| TreeWalk.RunStopsOnlyWhenAsked | src/tmap.c:253-378 | Every visit before the last, and the last one too when the walk completed, was answered "continue". |
| TreeWalk.WalkForwardIsInOrder | src/tmap.c:338-378 | `node_walk_forward_` (`TreeWalk.WalkForward`) visits left subtree, node, right subtree, each at its depth, and stops at the first refusal. |
| TreeWalk.WalkBackwardIsReverseOrder | src/tmap.c:253-294 | `node_walk_backward_` (`TreeWalk.WalkBackward`) visits right subtree, node, left subtree, stopping at the first refusal. |
| TreeWalk.WalkDownwardIsDownwardOrder | src/tmap.c:296-336 | `node_walk_downward_` (`TreeWalk.WalkDownward`) visits the node, then the right subtree, then the left, stopping at the first refusal. |
| TreeWalk.OrdersVisitEveryNode | src/tmap.c:253-378 | Each of the three orders visits as many nodes as the tree has. |
| TreeWalk.ReverseOrderIsReversed | src/tmap.c:253-294 | The backward order is the forward order reversed. |
| TreeWalk.InOrderAscending | src/tmap.c:338-378 | On a search tree the forward walk visits keys in strictly ascending comparator order. |
| TreeWalk.ReverseOrderDescending | src/tmap.c:253-294 | On a search tree the backward walk visits keys in strictly descending comparator order. |
| TreeWalk.OrdersReportDepth | src/tmap.c:253-378 | Every order visits exactly the tree's nodes, each reported with its distance from the root. |
| TMap.DirFromCode | include/collect-c/tmap.h:143-149 | Only the values 0-3 name a walk direction, each naming the enumerator with that value. |
| TMap.WalkDirCodes | include/collect-c/tmap.h:143-149 | The four directions have the distinct values 0-3, and each value maps back to its direction. |
| TMap.EmptyInitializer | include/collect-c/tmap.h:296-315 | The initializer gives a valid empty map with the given sizes, comparator and callback, in which every find fails. |
| TMap.DefineEmpty | include/collect-c/tmap.h:190-207 | `define_empty` (with or without a comparator) gives a valid empty map with no element-free callback. |
| TMap.SizeMacrosDescribeTree | include/collect-c/tmap.h:218-219 | On a valid map, `is_empty` holds exactly when there is no root, and `len` is the number of elements a full walk visits. |
| TMap.FindNode | src/tmap.c:422-436 | A node returned by `collect_c_tmap_find_node` is in the map and compares equal to the probe. |
| TMap.FindNodeIffPresent | src/tmap.c:422-436 | On a valid map, find returns NULL exactly when no stored key is equivalent to the probe. |
| TMap.Insert | src/tmap.c:438-533 | `collect_c_tmap_insert`, see the list after the table. |
| TMap.InsertByVal | include/collect-c/tmap.h:212-213 | `insert_by_val` is insert with a NULL `new_node`. |
| TMap.InsertKeepsValid | src/tmap.c:438-533 | Insert keeps the descriptor invariants: search-tree ordering, and `size` equal to the node count. |
| TMap.InsertLookup | src/tmap.c:438-533 | After a successful insert, probes equivalent to the key find the new value; every other probe finds what it found before. |
| TMap.InsertReplacesIffPresent | src/tmap.c:486-523 | With the allocator succeeding, `*p_was_replaced` is 1 and the size unchanged exactly when an equivalent key was stored; otherwise 0 and size + 1. |
| TMap.InsertAllLookup | src/tmap.c:438-533 | After a run of inserts the map is valid. Each probe finds the value last inserted under an equivalent key, or what it found before. |
| TMap.InsertAllDistinctSize | test/unit/test.unit.tmap/entry.c:416-440 | Inserting pairwise non-equivalent keys into an empty map gives a length equal to their number. |
| TMap.Walk | src/tmap.c:535-571 | `collect_c_tmap_walk` fails the node helpers' NULL assertion exactly when the map is empty (its root is handed over unchecked, src/tmap.c:264, 306, 348). Otherwise it returns 0 whether or not the callback stopped it. Direction 1 walks forward, 2 backward, everything else downward, each cut at the callback's first refusal. |
| TMap.WalkEmptyMapFails | src/tmap.c:535-571 | A valid map of size 0 cannot be walked in any direction. |
| TMap.UnstoppedWalks | src/tmap.c:535-571 | With a callback that never stops, each direction visits `size` elements; forward ascends strictly, backward descends strictly. |
| TMap.FreeStorageAsWritten | src/tmap.c:391-420 | As written, free-storage of a map with no root fails the helpers' non-NULL assertion. With a root it has the corrected effects. |
| TMap.FreeEmptyMapFails | src/tmap.c:391-420 | As written, a freshly defined map, or one already freed, cannot be freed. |
| TMap.FreeStorage | src/tmap.c:391-420 | Corrected free-storage leaves a valid empty map with the same sizes, comparator and callback. Freeing an empty map does nothing. |
| TMap.FreeStorageIsPostOrder | src/tmap.c:86-163 | The child helpers (`TMap.DestroyChildren`) plus the root teardown (`TMap.NodeTeardown`) remove the tree in post-order, each node's callback call just before its free. |
| TMap.PostOrderIsPermutation | src/tmap.c:86-163 | The teardown order holds exactly the tree's nodes, each once. |
| TMap.FreeStorageExactlyOnce | src/tmap.c:122-163 | Freeing calls the element-free callback once per element, in post-order, with that element's key and value and el_index -1. It frees `size` nodes, each with the byte count used to allocate it. |
| TMapScenarios.FourInserts | test/unit/test.unit.tmap/entry.c:243-410 | Inserting 101, 202, 201, 303 into an empty int map adds each (`was_replaced` 0, length 1-4) and builds the tree the test checks node by node. |
| TMapScenarios.TwentyInserts | test/unit/test.unit.tmap/entry.c:449-512 | The twenty distinct values give length 20, and a forward walk visits them in ascending int order. |
| DList.PushBackAsWritten | src/dlist.c:39-57 | As written, a failed allocation in push-back is written through (a crash), never reported. A successful one equals the corrected push. |
| DList.PushFrontAsWritten | src/dlist.c:39-57 | The same for push-front. |
| DList.PushNeverReportsNoMemory | src/dlist.c:254-348 | As written, neither push ever returns ENOMEM: those branches are unreachable. |
| DList.PushBack | src/dlist.c:254-300 | Corrected push-back: ENOMEM leaves the list unchanged; success appends the element at the tail and increments size. |
| DList.PushFront | src/dlist.c:302-348 | Corrected push-front: ENOMEM leaves the list unchanged; success prepends at the head and increments size. |
| DList.PushFrontMirrorsPushBack | src/dlist.c:254-348 | A front push is a back push seen from the other end. |
| DList.FindNode | src/dlist.c:158-204 | Search from the head finds the match preceded by exactly `skip_count` matches; `*num_searched` is its position + 1. Otherwise ENOENT with every element counted. |
| DList.RFindNode | src/dlist.c:206-252 | The same from the tail: the match followed by exactly `skip_count` matches, with `*num_searched` counting from the tail. |
| DList.MatchesBothWays | src/dlist.c:158-252 | Counting matches from the front or from the back gives the same total, so find and rfind succeed for the same skip counts. |
| DList.Clear | src/dlist.c:105-156 | Clear returns 0 and empties the list. Its nodes go onto the front of the spares chain in reverse order; `num_spares` and `*num_dropped` grow by the number of elements. |
| DList.FreeStorage | src/dlist.c:70-103 | Free-storage returns 0, frees every list and spare node, and empties both chains. |

`TMap.Insert` states, as the source does, the following.

- **Return code.** Insert returns 0 or ENOMEM. ENOMEM happens exactly when allocation fails on an empty map or for a new key. On ENOMEM the map is unchanged and there are no callback calls.
- **`new_node`.** It is never written.
- **Allocation request.** Every request is `NodeSize(key_size, val_size)`.
- **Empty map.** The new node becomes the root with size 1. On allocation failure `*p_was_replaced` is left untouched.
- **Key already stored.** `*p_was_replaced` is 1. Size and shape are kept. There is exactly one `Replaced(-1, old value)` callback call if a callback is attached, and none otherwise. The new value is found.
- **New key.** `*p_was_replaced` is 0, even when allocation then fails. A request is made. On success the size grows by one.

## Left out

- Memory accounting: the allocator's bookkeeping, `mem_api` and realloc are left out. Allocation success is a parameter, and requested and freed byte counts are results.
- Opaque parameters: `param_walk`, `param_element_free`, the `flags` and `reserved0` fields, the key/value size arguments passed to callbacks, and the `pfn_cmp`'s `key_size` argument are not modelled. Their values pass through unchanged.
- `CLC_TMAP_INTERNAL_MAX_SPARES_` (src/tmap.c:32) is defined but never used. The version functions (`collect_c_tmap_version`, `collect_c_dlist_version`) return constants.
- The `ccs` comparators and `src/string_fns.c` are not part of this model. The terse header aliases (`include/collect-c/terse/*.h`) only rename the API.
- `BstTree.Find`: the `num_visited` count is modelled as its only value, 0, because `collect_c_tmap_find_node` passes NULL and insert does too.
- `TMap.Walk`: the walk is read-only. The callback's `p_el_val` is writable (include/collect-c/tmap.h:133-140), so a C callback may update values in place; the model does not carry such updates back into the map.
- `StockCmp.Value`: reading a wider key's bits modulo 2^width is what a little-endian target does when a helper reads the first bytes of the key. A big-endian target would read the high bytes instead.
- `StockCmp.BuiltinType.SizeOf`: type widths are those of LP64 (short 2, int 4, long 8, long long 8). Other data models change only which helper a type selects.
- `Layout.NodeSize`: the 24-byte header (`left`, `right`, `value`) and the 8-byte quantum are those of LP64. The as-written rounding is modelled for any platform (`Layout.Platform`).
- `DList.PushBack` and `DList.PushFront` do not model `prev`/`next` pointer contents separately. The list is a sequence, so the pointers are consistent by construction.
- `DList.FindNode`: the comparator is not passed the list. The source calls it as `(*pfn)(l, p_lhs, elem)` (src/dlist.c:187, 235); the model's comparator sees only the two elements, so a comparator that depends on the list is not modelled. The same holds for `DList.RFindNode`.
- `DList.FindNode` and `DList.RFindNode` report the node found as its position in the list.
- `DList.FreeStorage`: `num_spares` is not reset by the source, so after freeing it can be non-zero while the spares chain is empty. The model keeps that behaviour.
- The dlist's allocation size (`offsetof(node, data) + el_size`) is not modelled. The node struct is declared in a header that is not part of this model.
- Element memory: copying keys and values with `memcpy` is modelled as storing the value.
- Concurrency: none of the structures are synchronised, and the model is single-threaded.

## Findings

| source | as written | input that shows it | evidently intended | confidence | as-written member | corrected member |
|---|---|---|---|---|---|---|
| src/tmap.c:50-51 | The quanta for the key are `(key_size + sizeof(sizeof(node_data_t)) - 1) / sizeof(node_data_t)`. `sizeof(sizeof …)` is `sizeof(size_t)`, not the 8-byte quantum. | A 4-byte key on a 32-bit target: (4 + 4 - 1) / 8 = 0 quanta, so the value overlaps the key. | Round the key size up to whole quanta: `(key_size + sizeof(node_data_t) - 1) / sizeof(node_data_t)`. | high, not executed | Layout.AsWrittenOverlapsOnILP32 | Layout.ValOffset |
| src/tmap.c:395-405 | Free-storage passes `m->root` to the child-teardown helpers before its own NULL check. The helpers assert a non-NULL node (src/tmap.c:95, 131). | Freeing an empty map: a freshly defined one, or one already freed. | The NULL check at line 405 shows an empty map should be freed as a no-op. | high, not executed | TMap.FreeEmptyMapFails | TMap.FreeStorage |
| src/stock_cmp_fns.c:198-201 | The unsigned built-in types are dispatched through `CLC_INTERNAL_SIGNED_SELECT_`. `CLC_INTERNAL_UNSIGNED_SELECT_` (line 179) is defined but never used. | `collect_c_fn_cmp_ushort` with lhs 0xFFFF and rhs 0 returns -1. | Unsigned types compare by unsigned value: select through `CLC_INTERNAL_UNSIGNED_SELECT_`. | high, not executed | StockCmp.UnsignedBuiltinComparesSigned | StockCmp.CmpBuiltin |
| src/dlist.c:49-54 | `clc_c_dl_make_node_` writes through the result of `malloc` without checking it. | A push when malloc returns NULL crashes, so the ENOMEM branches (src/dlist.c:270, 287, 318, 335) are unreachable. | Return NULL on allocation failure so that the pushes report ENOMEM and leave the list unchanged. | high, not executed | DList.PushNeverReportsNoMemory | DList.PushBack |
