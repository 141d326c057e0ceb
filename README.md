# Copy-on-write trie (BusTub primer), modelled in Dafny

This project models the persistent trie of `src/primer/trie.cpp`: a `Trie`
is a handle on a root `TrieNode`; each node has a map `children_` from a key
character to a child, an `is_value_node_` flag and, for a value node, a typed
payload `value_`. `Get<T>(key)` walks one edge per key character and returns
the value if the node reached holds one of type `T`; `Put<T>(key, value)` and
`Remove(key)` are `const` and return a new `Trie`, copying only the nodes on
the path of the key and sharing everything else with the receiver.

Files and modules:

- `wrappers.dfy` (`Wrappers`): `Option`, standing in for a null pointer.
- `trie_node.dfy` (`TrieNode`): the node layer. A node is the immutable
  datatype `Node(children: map<char, Node>, value: Option<Value>)`;
  `is_value_node_` is `value.Some?`. `Value` holds a payload of one of the
  five instantiated types (lines 67-84: `uint32_t`, `uint64_t`,
  `std::string`, `Integer` = `std::unique_ptr<uint32_t>`, `MoveBlocked`) and
  `TagOf` gives its runtime type, which is what the `dynamic_pointer_cast` of
  line 22 tests. The specification functions are `Walk` (the node reached by
  a key), `Lookup` (the value there), `Insert` (path-copying insertion) and
  `Delete` (path-copying removal with pruning); `Keys` and `Entries` give the
  finite key-to-value map a node stands for, and `Pruned` says no node is a
  dead end.
- `trie.dfy` (`Trie`): the handle `Trie(root: Option<Node>)`, where `None`
  is the empty trie; `Find`, `Inserted` and `Removed` say what `Get`, `Put`
  and `Remove` return, and the methods `Get`, `Put` and `Remove` compute it
  with loops over the key. `Put` walks down collecting the path (the existing
  child for each character, a new empty node where there is none), then
  rebuilds it bottom-up: a value node that keeps the children of the node it
  replaces, and a copy of each ancestor with its edge redirected. `Remove`
  walks down as far as the key's edges go, strips the value at the key and
  rebuilds upward, dropping every node left with no value and no children.
- `trie_as_written.dfy` (`TrieAsWritten`): the body of `Put` as written, for
  the finding below, with the ill-formed calls at lines 39 and 46 given no
  effect and the in-place edits of line 42 seen only through the receiver.

Where the code and its own design disagree, the model follows the design the
code states in its comments and signatures:

- The body of `Put` (lines 36-48) does not copy the path: it inserts into the
  receiver's own nodes, never links the value node it builds, and returns the
  receiver's root. `Trie.Put` models the behaviour of the comment at lines
  49-50 and the `const` signature at line 34; the body as written is modelled
  separately and reported under Findings.
- The body of `Remove` (line 54) only throws. `Trie.Remove` models the
  comment at lines 56-57. Pruning also applies to the root: when the root is
  left with no value and no children, the result is the empty trie, so
  removing the only key gives back the empty trie one started from.
- `Get` and `Put` dereference the root without a null check (lines 12-14, 19
  and 37). The model treats a trie without a root as empty: `Get` finds
  nothing in it and `Put` starts from a fresh empty node.

Because a `Trie` and its nodes are values, `Get` leaves the trie as it was,
and `Put` and `Remove` leave the receiver and every earlier version unchanged,
by construction; structural sharing is stated as equality of the subtrees off
the key's path.

## Model

| member | source | states |
|---|---|---|
| Trie.Get | src/primer/trie.cpp:10-30 | the loop over the key returns exactly `Find`: the value at the key if the walk reaches a value node whose value has the requested type, else nothing |
| Trie.Put | src/primer/trie.cpp:33-51 | the walk-down and bottom-up rebuild return exactly `Inserted`, the path-copying insertion |
| Trie.Remove | src/primer/trie.cpp:53-58 | the walk-down and bottom-up rebuild with pruning return exactly `Removed`, the path-copying removal |
| Trie.GetStopsAtMissingEdge | src/primer/trie.cpp:13-16 | if the walk reaches a node with no child for the next key character, `Get` returns nothing |
| Trie.FindMeaning | src/primer/trie.cpp:19-25 | `Get` returns `v` iff the walk reaches a node holding `v` and `v` has the requested type; a plain node (the root for the empty key) and a type mismatch both read as absence |
| Trie.FindEmpty | src/primer/trie.cpp:11-16 | nothing is found in a trie without a root |
| Trie.FindAfterPut | src/primer/trie.cpp:46-50 | after `Put(k, v)`, `Get` at `k` returns `v` for the type of `v` and nothing for any other type; every other key reads as before |
| Trie.PutPut | src/primer/trie.cpp:49-50 | putting a key twice gives the same trie as putting only the last value (last write wins) |
| Trie.ContentsAfterPut | src/primer/trie.cpp:33-51 | the key-value map after `Put(k, v)` is the old one with `k` set to `v` |
| Trie.PutKeepsEdges | src/primer/trie.cpp:40-47 | `Put` drops no edge: every node keeps a counterpart with at least its children, and the node at the key is a value node holding `v` with the children of the node it replaces |
| Trie.FindAfterRemove | src/primer/trie.cpp:56-57 | after `Remove(k)`, `Get` at `k` returns nothing and every other key reads as before |
| Trie.ContentsAfterRemove | src/primer/trie.cpp:53-57 | the key-value map after `Remove(k)` is the old one without `k` |
| Trie.RemoveIdempotent | src/primer/trie.cpp:56-57 | removing a key twice gives the same trie as removing it once |
| Trie.RemoveDemotesOrPrunes | src/primer/trie.cpp:56-57 | after `Remove(k)` the node at `k` survives as a plain node with its children exactly when it had children, and is gone otherwise |
| Trie.PutRemoveValid | src/primer/trie.cpp:56-57 | `Put` and `Remove` keep a trie free of nodes with neither value nor children |
| Trie.RemoveUndoesPut | src/primer/trie.cpp:56-57 | in such a trie, removing a key that had no value right after putting it restores the trie exactly, down to the empty trie |
| Trie.PutRemoveShareUntouched | src/primer/trie.cpp:34-37 | every subtree of the receiver off the key's path is found unchanged in the trie `Put` and `Remove` return |
| TrieNode.WalkAppend | src/primer/trie.cpp:13-18 | walking `a + b` is walking `a` and then `b` from the node reached |
| TrieNode.KeysMeaning | src/primer/trie.cpp:13-21 | the keys of a node are exactly those at which a value is stored |
| TrieNode.EntriesMeaning | src/primer/trie.cpp:13-21 | the key-value map of a node holds exactly the values the walk finds |
| TrieNode.LookupInsert | src/primer/trie.cpp:40-50 | path-copying insertion sets the value at the key and changes no other key |
| TrieNode.WalkInsertTarget | src/primer/trie.cpp:46-50 | the node at the inserted key is a value node holding the value, with the children of the node it replaces |
| TrieNode.InsertKeepsEdges | src/primer/trie.cpp:40-45 | insertion keeps every node, with at least its children |
| TrieNode.InsertSharesUntouched | src/primer/trie.cpp:34-37 | insertion leaves every subtree off the key's path unchanged |
| TrieNode.InsertInsert | src/primer/trie.cpp:49-50 | a second insertion at the same key replaces the first entirely |
| TrieNode.InsertPruned | src/primer/trie.cpp:40-47 | insertion into a node with dead-end-free children gives a dead-end-free tree |
| TrieNode.EntriesInsert | src/primer/trie.cpp:33-51 | insertion updates the key-value map at one key |
| TrieNode.LookupDelete | src/primer/trie.cpp:56-57 | removal clears the value at the key and changes no other key |
| TrieNode.WalkDeleteTarget | src/primer/trie.cpp:56-57 | the node at the removed key is demoted to a plain node if it has children and pruned otherwise |
| TrieNode.DeleteSharesUntouched | src/primer/trie.cpp:53-57 | removal leaves every subtree off the key's path unchanged |
| TrieNode.DeleteIdempotent | src/primer/trie.cpp:56-57 | a second removal of the same key changes nothing |
| TrieNode.DeletePruned | src/primer/trie.cpp:56-57 | removal leaves no node with neither value nor children behind |
| TrieNode.DeleteInsertEmpty | src/primer/trie.cpp:56-57 | removing the only key of a tree built from an empty node prunes the whole tree |
| TrieNode.DeleteInsert | src/primer/trie.cpp:56-57 | removing a key right after inserting it where no value was restores a dead-end-free tree exactly |
| TrieNode.EntriesDelete | src/primer/trie.cpp:56-57 | removal deletes one key from the key-value map |
| TrieAsWritten.Graft | src/primer/trie.cpp:40-45 | the loop as written leaves the whole key a path in the receiver's root, whose own value is untouched |
| TrieAsWritten.PutAsWritten | src/primer/trie.cpp:36-48 | `Put` as written returns the receiver's own root, edited in place, so receiver and result are the same trie, and the whole key is a path in it |
| TrieAsWritten.GraftKeepsValues | src/primer/trie.cpp:40-45 | the loop as written only adds empty nodes: no key's value changes |
| TrieAsWritten.PutAsWrittenLosesValue | src/primer/trie.cpp:36-48 | `Put` as written leaves `Get` at the key as it was, where the copy-on-write `Put` makes it return the value |
| TrieAsWritten.PutAsWrittenCounterexample | src/primer/trie.cpp:36-48 | on a trie with a bare root, `Put("a", 7)` as written leaves "a" absent and adds an edge to the receiver |

## Left out

- Reference counting, `shared_ptr` lifetimes and pointer identity between versions: nodes are values, and sharing is stated as equality of untouched subtrees.
- `Clone()`: on immutable values a clone is the node itself; "clone, then edit the clone" is the construction of a new node from the old one's fields.
- Editing a fresh clone in place while walking down (the design of `Put`): over immutable values the path is collected on the way down and rebuilt on the way up, which yields the same tree.
- Move-only payloads (`std::move`, `Integer`, `MoveBlocked`): payloads are opaque values; `MoveBlocked` carries no data.
- `Get` returns a pointer into the trie whose validity is tied to the handle; the model returns the value itself.
- The explicit template instantiations (lines 60-84) appear only as the list of type tags.
- The `NotImplementedException` thrown by `Remove` (line 54) and exception machinery: the stub is scaffolding, and `Remove` is modelled as its comment describes.
- Keys are `std::string_view` over `char`; the model uses Dafny `string` and compares characters for equality only, so the signedness of `char` does not matter.
- Trie.Get: on a trie with no root the source dereferences null (lines 12-14, 19); the model returns nothing, as for the empty trie.
- Trie.Put: on a trie with no root the source dereferences null (line 37); the model starts from a fresh empty node.
- Trie.FindEmpty: states the empty-trie reading of a missing root that the source does not have (it dereferences null at lines 14 and 19).
- TrieAsWritten.PutAsWritten: the calls at lines 39 and 46 are ill-formed (and line 46 copies `value` with `std::make_shared<T>(value)`, which cannot compile for the move-only `Integer` and `MoveBlocked` of lines 80 and 83), so they are given no effect; the in-place edits of line 42 reach every `Trie` sharing those nodes, copies of the same handle included, but the model shows them only through the receiver.

## Findings

| source | as written | input that shows it | evidently intended | confidence | as-written member | corrected member |
|---|---|---|---|---|---|---|
| src/primer/trie.cpp:36-48 | `Put` adds empty nodes to the receiver's own path, builds the value node without linking it, and returns the receiver's root | `Put("a", 7u)` on a trie whose root has no children and no value | copy the path and link a new value node at the key, leaving the receiver unchanged (lines 34, 49-50) | high; not executed | TrieAsWritten.PutAsWrittenLosesValue | Trie.Put |
