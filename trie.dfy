/**
  The trie handle of src/primer/trie.cpp: `Get<T>`, `Put<T>` and `Remove`.

  All three are `const` in the source: they never change the receiver, and
  `Put` and `Remove` return a new `Trie`. Here a `Trie` is an immutable value,
  so the receiver is unchanged by construction and every earlier version keeps
  its contents.

  The bodies of `Put` and `Remove` in the source do not do what their own
  comments and `const` signatures say: `Put` inserts into the original nodes in
  place and never links the new value node into the tree, and `Remove` only
  throws. `Put` and `Remove` below model the copy-on-write behaviour the
  comments prescribe; the module TrieAsWritten models `Put` as written.
 */
module Trie {
  import opened Wrappers
  import opened TrieNode

  /** A handle on a root node; None is the empty trie. */
  datatype Trie = Trie(root: Option<Node>)

  /** The root to start a path copy from: a fresh node for the empty trie. */
  function Root(t: Trie): Node
  {
    match t.root
    case None => Empty
    case Some(n) => n
  }

  /** What `Get<T>` returns: the value at `key` if its type is `T`. A missing
      edge, a node without a value and a value of another type all give None. */
  function Find(t: Trie, key: string, tag: TypeTag): Option<Value>
  {
    match LookupOpt(t.root, key)
    case Some(v) => if TagOf(v) == tag then Some(v) else None
    case None => None
  }

  /** The trie that `Put(key, v)` returns. */
  function Inserted(t: Trie, key: string, v: Value): Trie
  {
    Trie(Some(Insert(Root(t), key, v)))
  }

  /** The trie that `Remove(key)` returns. */
  function Removed(t: Trie, key: string): Trie
  {
    match t.root
    case None => t
    case Some(n) => Trie(Delete(n, key))
  }

  /** A trie in which every node holds a value or leads to one. */
  ghost predicate Valid(t: Trie)
  {
    t.root.Some? ==> Pruned(t.root.value)
  }

  /** The key-value map a trie stands for. */
  ghost function Contents(t: Trie): map<string, Value>
  {
    EntriesOpt(t.root)
  }

  /** `Trie::Get<T>`: one edge per key character, then the value check and
      the type check. */
  method Get(t: Trie, key: string, tag: TypeTag) returns (r: Option<Value>)
    ensures r == Find(t, key, tag)
  {
    if t.root.None? {
      return None;
    }
    var node := t.root.value;
    var i := 0;
    while i < |key|
      invariant 0 <= i <= |key|
      invariant Walk(t.root.value, key) == Walk(node, key[i..])
    {
      if key[i] !in node.children {
        return None;
      }
      node := node.children[key[i]];
      i := i + 1;
    }
    if !node.IsValueNode() {
      return None;
    }
    if TagOf(node.value.value) != tag {
      return None;
    }
    return node.value;
  }

  /** `Trie::Put<T>`: walks the key, taking the existing child for each
      character or a new empty node where there is none, then rebuilds the
      path bottom-up: a value node holding `v` (with the children of the node
      it replaces) at the end, and a copy of each node on the path with its
      edge redirected to the rebuilt child. */
  method Put(t: Trie, key: string, v: Value) returns (r: Trie)
    ensures r == Inserted(t, key, v)
  {
    var node := Root(t);
    var path := [node];
    var i := 0;
    while i < |key|
      invariant 0 <= i <= |key|
      invariant |path| == i + 1 && path[0] == Root(t) && path[i] == node
      invariant forall j :: 0 <= j < i ==> path[j + 1] == Child(path[j], key[j])
    {
      node := if key[i] in node.children then node.children[key[i]] else Empty;
      path := path + [node];
      i := i + 1;
    }
    var built := Node(node.children, Some(v));
    while i > 0
      invariant 0 <= i <= |key|
      invariant built == Insert(path[i], key[i..], v)
    {
      i := i - 1;
      built := Node(path[i].children[key[i] := built], path[i].value);
    }
    r := Trie(Some(built));
  }

  /** `Trie::Remove`: walks the key as far as its edges go; if the whole key
      was walked, the node there loses its value (and goes if it has no
      children). Then the path is rebuilt bottom-up, dropping the edge to a
      child that went and every node left with no value and no children. */
  method Remove(t: Trie, key: string) returns (r: Trie)
    ensures r == Removed(t, key)
  {
    if t.root.None? {
      return t;
    }
    var node := t.root.value;
    var path := [node];
    var i := 0;
    while i < |key| && key[i] in node.children
      invariant 0 <= i <= |key|
      invariant |path| == i + 1 && path[0] == t.root.value && path[i] == node
      invariant forall j :: 0 <= j < i ==> key[j] in path[j].children && path[j + 1] == path[j].children[key[j]]
    {
      node := node.children[key[i]];
      path := path + [node];
      i := i + 1;
    }
    var built := if i == |key| then Prune(Node(node.children, None)) else Some(node);
    while i > 0
      invariant 0 <= i < |path|
      invariant built == Delete(path[i], key[i..])
    {
      i := i - 1;
      match built
      case None =>
        built := Prune(Node(path[i].children - {key[i]}, path[i].value));
      case Some(c) =>
        built := Some(Node(path[i].children[key[i] := c], path[i].value));
    }
    r := Trie(built);
  }

  // ---------------------------------------------------------------- lemmas

  /** `Get` gives up as soon as a key character has no matching child. */
  lemma GetStopsAtMissingEdge(t: Trie, key: string, i: nat, tag: TypeTag)
    requires t.root.Some? && i < |key|
    requires Walk(t.root.value, key[..i]).Some?
    requires key[i] !in Walk(t.root.value, key[..i]).value.children
    ensures Find(t, key, tag) == None
  {
    WalkAppend(t.root.value, key[..i], key[i..]);
    assert key[..i] + key[i..] == key;
  }

  /** Nothing is found in the empty trie. */
  lemma FindEmpty(key: string, tag: TypeTag)
    ensures Find(Trie(None), key, tag) == None
  {
  }

  /** `Get` finds a value exactly when the walk reaches a value node whose
      value has the requested type: a plain node (the root itself for the
      empty key) and a type mismatch both read as absence. */
  lemma FindMeaning(t: Trie, key: string, tag: TypeTag, v: Value)
    ensures Find(t, key, tag) == Some(v) <==>
      t.root.Some? && Walk(t.root.value, key).Some?
      && Walk(t.root.value, key).value.value == Some(v) && TagOf(v) == tag
  {
  }

  /** After `Put(k, v)`, `Get` with the type of `v` at `k` returns `v`, with
      any other type nothing, and every other key reads as before. */
  lemma FindAfterPut(t: Trie, k: string, v: Value, k': string, tag: TypeTag)
    ensures Find(Inserted(t, k, v), k', tag) ==
      if k' == k then (if tag == TagOf(v) then Some(v) else None) else Find(t, k', tag)
  {
    LookupInsert(Root(t), k, v, k');
    WalkEmpty(k');
  }

  /** Putting the same key twice: the last write wins, and the result is the
      same trie as putting the last value alone. */
  lemma PutPut(t: Trie, k: string, v1: Value, v2: Value)
    ensures Inserted(Inserted(t, k, v1), k, v2) == Inserted(t, k, v2)
  {
    InsertInsert(Root(t), k, v1, v2);
  }

  /** `Put` stores one entry: the new contents are the old ones with `k` set
      to `v`. */
  lemma ContentsAfterPut(t: Trie, k: string, v: Value)
    ensures Contents(Inserted(t, k, v)) == Contents(t)[k := v]
  {
    EntriesInsert(Root(t), k, v);
    if t.root.None? {
      assert Keys(Empty) == {};
    }
  }

  /** After `Remove(k)`, `Get` at `k` finds nothing and every other key reads
      as before. */
  lemma FindAfterRemove(t: Trie, k: string, k': string, tag: TypeTag)
    ensures Find(Removed(t, k), k', tag) == if k' == k then None else Find(t, k', tag)
  {
    if t.root.Some? {
      LookupDelete(t.root.value, k, k');
    }
  }

  /** `Remove` drops one entry: the new contents are the old ones without `k`. */
  lemma ContentsAfterRemove(t: Trie, k: string)
    ensures Contents(Removed(t, k)) == Contents(t) - {k}
  {
    if t.root.Some? {
      EntriesDelete(t.root.value, k);
    }
  }

  /** Removing a key twice is removing it once; a missing key is a no-op. */
  lemma RemoveIdempotent(t: Trie, k: string)
    ensures Removed(Removed(t, k), k) == Removed(t, k)
  {
    if t.root.Some? {
      match Delete(t.root.value, k)
      case None =>
      case Some(m) => DeleteIdempotent(t.root.value, k, m);
    }
  }

  /** `Put` and `Remove` keep a trie free of dead branches. */
  lemma PutRemoveValid(t: Trie, k: string, v: Value)
    requires Valid(t)
    ensures Valid(Inserted(t, k, v))
    ensures Valid(Removed(t, k))
  {
    InsertPruned(Root(t), k, v);
    if t.root.Some? {
      match Delete(t.root.value, k)
      case None =>
      case Some(m) => DeletePruned(t.root.value, k, m);
    }
  }

  /** Pruning leaves no residue: in a valid trie, removing a key that was
      just put where none was gives back exactly the trie before the `Put`,
      down to the empty trie. */
  lemma RemoveUndoesPut(t: Trie, k: string, v: Value)
    requires Valid(t)
    requires LookupOpt(t.root, k) == None
    ensures Removed(Inserted(t, k, v), k) == t
  {
    if t.root.None? {
      DeleteInsertEmpty(k, v);
    } else {
      DeleteInsert(t.root.value, k, v);
    }
  }

  /** Structural sharing: `Put` and `Remove` leave every subtree that is not
      on the path of the key equal to the receiver's. */
  lemma PutRemoveShareUntouched(t: Trie, k: string, v: Value, p: string)
    requires t.root.Some?
    requires !(p <= k)
    ensures WalkOpt(Inserted(t, k, v).root, p) == Walk(t.root.value, p)
    ensures WalkOpt(Removed(t, k).root, p) == Walk(t.root.value, p)
  {
    InsertSharesUntouched(t.root.value, k, v, p);
    DeleteSharesUntouched(t.root.value, k, p);
  }

  /** `Put` never drops an edge: each node of the receiver has a counterpart
      in the result with at least its children, and the node at the key is a
      value node holding `v` that keeps the children of the node it replaces. */
  lemma PutKeepsEdges(t: Trie, k: string, v: Value, p: string)
    requires t.root.Some? && Walk(t.root.value, p).Some?
    ensures Walk(Root(Inserted(t, k, v)), p).Some?
    ensures Walk(t.root.value, p).value.children.Keys
      <= Walk(Root(Inserted(t, k, v)), p).value.children.Keys
    ensures Walk(Root(Inserted(t, k, v)), k) == Some(Node(ChildrenAt(t.root.value, k), Some(v)))
  {
    InsertKeepsEdges(t.root.value, k, v, p);
    WalkInsertTarget(t.root.value, k, v);
  }

  /** After `Remove(k)` the node at `k` survives, demoted to a plain node,
      exactly when it still has children. */
  lemma RemoveDemotesOrPrunes(t: Trie, k: string)
    requires t.root.Some?
    ensures WalkOpt(Removed(t, k).root, k) ==
      match Walk(t.root.value, k)
      case Some(m) => if m.children != map[] then Some(Node(m.children, None)) else None
      case None => None
  {
    WalkDeleteTarget(t.root.value, k);
  }
}
