/**
  The node layer of the copy-on-write trie (src/primer/trie.cpp).

  A C++ `TrieNode` is shared through `shared_ptr` and never changed once it is
  reachable from a published `Trie`; here a node is an immutable value, so a
  `Clone()` followed by edits of the clone is simply the construction of a new
  `Node` from the old one's fields, and structural sharing between versions is
  stated as equality of untouched subtrees.

  `is_value_node_` is `value.Some?`; a `TrieNodeWithValue<T>` is a node whose
  `value` holds a payload of type `T`, recorded by the payload's type tag.
 */
module TrieNode {
  import opened Wrappers

  type uint32 = x: int | 0 <= x < 0x1_0000_0000
  type uint64 = x: int | 0 <= x < 0x1_0000_0000_0000_0000

  /** The payload types the trie is instantiated with: uint32_t, uint64_t,
      std::string, Integer (a std::unique_ptr<uint32_t>) and MoveBlocked. */
  datatype TypeTag = U32Tag | U64Tag | StringTag | IntegerTag | MoveBlockedTag

  /** A stored payload together with its runtime type. */
  datatype Value =
    | U32(u32: uint32)
    | U64(u64: uint64)
    | Str(s: string)
    | Integer(ptr: Option<uint32>)  // a unique_ptr, which may be null
    | MoveBlocked                   // an opaque move-only payload

  /** The runtime type of a payload: what `dynamic_pointer_cast` inspects. */
  function TagOf(v: Value): TypeTag
  {
    match v
    case U32(_) => U32Tag
    case U64(_) => U64Tag
    case Str(_) => StringTag
    case Integer(_) => IntegerTag
    case MoveBlocked => MoveBlockedTag
  }

  datatype Node = Node(children: map<char, Node>, value: Option<Value>)
  {
    predicate IsValueNode() { value.Some? }
  }

  /** A freshly made `TrieNode`: no children, no value. */
  const Empty := Node(map[], None)

  /** The child of `n` along `c`, or a fresh empty node when there is none
      (the node `Put` creates for a missing edge). */
  function Child(n: Node, c: char): Node
  {
    if c in n.children then n.children[c] else Empty
  }

  /** The node reached from `n` by following one edge per character of `key`,
      or None as soon as an edge is missing. */
  function Walk(n: Node, key: string): Option<Node>
  {
    if key == [] then Some(n)
    else if key[0] in n.children then Walk(n.children[key[0]], key[1..])
    else None
  }

  function WalkOpt(o: Option<Node>, key: string): Option<Node>
  {
    match o
    case None => None
    case Some(n) => Walk(n, key)
  }

  /** The value stored at `key`: the abstract meaning of a node as a map. */
  function Lookup(n: Node, key: string): Option<Value>
  {
    match Walk(n, key)
    case None => None
    case Some(m) => m.value
  }

  function LookupOpt(o: Option<Node>, key: string): Option<Value>
  {
    match o
    case None => None
    case Some(n) => Lookup(n, key)
  }

  /** The children of the node at `key`, or none if there is no such node. */
  function ChildrenAt(n: Node, key: string): map<char, Node>
  {
    match Walk(n, key)
    case None => map[]
    case Some(m) => m.children
  }

  /** Copy-on-write insertion: the nodes on the path of `key` are copied (or
      created where an edge is missing), and the node at the end of `key` is
      replaced by a value node that keeps the replaced node's children. */
  function Insert(n: Node, key: string, v: Value): Node
    decreases |key|
  {
    if key == [] then Node(n.children, Some(v))
    else Node(n.children[key[0] := Insert(Child(n, key[0]), key[1..], v)], n.value)
  }

  /** Drops a node that holds neither a value nor children. */
  function Prune(n: Node): Option<Node>
  {
    if n.value.None? && n.children == map[] then None else Some(n)
  }

  /** Copy-on-write removal: the node at `key` loses its value, and every node
      on the path that is left with no value and no children is removed from
      its parent (None when `n` itself goes). A missing key changes nothing. */
  function Delete(n: Node, key: string): Option<Node>
  {
    if key == [] then Prune(Node(n.children, None))
    else if key[0] !in n.children then Some(n)
    else match Delete(n.children[key[0]], key[1..])
      case None => Prune(Node(n.children - {key[0]}, n.value))
      case Some(c) => Some(Node(n.children[key[0] := c], n.value))
  }

  /** No node in the tree is a dead end: each holds a value or has a child. */
  ghost predicate Pruned(n: Node)
  {
    && (n.value.Some? || n.children != map[])
    && forall c :: c in n.children ==> Pruned(n.children[c])
  }

  /** The keys that hold a value. */
  ghost function Keys(n: Node): set<string>
  {
    (if n.value.Some? then {[]} else {})
    + set c, k | c in n.children && k in Keys(n.children[c]) :: [c] + k
  }

  /** The finite map from keys to values that a node stands for. */
  ghost function Entries(n: Node): map<string, Value>
  {
    map k | k in Keys(n) && Lookup(n, k).Some? :: Lookup(n, k).value
  }

  ghost function EntriesOpt(o: Option<Node>): map<string, Value>
  {
    match o
    case None => map[]
    case Some(n) => Entries(n)
  }

  // ---------------------------------------------------------------- walking

  /** Walking `a + b` is walking `a`, then `b` from the node reached. */
  lemma {:induction false} WalkAppend(n: Node, a: string, b: string)
    ensures Walk(n, a + b) == WalkOpt(Walk(n, a), b)
  {
    if a == [] {
      assert a + b == b;
    } else {
      assert (a + b)[0] == a[0] && (a + b)[1..] == a[1..] + b;
      if a[0] in n.children {
        WalkAppend(n.children[a[0]], a[1..], b);
      }
    }
  }

  lemma WalkEmpty(key: string)
    ensures Walk(Empty, key) == if key == [] then Some(Empty) else None
  {
  }

  /** The keys of a node are exactly those where `Lookup` finds a value. */
  lemma {:induction false} KeysMeaning(n: Node, k: string)
    ensures k in Keys(n) <==> Lookup(n, k).Some?
  {
    if k == [] {
      assert forall c: char, k': string :: |[c] + k'| > 0;
    } else {
      var c, r := k[0], k[1..];
      assert k == [c] + r;
      if c in n.children {
        KeysMeaning(n.children[c], r);
        if k in Keys(n) {
          var c', k' :| c' in n.children && k' in Keys(n.children[c']) && k == [c'] + k';
          assert c' == c && k' == r;
        }
      }
    }
  }

  lemma EntriesMeaning(n: Node, k: string)
    ensures k in Entries(n) <==> Lookup(n, k).Some?
    ensures k in Entries(n) ==> Entries(n)[k] == Lookup(n, k).value
  {
    KeysMeaning(n, k);
  }

  // -------------------------------------------------------------- insertion

  /** After an insertion the key holds the new value and no other key changes. */
  lemma {:induction false} LookupInsert(n: Node, k: string, v: Value, k': string)
    ensures Lookup(Insert(n, k, v), k') == if k' == k then Some(v) else Lookup(n, k')
    decreases |k|
  {
    if k != [] && k' != [] && k'[0] == k[0] {
      var c := k[0];
      LookupInsert(Child(n, c), k[1..], v, k'[1..]);
      WalkEmpty(k'[1..]);
      assert k' == k <==> k'[1..] == k[1..] by {
        assert k == [c] + k[1..] && k' == [c] + k'[1..];
      }
    }
  }

  /** The node at the inserted key is a value node holding `v` that keeps
      every child the replaced node had. */
  lemma {:induction false} WalkInsertTarget(n: Node, k: string, v: Value)
    ensures Walk(Insert(n, k, v), k) == Some(Node(ChildrenAt(n, k), Some(v)))
    decreases |k|
  {
    if k != [] {
      WalkInsertTarget(Child(n, k[0]), k[1..], v);
      WalkEmpty(k[1..]);
    }
  }

  /** Insertion never drops an edge: every node that existed still exists,
      with at least the children it had. */
  lemma {:induction false} InsertKeepsEdges(n: Node, k: string, v: Value, p: string)
    requires Walk(n, p).Some?
    ensures Walk(Insert(n, k, v), p).Some?
    ensures Walk(n, p).value.children.Keys <= Walk(Insert(n, k, v), p).value.children.Keys
  {
    if p != [] && k != [] && p[0] == k[0] {
      InsertKeepsEdges(n.children[p[0]], k[1..], v, p[1..]);
    }
  }

  /** Subtrees off the inserted path are shared unchanged: only the nodes at
      prefixes of the key are rebuilt. */
  lemma {:induction false} InsertSharesUntouched(n: Node, k: string, v: Value, p: string)
    requires !(p <= k)
    ensures Walk(Insert(n, k, v), p) == Walk(n, p)
    decreases |k|
  {
    assert p != [];
    if k != [] && p[0] == k[0] {
      InsertSharesUntouched(Child(n, k[0]), k[1..], v, p[1..]);
      WalkEmpty(p[1..]);
    }
  }

  /** Putting the same key twice is the same as putting the second value only. */
  lemma {:induction false} InsertInsert(n: Node, k: string, v1: Value, v2: Value)
    ensures Insert(Insert(n, k, v1), k, v2) == Insert(n, k, v2)
    decreases |k|
  {
    if k != [] {
      InsertInsert(Child(n, k[0]), k[1..], v1, v2);
    }
  }

  /** Insertion into a node whose children are pruned gives a pruned tree;
      in particular into the empty node. */
  lemma {:induction false} InsertPruned(n: Node, k: string, v: Value)
    requires forall c :: c in n.children ==> Pruned(n.children[c])
    ensures Pruned(Insert(n, k, v))
    decreases |k|
  {
    if k != [] {
      var ch := Child(n, k[0]);
      InsertPruned(ch, k[1..], v);
      assert k[0] in Insert(n, k, v).children;
    }
  }

  lemma EntriesInsert(n: Node, k: string, v: Value)
    ensures Entries(Insert(n, k, v)) == Entries(n)[k := v]
  {
    var a, b := Entries(Insert(n, k, v)), Entries(n)[k := v];
    forall k' | true
      ensures (k' in a <==> k' in b) && (k' in a ==> a[k'] == b[k'])
    {
      LookupInsert(n, k, v, k');
      EntriesMeaning(Insert(n, k, v), k');
      EntriesMeaning(n, k');
    }
  }

  // ---------------------------------------------------------------- removal

  /** After a removal the key holds nothing and no other key changes. */
  lemma {:induction false} LookupDelete(n: Node, k: string, k': string)
    ensures LookupOpt(Delete(n, k), k') == if k' == k then None else Lookup(n, k')
  {
    if k == [] {
    } else if k[0] !in n.children {
      if k' == k {
        assert Walk(n, k) == None;
      }
    } else if k' != [] && k'[0] == k[0] {
      var c := k[0];
      LookupDelete(n.children[c], k[1..], k'[1..]);
      assert k' == k <==> k'[1..] == k[1..] by {
        assert k == [c] + k[1..] && k' == [c] + k'[1..];
      }
    } else if k' != [] {
      assert k' != k;
      var c, c' := k[0], k'[0];
      match Delete(n.children[c], k[1..])
      case None =>
        if c' in n.children {
          assert c' in n.children - {c};
        }
      case Some(_) =>
    }
  }

  /** The node at the removed key survives as a plain node exactly when it
      still has children; otherwise it is gone. */
  lemma {:induction false} WalkDeleteTarget(n: Node, k: string)
    ensures WalkOpt(Delete(n, k), k) ==
      match Walk(n, k)
      case Some(m) => if m.children != map[] then Some(Node(m.children, None)) else None
      case None => None
  {
    if k != [] && k[0] in n.children {
      WalkDeleteTarget(n.children[k[0]], k[1..]);
    }
  }

  /** Subtrees off the removed path are shared unchanged. */
  lemma {:induction false} DeleteSharesUntouched(n: Node, k: string, p: string)
    requires !(p <= k)
    ensures WalkOpt(Delete(n, k), p) == Walk(n, p)
  {
    assert p != [];
    if k == [] {
      if n.children == map[] {
        assert p[0] !in n.children;
      }
    } else if k[0] in n.children {
      var c := k[0];
      if p[0] == c {
        DeleteSharesUntouched(n.children[c], k[1..], p[1..]);
      } else {
        match Delete(n.children[c], k[1..])
        case None =>
          if p[0] in n.children {
            assert p[0] in n.children - {c};
          }
        case Some(_) =>
      }
    }
  }

  /** Removing twice is removing once. */
  lemma {:induction false} DeleteIdempotent(n: Node, k: string, m: Node)
    requires Delete(n, k) == Some(m)
    ensures Delete(m, k) == Some(m)
  {
    if k != [] && k[0] in n.children {
      match Delete(n.children[k[0]], k[1..])
      case None =>
      case Some(c) =>
        DeleteIdempotent(n.children[k[0]], k[1..], c);
        assert m.children[k[0] := c] == m.children;
    }
  }

  /** Removal keeps a pruned tree pruned: no dead branch is left behind. */
  lemma {:induction false} DeletePruned(n: Node, k: string, m: Node)
    requires Pruned(n)
    requires Delete(n, k) == Some(m)
    ensures Pruned(m)
  {
    if k != [] && k[0] in n.children {
      match Delete(n.children[k[0]], k[1..])
      case None =>
      case Some(c) => DeletePruned(n.children[k[0]], k[1..], c);
    }
  }

  /** Removing what was just put into the empty node leaves nothing. */
  lemma {:induction false} DeleteInsertEmpty(k: string, v: Value)
    ensures Delete(Insert(Empty, k, v), k) == None
  {
    if k != [] {
      DeleteInsertEmpty(k[1..], v);
      assert Child(Empty, k[0]) == Empty;
      assert Insert(Empty, k, v).children - {k[0]} == map[];
    }
  }

  /** In a pruned tree, removing a key that held nothing right after putting
      it restores the tree exactly. */
  lemma {:induction false} DeleteInsert(n: Node, k: string, v: Value)
    requires Pruned(n)
    requires Lookup(n, k) == None
    ensures Delete(Insert(n, k, v), k) == Some(n)
  {
    if k != [] {
      var c := k[0];
      if c in n.children {
        assert Lookup(n.children[c], k[1..]) == None;
        DeleteInsert(n.children[c], k[1..], v);
        var ins := Insert(n, k, v);
        assert ins.children[c] == Insert(n.children[c], k[1..], v);
        assert ins.children[c := n.children[c]] == n.children;
      } else {
        DeleteInsertEmpty(k[1..], v);
        assert n.children[c := Insert(Empty, k[1..], v)] - {c} == n.children;
      }
    }
  }

  lemma EntriesDelete(n: Node, k: string)
    ensures EntriesOpt(Delete(n, k)) == Entries(n) - {k}
  {
    var a, b := EntriesOpt(Delete(n, k)), Entries(n) - {k};
    forall k' | true
      ensures (k' in a <==> k' in b) && (k' in a ==> a[k'] == b[k'])
    {
      LookupDelete(n, k, k');
      EntriesMeaning(n, k');
      if Delete(n, k).Some? {
        EntriesMeaning(Delete(n, k).value, k');
      }
    }
  }
}
