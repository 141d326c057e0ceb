/**
  The body of `Trie::Put` as written (src/primer/trie.cpp:36-48), set against
  the copy-on-write `Put` of module Trie. Two parts of the body cannot be
  followed literally: the calls at lines 39 and 46 are ill-formed (they pass a
  pointer where no `TrieNode` constructor takes one) and are given no effect
  on the tree; and the in-place edits of line 42 land in nodes that every
  handle sharing them sees, which the model shows only through the receiver.

  As written, the loop inserts a new empty child for each missing edge into
  the receiver's own nodes and descends into them; the value node built after
  the loop is never linked to anything, and the receiver's root is returned.
  So the receiver changes although `Put` is `const`, and the value is never
  stored.
 */
module TrieAsWritten {
  import opened Wrappers
  import opened TrieNode
  import opened Trie

  /** The receiver's root after the loop of lines 40-45: every missing edge on
      the path of `key` now leads to a new empty node. */
  function Graft(n: Node, key: string): (r: Node)
    ensures Walk(r, key).Some?
    ensures r.value == n.value
    decreases |key|
  {
    if key == [] then n
    else Node(n.children[key[0] := Graft(Child(n, key[0]), key[1..])], n.value)
  }

  /** `Put` as written: the receiver after the call, and the trie returned.
      Both are the same root (line 48 returns `root`, which line 42 edited),
      and the whole key is now a path in it. Line 37 dereferences the root,
      so the receiver must have one. */
  function PutAsWritten(t: Trie, key: string, v: Value): (r: (Trie, Trie))
    requires t.root.Some?
    ensures r.0 == r.1 && r.1.root.Some?
    ensures Walk(r.1.root.value, key).Some?
  {
    var grafted := Trie(Some(Graft(t.root.value, key)));
    (grafted, grafted)
  }

  /** Grafting empty nodes adds no value anywhere. */
  lemma {:induction false} GraftKeepsValues(n: Node, key: string, k: string)
    ensures Lookup(Graft(n, key), k) == Lookup(n, k)
    decreases |key|
  {
    if key != [] && k != [] && k[0] == key[0] {
      GraftKeepsValues(Child(n, key[0]), key[1..], k[1..]);
      WalkEmpty(k[1..]);
    }
  }

  /** As written, `Put(key, v)` never makes `v` readable at `key`: `Get` there
      returns what it returned before, while the copy-on-write `Put` returns
      `v`. */
  lemma PutAsWrittenLosesValue(t: Trie, key: string, v: Value)
    requires t.root.Some?
    ensures Find(PutAsWritten(t, key, v).1, key, TagOf(v)) == Find(t, key, TagOf(v))
    ensures Find(Inserted(t, key, v), key, TagOf(v)) == Some(v)
  {
    GraftKeepsValues(t.root.value, key, key);
    FindAfterPut(t, key, v, key, TagOf(v));
  }

  /** A concrete case: putting 7 at "a" into a trie with a bare root. `Get`
      finds nothing afterwards, and the receiver itself has gained an edge. */
  lemma PutAsWrittenCounterexample()
    ensures var t := Trie(Some(Empty));
            var (after, returned) := PutAsWritten(t, "a", U32(7));
            && Find(returned, "a", U32Tag) == None
            && after != t
            && Find(Inserted(t, "a", U32(7)), "a", U32Tag) == Some(U32(7))
  {
  }
}
