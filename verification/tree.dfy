/** The unbalanced binary search tree underneath the tree-map: the search
    (clc_c_tm_find_), the in-place value overwrite of a found node, and the
    second descent that hangs a fresh node below a leaf (add_node_to_).
    A node reference is modelled as the subtree rooted at that node. */
module BstTree {
  import opened Common
  import opened Ordering

  datatype Tree<K, V> = Leaf | Node(left: Tree<K, V>, key: K, val: V, right: Tree<K, V>)

  /** Number of nodes. */
  function Count<K, V>(t: Tree<K, V>): nat {
    match t
    case Leaf => 0
    case Node(l, _, _, r) => Count(l) + 1 + Count(r)
  }

  /** Some node's key compares equal to `k`. */
  predicate HasEquiv<K, V>(cmp: (K, K) -> int, t: Tree<K, V>, k: K) {
    match t
    case Leaf => false
    case Node(l, key, _, r) => cmp(k, key) == 0 || HasEquiv(cmp, l, k) || HasEquiv(cmp, r, k)
  }

  /** Every key in `t` compares strictly less than `k`. */
  predicate AllBelow<K, V>(cmp: (K, K) -> int, t: Tree<K, V>, k: K) {
    match t
    case Leaf => true
    case Node(l, key, _, r) => cmp(key, k) < 0 && AllBelow(cmp, l, k) && AllBelow(cmp, r, k)
  }

  /** Every key in `t` compares strictly greater than `k`. */
  predicate AllAbove<K, V>(cmp: (K, K) -> int, t: Tree<K, V>, k: K) {
    match t
    case Leaf => true
    case Node(l, key, _, r) => cmp(k, key) < 0 && AllAbove(cmp, l, k) && AllAbove(cmp, r, k)
  }

  /** Search-tree ordering: left keys below, right keys above, at every node. */
  predicate IsBst<K, V>(cmp: (K, K) -> int, t: Tree<K, V>) {
    match t
    case Leaf => true
    case Node(l, key, _, r) =>
      AllBelow(cmp, l, key) && AllAbove(cmp, r, key) && IsBst(cmp, l) && IsBst(cmp, r)
  }

  /** `s` is the subtree rooted at some node of `t` (or `t` itself). */
  ghost predicate Occurs<K, V>(s: Tree<K, V>, t: Tree<K, V>) {
    s == t || (t.Node? && (Occurs(s, t.left) || Occurs(s, t.right)))
  }

  /** Two trees with the same nodes, keys and links; only values may differ. */
  ghost predicate SameShape<K, V>(a: Tree<K, V>, b: Tree<K, V>) {
    match a
    case Leaf => b.Leaf?
    case Node(l, key, _, r) =>
      b.Node? && b.key == key && SameShape(l, b.left) && SameShape(r, b.right)
  }

  /** The node the descent of clc_c_tm_find_ stops at: go left while the
      probe compares less, right while it compares greater, stop on 0. */
  function Search<K, V>(cmp: (K, K) -> int, t: Tree<K, V>, k: K): (r: Option<Tree<K, V>>)
    ensures r.Some? ==> r.value.Node? && cmp(k, r.value.key) == 0 && Occurs(r.value, t)
    ensures r.Some? ==> HasEquiv(cmp, t, k)
  {
    match t
    case Leaf => None
    case Node(l, key, _, rt) =>
      var cr := cmp(k, key);
      if cr < 0 then Search(cmp, l, k)
      else if cr > 0 then Search(cmp, rt, k)
      else Some(t)
  }

  /** The `*last_visited` out-parameter: the last node whose key the
      descent compared, starting from `last`. */
  function LastVisited<K, V>(cmp: (K, K) -> int, t: Tree<K, V>, k: K, last: Option<Tree<K, V>>): (r: Option<Tree<K, V>>)
    ensures t.Leaf? ==> r == last
    ensures t.Node? ==> r.Some? && r.value.Node? && Occurs(r.value, t)
    ensures Search(cmp, t, k).Some? ==> r == Search(cmp, t, k)
  {
    match t
    case Leaf => last
    case Node(l, key, _, rt) =>
      var cr := cmp(k, key);
      if cr < 0 then LastVisited(cmp, l, k, Some(t))
      else if cr > 0 then LastVisited(cmp, rt, k, Some(t))
      else Some(t)
  }

  /** Output of clc_c_tm_find_: the node found (NULL if none), the last node
      compared, and *num_visited. */
  datatype FindResult<K, V> = FindResult(node: Option<Tree<K, V>>, lastVisited: Option<Tree<K, V>>, numVisited: nat)

  /** clc_c_tm_find_ from the root. *num_visited is zeroed and never
      incremented, so it is always 0; the last node compared is NULL only
      for an empty tree. */
  function Find<K, V>(cmp: (K, K) -> int, root: Tree<K, V>, k: K): (r: FindResult<K, V>)
    ensures r.numVisited == 0
    ensures r.node.Some? ==> r.node.value.Node? && cmp(k, r.node.value.key) == 0 && Occurs(r.node.value, root)
    ensures r.node.Some? ==> r.lastVisited == r.node
    ensures root.Node? <==> r.lastVisited.Some?
  {
    FindResult(Search(cmp, root, k), LastVisited(cmp, root, k, None), 0)
  }

  /** The value stored under a key equivalent to `k`, as find reports it. */
  function Lookup<K, V>(cmp: (K, K) -> int, t: Tree<K, V>, k: K): Option<V> {
    var f := Search(cmp, t, k);
    if f.Some? then Some(f.value.val) else None
  }

  /** Every tree has its own shape. */
  lemma {:induction false} SameShapeRefl<K, V>(t: Tree<K, V>)
    ensures SameShape(t, t)
  {
    if t.Node? {
      SameShapeRefl(t.left);
      SameShapeRefl(t.right);
    }
  }

  /** Overwrite (memcpy) the value of the node the search for `k` finds;
      nothing else changes. */
  function SetVal<K, V>(cmp: (K, K) -> int, t: Tree<K, V>, k: K, v: V): (r: Tree<K, V>)
    ensures SameShape(t, r)
    ensures Count(r) == Count(t)
    ensures Search(cmp, t, k).Some? ==> Lookup(cmp, r, k) == Some(v)
    ensures Search(cmp, t, k).None? ==> r == t
  {
    match t
    case Leaf => Leaf
    case Node(l, key, x, rt) =>
      var cr := cmp(k, key);
      if cr < 0 then SameShapeRefl(rt); Node(SetVal(cmp, l, k, v), key, x, rt)
      else if cr > 0 then SameShapeRefl(l); Node(l, key, x, SetVal(cmp, rt, k, v))
      else SameShapeRefl(l); SameShapeRefl(rt); Node(l, key, v, rt)
  }

  /** add_node_to_: hang the fresh node (key `k`, value `v`, no children)
      below `t`, going left when `k` compares less than a node's key and
      right otherwise. The source asserts that no comparison on the way
      returns 0, which holds exactly when the search for `k` failed. */
  function AddNode<K, V>(cmp: (K, K) -> int, t: Tree<K, V>, k: K, v: V): (r: Tree<K, V>)
    requires t.Node?
    requires Search(cmp, t, k).None?
    ensures r.Node? && r.key == t.key && r.val == t.val
    ensures cmp(k, t.key) < 0 ==> r.right == t.right
    ensures cmp(k, t.key) > 0 ==> r.left == t.left
    ensures Count(r) == Count(t) + 1
    ensures cmp(k, k) == 0 ==> Search(cmp, r, k) == Some(Node(Leaf, k, v, Leaf))
  {
    var cr := cmp(k, t.key);
    if cr < 0 then
      if t.left.Leaf? then Node(Node(Leaf, k, v, Leaf), t.key, t.val, t.right)
      else Node(AddNode(cmp, t.left, k, v), t.key, t.val, t.right)
    else
      if t.right.Leaf? then Node(t.left, t.key, t.val, Node(Leaf, k, v, Leaf))
      else Node(t.left, t.key, t.val, AddNode(cmp, t.right, k, v))
  }

  // ---------------------------------------------------------------------
  // Search correctness

  /** A key equivalent to something in a subtree that lies above `a` is itself above `a`. */
  lemma {:induction false} EquivInAboveIsAbove<K(!new), V>(cmp: (K, K) -> int, t: Tree<K, V>, a: K, k: K)
    requires IsTotalOrder(cmp)
    requires AllAbove(cmp, t, a) && HasEquiv(cmp, t, k)
    ensures cmp(a, k) < 0
  {
    var key := t.key;
    if cmp(k, key) == 0 {
      EquivSymmetric(cmp, k, key);
      LessThenEquiv(cmp, a, key, k);
    } else if HasEquiv(cmp, t.left, k) {
      EquivInAboveIsAbove(cmp, t.left, a, k);
    } else {
      EquivInAboveIsAbove(cmp, t.right, a, k);
    }
  }

  /** A key equivalent to something in a subtree that lies below `a` is itself below `a`. */
  lemma {:induction false} EquivInBelowIsBelow<K(!new), V>(cmp: (K, K) -> int, t: Tree<K, V>, a: K, k: K)
    requires IsTotalOrder(cmp)
    requires AllBelow(cmp, t, a) && HasEquiv(cmp, t, k)
    ensures cmp(k, a) < 0
  {
    var key := t.key;
    if cmp(k, key) == 0 {
      EquivThenLess(cmp, k, key, a);
    } else if HasEquiv(cmp, t.left, k) {
      EquivInBelowIsBelow(cmp, t.left, a, k);
    } else {
      EquivInBelowIsBelow(cmp, t.right, a, k);
    }
  }

  /** In a search tree, the descent finds a node exactly when some key
      compares equal to the probe: going one way never misses a match. */
  lemma {:induction false} SearchComplete<K(!new), V>(cmp: (K, K) -> int, t: Tree<K, V>, k: K)
    requires IsTotalOrder(cmp) && IsBst(cmp, t)
    ensures Search(cmp, t, k).Some? <==> HasEquiv(cmp, t, k)
  {
    match t
    case Leaf =>
    case Node(l, key, _, rt) =>
      var cr := cmp(k, key);
      if cr < 0 {
        SearchComplete(cmp, l, k);
        if HasEquiv(cmp, rt, k) {
          EquivInAboveIsAbove(cmp, rt, key, k);
          LessFlips(cmp, key, k);
        }
      } else if cr > 0 {
        SearchComplete(cmp, rt, k);
        if HasEquiv(cmp, l, k) {
          EquivInBelowIsBelow(cmp, l, key, k);
        }
      }
  }

  /** find on a search tree returns NULL exactly when no key compares equal
      to the probe, and otherwise a node of the tree whose key does. */
  lemma FindIffPresent<K(!new), V>(cmp: (K, K) -> int, t: Tree<K, V>, k: K)
    requires IsTotalOrder(cmp) && IsBst(cmp, t)
    ensures Find(cmp, t, k).node.Some? <==> HasEquiv(cmp, t, k)
  {
    SearchComplete(cmp, t, k);
  }

  /** Probes that compare equal follow the same path and find the same node. */
  lemma {:induction false} EquivProbesFindSame<K(!new), V>(cmp: (K, K) -> int, t: Tree<K, V>, k: K, p: K)
    requires IsTotalOrder(cmp) && cmp(p, k) == 0
    ensures Search(cmp, t, p) == Search(cmp, t, k)
  {
    match t
    case Leaf =>
    case Node(l, key, _, rt) =>
      SameSide(cmp, p, k, key);
      if cmp(k, key) < 0 {
        EquivProbesFindSame(cmp, l, k, p);
      } else if cmp(k, key) > 0 {
        EquivProbesFindSame(cmp, rt, k, p);
      }
  }

  /** Equivalent probes compare the same way against any key. */
  lemma SameSide<K(!new)>(cmp: (K, K) -> int, p: K, k: K, key: K)
    requires IsTotalOrder(cmp) && cmp(p, k) == 0
    ensures Sign(cmp(p, key)) == Sign(cmp(k, key))
  {
    EquivSymmetric(cmp, p, k);
    if cmp(k, key) < 0 {
      EquivThenLess(cmp, p, k, key);
    } else if cmp(k, key) > 0 {
      LessFlips(cmp, k, key);
      LessThenEquiv(cmp, key, k, p);
      LessFlips(cmp, key, p);
    }
  }

  // ---------------------------------------------------------------------
  // Replacement

  /** After overwriting the value found for `k`, every probe equivalent to
      `k` finds the new value and every other probe finds what it found before. */
  lemma {:induction false} SetValLookup<K(!new), V>(cmp: (K, K) -> int, t: Tree<K, V>, k: K, v: V, p: K)
    requires IsTotalOrder(cmp)
    requires Search(cmp, t, k).Some?
    ensures Lookup(cmp, SetVal(cmp, t, k, v), p) == if cmp(p, k) == 0 then Some(v) else Lookup(cmp, t, p)
  {
    var Node(l, key, x, rt) := t;
    var ck := cmp(k, key);
    if cmp(p, k) == 0 {
      SameSide(cmp, p, k, key);
    } else if ck == 0 {
      NotEquivToEquiv(cmp, p, k, key);
    }
    if ck < 0 {
      if cmp(p, key) < 0 {
        SetValLookup(cmp, l, k, v, p);
      }
    } else if ck > 0 {
      if cmp(p, key) > 0 {
        SetValLookup(cmp, rt, k, v, p);
      }
    }
  }

  /** A probe not equivalent to `k` is not equivalent to anything equivalent to `k`. */
  lemma NotEquivToEquiv<K(!new)>(cmp: (K, K) -> int, p: K, k: K, key: K)
    requires IsTotalOrder(cmp) && cmp(k, key) == 0 && cmp(p, k) != 0
    ensures cmp(p, key) != 0
  {
    EquivSymmetric(cmp, k, key);
  }

  /** Trees of the same shape carry the same keys in the same places, so
      overwriting values keeps the search-tree ordering. */
  lemma {:induction false} SameShapeKeepsBst<K, V>(cmp: (K, K) -> int, a: Tree<K, V>, b: Tree<K, V>)
    requires SameShape(a, b) && IsBst(cmp, a)
    ensures IsBst(cmp, b)
  {
    if a.Node? {
      SameShapeKeepsBst(cmp, a.left, b.left);
      SameShapeKeepsBst(cmp, a.right, b.right);
      SameShapeKeepsBounds(cmp, a.left, b.left, a.key);
      SameShapeKeepsBounds(cmp, a.right, b.right, a.key);
    }
  }

  lemma {:induction false} SameShapeKeepsBounds<K, V>(cmp: (K, K) -> int, a: Tree<K, V>, b: Tree<K, V>, x: K)
    requires SameShape(a, b)
    ensures AllBelow(cmp, a, x) ==> AllBelow(cmp, b, x)
    ensures AllAbove(cmp, a, x) ==> AllAbove(cmp, b, x)
  {
    if a.Node? {
      SameShapeKeepsBounds(cmp, a.left, b.left, x);
      SameShapeKeepsBounds(cmp, a.right, b.right, x);
    }
  }

  // ---------------------------------------------------------------------
  // Attaching a new node

  /** The new key lands below every ancestor it went left at. */
  lemma {:induction false} AddNodeBelow<K, V>(cmp: (K, K) -> int, t: Tree<K, V>, k: K, v: V, a: K)
    requires t.Node? && Search(cmp, t, k).None?
    requires AllBelow(cmp, t, a) && cmp(k, a) < 0
    ensures AllBelow(cmp, AddNode(cmp, t, k, v), a)
  {
    if cmp(k, t.key) < 0 {
      if t.left.Node? { AddNodeBelow(cmp, t.left, k, v, a); }
    } else {
      if t.right.Node? { AddNodeBelow(cmp, t.right, k, v, a); }
    }
  }

  /** The new key lands above every ancestor it went right at. */
  lemma {:induction false} AddNodeAbove<K, V>(cmp: (K, K) -> int, t: Tree<K, V>, k: K, v: V, a: K)
    requires t.Node? && Search(cmp, t, k).None?
    requires AllAbove(cmp, t, a) && cmp(a, k) < 0
    ensures AllAbove(cmp, AddNode(cmp, t, k, v), a)
  {
    if cmp(k, t.key) < 0 {
      if t.left.Node? { AddNodeAbove(cmp, t.left, k, v, a); }
    } else {
      if t.right.Node? { AddNodeAbove(cmp, t.right, k, v, a); }
    }
  }

  /** Attaching the node where add_node_to_ puts it keeps the search-tree
      ordering invariant. */
  lemma {:induction false} AddNodeKeepsBst<K(!new), V>(cmp: (K, K) -> int, t: Tree<K, V>, k: K, v: V)
    requires IsTotalOrder(cmp) && IsBst(cmp, t)
    requires t.Node? && Search(cmp, t, k).None?
    ensures IsBst(cmp, AddNode(cmp, t, k, v))
  {
    if cmp(k, t.key) < 0 {
      if t.left.Node? {
        AddNodeKeepsBst(cmp, t.left, k, v);
        AddNodeBelow(cmp, t.left, k, v, t.key);
      }
    } else {
      LessFlips(cmp, t.key, k);
      if t.right.Node? {
        AddNodeKeepsBst(cmp, t.right, k, v);
        AddNodeAbove(cmp, t.right, k, v, t.key);
      }
    }
  }

  /** After the attach, a probe equivalent to the new key finds the new
      value; every other probe finds what it found before. */
  lemma {:induction false} AddNodeLookup<K(!new), V>(cmp: (K, K) -> int, t: Tree<K, V>, k: K, v: V, p: K)
    requires IsTotalOrder(cmp)
    requires t.Node? && Search(cmp, t, k).None?
    ensures Lookup(cmp, AddNode(cmp, t, k, v), p) == if cmp(p, k) == 0 then Some(v) else Lookup(cmp, t, p)
  {
    SameSide(cmp, k, k, t.key);
    if cmp(p, k) == 0 {
      SameSide(cmp, p, k, t.key);
    }
    var leaf := Node(Leaf, k, v, Leaf);
    if cmp(k, t.key) < 0 && cmp(p, t.key) < 0 {
      if t.left.Node? {
        AddNodeLookup(cmp, t.left, k, v, p);
      } else {
        assert Search(cmp, AddNode(cmp, t, k, v), p) == Search(cmp, leaf, p);
      }
    } else if cmp(k, t.key) > 0 && cmp(p, t.key) > 0 {
      if t.right.Node? {
        AddNodeLookup(cmp, t.right, k, v, p);
      } else {
        assert Search(cmp, AddNode(cmp, t, k, v), p) == Search(cmp, leaf, p);
      }
    }
  }

  /** The attach adds exactly one key to the tree. */
  lemma {:induction false} AddNodeKeys<K, V>(cmp: (K, K) -> int, t: Tree<K, V>, k: K, v: V, p: K)
    requires t.Node? && Search(cmp, t, k).None?
    ensures HasEquiv(cmp, AddNode(cmp, t, k, v), p) <==> HasEquiv(cmp, t, p) || cmp(p, k) == 0
  {
    if cmp(k, t.key) < 0 {
      if t.left.Node? { AddNodeKeys(cmp, t.left, k, v, p); }
    } else {
      if t.right.Node? { AddNodeKeys(cmp, t.right, k, v, p); }
    }
  }
}
