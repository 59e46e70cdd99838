/** The tree-map descriptor and its API: the empty initialiser, the size
    macros, insert-or-replace, find, walk and free-storage. The element-free
    callback is modelled by the trace of calls it receives; the allocator by
    a success/failure choice passed in, and by the byte counts requested. */
module TMap {
  import opened Common
  import opened Ordering
  import opened BstTree
  import opened TreeWalk
  import Layout

  /** One call of the element-free callback. A replacement passes a NULL
      key (`Replaced`), an erasure the node's key (`Erased`); el_index is
      passed through as given. */
  datatype FreeEvent<K, V> = Replaced(elIndex: int, val: V) | Erased(elIndex: int, key: K, val: V) {
    /** The p_el_key argument: NULL exactly for a replacement. */
    function KeyArg(): Option<K> {
      if Replaced? then None else Some(key)
    }
  }

  /** What tearing the tree down does, in order: callback calls and node frees
      (with the byte count handed back to the allocator). */
  datatype Effect<K, V> = ElementFree(event: FreeEvent<K, V>) | FreeNode(key: K, bytes: nat)

  /** collect_c_tmap_t. `hasElementFree` says whether pfn_element_free is
      non-NULL; the allocator, flags and user parameters are not modelled. */
  datatype TMap<!K, V> = TMap(
    keySize: nat,
    valSize: nat,
    size: nat,
    root: Tree<K, V>,
    cmp: (K, K) -> int,
    hasElementFree: bool)

  /** The descriptor invariants: search-tree ordering and size == number of nodes. */
  ghost predicate Valid<K, V>(m: TMap<K, V>) {
    IsBst(m.cmp, m.root) && m.size == Count(m.root)
  }

  /** collect_c_tmap_walkdir_t. */
  datatype WalkDir = Default | Forward | Backward | Downward {
    function Code(): int {
      match this
      case Default => 0
      case Forward => 1
      case Backward => 2
      case Downward => 3
    }
  }

  /** The enumerator, if any, that has the given value. */
  function DirFromCode(c: int): (d: Option<WalkDir>)
    ensures d.Some? ==> d.value.Code() == c
    ensures d.None? ==> c < 0 || c > 3
  {
    if c == 0 then Some(Default)
    else if c == 1 then Some(Forward)
    else if c == 2 then Some(Backward)
    else if c == 3 then Some(Downward)
    else None
  }

  /** The four enumerators have the distinct values 0..3 and each value
      names its enumerator. */
  lemma WalkDirCodes(d: WalkDir)
    ensures 0 <= d.Code() <= 3
    ensures DirFromCode(d.Code()) == Some(d)
  {
  }

  // ---------------------------------------------------------------------
  // Construction and attributes

  /** COLLECT_C_TMAP_EMPTY_INITIALIZER_: an empty map with the given key and
      value sizes (sizeof the key and value types), comparator and optional
      element-free callback. */
  function EmptyInitializer<K(!new), V>(keySize: nat, valSize: nat, cmp: (K, K) -> int, hasElementFree: bool): (m: TMap<K, V>)
    ensures Valid(m) && IsEmpty(m) && Len(m) == 0
    ensures m.keySize == keySize && m.valSize == valSize && m.cmp == cmp
    ensures m.hasElementFree == hasElementFree
    ensures forall p :: FindNode(m, p).None?
  {
    TMap(keySize, valSize, 0, Leaf, cmp, hasElementFree)
  }

  /** COLLECT_C_TMAP_define_empty / _define_empty_with_comparison_function:
      the empty initializer with no element-free callback. */
  function DefineEmpty<K(!new), V>(keySize: nat, valSize: nat, cmp: (K, K) -> int): (m: TMap<K, V>)
    ensures Valid(m) && IsEmpty(m) && Len(m) == 0
    ensures m.keySize == keySize && m.valSize == valSize && m.cmp == cmp
    ensures !m.hasElementFree
  {
    EmptyInitializer(keySize, valSize, cmp, false)
  }

  /** COLLECT_C_TMAP_is_empty. */
  predicate IsEmpty<K, V>(m: TMap<K, V>) {
    m.size == 0
  }

  /** COLLECT_C_TMAP_len. */
  function Len<K, V>(m: TMap<K, V>): nat {
    m.size
  }

  /** On a valid map the size macros describe the tree: empty exactly when
      there is no root, and the length is the number of elements a full walk
      visits. */
  lemma SizeMacrosDescribeTree<K, V>(m: TMap<K, V>)
    requires Valid(m)
    ensures IsEmpty(m) <==> m.root.Leaf?
    ensures Len(m) == |InOrder(m.root, 0)|
  {
    OrdersVisitEveryNode(m.root, 0);
  }

  // ---------------------------------------------------------------------
  // Find

  /** collect_c_tmap_find_node: the node whose key compares equal to `k`, or NULL. */
  function FindNode<K, V>(m: TMap<K, V>, k: K): (r: Option<Tree<K, V>>)
    ensures r.Some? ==> r.value.Node? && m.cmp(k, r.value.key) == 0 && Occurs(r.value, m.root)
  {
    Find(m.cmp, m.root, k).node
  }

  /** On a valid map, find returns NULL exactly when no stored key compares
      equal to the probe. */
  lemma FindNodeIffPresent<K(!new), V>(m: TMap<K, V>, k: K)
    requires IsTotalOrder(m.cmp) && Valid(m)
    ensures FindNode(m, k).Some? <==> HasEquiv(m.cmp, m.root, k)
  {
    FindIffPresent(m.cmp, m.root, k);
  }

  // ---------------------------------------------------------------------
  // Insert

  /** The result of collect_c_tmap_insert: return code, the map afterwards,
      the *p_was_replaced and *new_node out-values, the byte count asked of
      the allocator (if it was asked), and the element-free calls made. */
  datatype InsertOutcome<!K, V> = InsertOutcome(
    code: int,
    after: TMap<K, V>,
    wasReplaced: int,
    newNode: Option<Tree<K, V>>,
    allocRequest: Option<nat>,
    events: seq<FreeEvent<K, V>>)

  /** collect_c_tmap_insert. `wasReplaced` and `newNode` are the values the
      caller's out-variables held before the call; `allocOk` is whether the
      allocator returns a block. The source needs a root whenever size is
      non-zero (it asserts the search visited a node). */
  function Insert<K, V>(m: TMap<K, V>, k: K, v: V, newNode: Option<Tree<K, V>>, wasReplaced: int, allocOk: bool): (r: InsertOutcome<K, V>)
    requires m.size != 0 ==> m.root.Node?
    ensures r.code == 0 || r.code == ENOMEM
    ensures r.code == ENOMEM <==> !allocOk && (m.size == 0 || Search(m.cmp, m.root, k).None?)
    ensures r.code == ENOMEM ==> r.after == m && r.events == []
    ensures r.newNode == newNode
    ensures r.after.keySize == m.keySize && r.after.valSize == m.valSize
    ensures r.after.cmp == m.cmp && r.after.hasElementFree == m.hasElementFree
    ensures r.after.size != 0 ==> r.after.root.Node?
    ensures r.allocRequest.Some? ==> r.allocRequest.value == Layout.NodeSize(m.keySize, m.valSize)
    // empty map
    ensures m.size == 0 && allocOk ==>
      r.after.root == Node(Leaf, k, v, Leaf) && r.after.size == 1 && r.wasReplaced == 0
    ensures m.size == 0 && !allocOk ==> r.wasReplaced == wasReplaced
    // key already present
    ensures m.size != 0 && Search(m.cmp, m.root, k).Some? ==>
      && r.code == 0 && r.wasReplaced == 1 && r.allocRequest.None?
      && r.after.size == m.size && SameShape(m.root, r.after.root)
      && Lookup(m.cmp, r.after.root, k) == Some(v)
      && r.events == (if m.hasElementFree then [Replaced(-1, Search(m.cmp, m.root, k).value.val)] else [])
    // new key
    ensures m.size != 0 && Search(m.cmp, m.root, k).None? ==>
      r.wasReplaced == 0 && r.events == [] && r.allocRequest.Some?
    ensures m.size != 0 && Search(m.cmp, m.root, k).None? && allocOk ==>
      r.after.size == m.size + 1 && Count(r.after.root) == Count(m.root) + 1
  {
    var cb := Layout.NodeSize(m.keySize, m.valSize);
    if m.size == 0 then
      if !allocOk then InsertOutcome(ENOMEM, m, wasReplaced, newNode, Some(cb), [])
      else InsertOutcome(0, m.(root := Node(Leaf, k, v, Leaf), size := 1), 0, newNode, Some(cb), [])
    else
      var found := Find(m.cmp, m.root, k).node;
      if found.Some? then
        var events := if m.hasElementFree then [Replaced(-1, found.value.val)] else [];
        InsertOutcome(0, m.(root := SetVal(m.cmp, m.root, k, v)), 1, newNode, None, events)
      else if !allocOk then
        InsertOutcome(ENOMEM, m, 0, newNode, Some(cb), [])
      else
        InsertOutcome(0, m.(root := AddNode(m.cmp, m.root, k, v), size := m.size + 1), 0, newNode, Some(cb), [])
  }

  /** COLLECT_C_TMAP_insert_by_val: insert with a NULL new_node out-parameter. */
  function InsertByVal<K, V>(m: TMap<K, V>, k: K, v: V, wasReplaced: int, allocOk: bool): (r: InsertOutcome<K, V>)
    requires m.size != 0 ==> m.root.Node?
    ensures r == Insert(m, k, v, None, wasReplaced, allocOk)
    ensures r.newNode.None?
  {
    Insert(m, k, v, None, wasReplaced, allocOk)
  }

  /** Insert keeps the descriptor invariants. */
  lemma InsertKeepsValid<K(!new), V>(m: TMap<K, V>, k: K, v: V, newNode: Option<Tree<K, V>>, wasReplaced: int, allocOk: bool)
    requires IsTotalOrder(m.cmp) && Valid(m)
    ensures Valid(Insert(m, k, v, newNode, wasReplaced, allocOk).after)
  {
    if m.size != 0 {
      var found := Search(m.cmp, m.root, k);
      if found.Some? {
        SameShapeKeepsBst(m.cmp, m.root, SetVal(m.cmp, m.root, k, v));
      } else if allocOk {
        AddNodeKeepsBst(m.cmp, m.root, k, v);
      }
    }
  }

  /** After a successful insert, probes equivalent to the key find the new
      value and all other probes find what they found before. */
  lemma InsertLookup<K(!new), V>(m: TMap<K, V>, k: K, v: V, newNode: Option<Tree<K, V>>, wasReplaced: int, allocOk: bool, p: K)
    requires IsTotalOrder(m.cmp) && Valid(m)
    requires Insert(m, k, v, newNode, wasReplaced, allocOk).code == 0
    ensures Lookup(m.cmp, Insert(m, k, v, newNode, wasReplaced, allocOk).after.root, p)
         == if m.cmp(p, k) == 0 then Some(v) else Lookup(m.cmp, m.root, p)
  {
    if m.size != 0 {
      if Search(m.cmp, m.root, k).Some? {
        SetValLookup(m.cmp, m.root, k, v, p);
      } else {
        AddNodeLookup(m.cmp, m.root, k, v, p);
      }
    }
  }

  /** On a valid map, insert reports a replacement exactly when a key
      comparing equal was already stored, and grows the map by one exactly
      when it was not. */
  lemma InsertReplacesIffPresent<K(!new), V>(m: TMap<K, V>, k: K, v: V, newNode: Option<Tree<K, V>>, wasReplaced: int)
    requires IsTotalOrder(m.cmp) && Valid(m)
    ensures Insert(m, k, v, newNode, wasReplaced, true).wasReplaced == (if HasEquiv(m.cmp, m.root, k) then 1 else 0)
    ensures Insert(m, k, v, newNode, wasReplaced, true).after.size == m.size + (if HasEquiv(m.cmp, m.root, k) then 0 else 1)
  {
    SearchComplete(m.cmp, m.root, k);
  }

  /** Successive by-value inserts of the pairs in `kvs`, in order, each
      with the allocator succeeding. */
  function InsertAll<K, V>(m: TMap<K, V>, kvs: seq<(K, V)>): (r: TMap<K, V>)
    requires m.size != 0 ==> m.root.Node?
    ensures r.size != 0 ==> r.root.Node?
    ensures r.cmp == m.cmp && r.keySize == m.keySize && r.valSize == m.valSize
    ensures r.hasElementFree == m.hasElementFree
    ensures r.size >= m.size
    decreases |kvs|
  {
    if |kvs| == 0 then m
    else
      var front := InsertAll(m, kvs[..|kvs| - 1]);
      InsertByVal(front, kvs[|kvs| - 1].0, kvs[|kvs| - 1].1, 0, true).after
  }

  /** The value of the last pair in `kvs` whose key compares equal to `p`. */
  function LastWritten<K, V>(cmp: (K, K) -> int, kvs: seq<(K, V)>, p: K): Option<V> {
    if |kvs| == 0 then None
    else if cmp(p, kvs[|kvs| - 1].0) == 0 then Some(kvs[|kvs| - 1].1)
    else LastWritten(cmp, kvs[..|kvs| - 1], p)
  }

  /** After a run of inserts the map is valid and each probe finds the value
      last written under an equivalent key, or else what it found before. */
  lemma {:induction false} InsertAllLookup<K(!new), V>(m: TMap<K, V>, kvs: seq<(K, V)>, p: K)
    requires IsTotalOrder(m.cmp) && Valid(m)
    ensures Valid(InsertAll(m, kvs))
    ensures Lookup(m.cmp, InsertAll(m, kvs).root, p)
         == if LastWritten(m.cmp, kvs, p).Some? then LastWritten(m.cmp, kvs, p) else Lookup(m.cmp, m.root, p)
    decreases |kvs|
  {
    if |kvs| > 0 {
      var front := InsertAll(m, kvs[..|kvs| - 1]);
      var (k, v) := kvs[|kvs| - 1];
      InsertAllLookup(m, kvs[..|kvs| - 1], p);
      InsertKeepsValid(front, k, v, None, 0, true);
      InsertLookup(front, k, v, None, 0, true, p);
    }
  }

  /** No key of `kvs` compares equal to `p`, so nothing was last written under it. */
  lemma {:induction false} LastWrittenAbsent<K, V>(cmp: (K, K) -> int, kvs: seq<(K, V)>, p: K)
    requires forall i :: 0 <= i < |kvs| ==> cmp(p, kvs[i].0) != 0
    ensures LastWritten(cmp, kvs, p).None?
    decreases |kvs|
  {
    if |kvs| > 0 {
      LastWrittenAbsent(cmp, kvs[..|kvs| - 1], p);
    }
  }

  /** Inserting a key with no equivalent stored, when lookup of it fails,
      grows the map by one. */
  lemma InsertAbsentGrows<K(!new), V>(m: TMap<K, V>, k: K, v: V)
    requires IsTotalOrder(m.cmp) && Valid(m)
    requires Lookup(m.cmp, m.root, k).None?
    ensures Len(InsertByVal(m, k, v, 0, true).after) == Len(m) + 1
  {
    SearchComplete(m.cmp, m.root, k);
    InsertReplacesIffPresent(m, k, v, None, 0);
  }

  /** Pairwise non-equivalent keys: no two positions hold keys that compare equal. */
  ghost predicate DistinctKeys<K, V>(cmp: (K, K) -> int, kvs: seq<(K, V)>) {
    forall i, j :: 0 <= i < |kvs| && 0 <= j < |kvs| && i != j ==> cmp(kvs[i].0, kvs[j].0) != 0
  }

  /** Dropping the last pair keeps the keys distinct, and the last key has no
      equivalent among the others. */
  lemma DistinctPrefix<K, V>(cmp: (K, K) -> int, kvs: seq<(K, V)>)
    requires DistinctKeys(cmp, kvs) && |kvs| > 0
    ensures DistinctKeys(cmp, kvs[..|kvs| - 1])
    ensures forall i :: 0 <= i < |kvs| - 1 ==> cmp(kvs[|kvs| - 1].0, kvs[i].0) != 0
  {
    var kvs' := kvs[..|kvs| - 1];
    forall i, j | 0 <= i < |kvs'| && 0 <= j < |kvs'| && i != j
      ensures cmp(kvs'[i].0, kvs'[j].0) != 0
    {
      assert kvs'[i] == kvs[i] && kvs'[j] == kvs[j];
    }
  }

  /** Pairwise non-equivalent keys inserted into an empty map are all added:
      the length afterwards is the number of pairs. */
  lemma {:induction false} InsertAllDistinctSize<K(!new), V>(m: TMap<K, V>, kvs: seq<(K, V)>)
    requires IsTotalOrder(m.cmp) && Valid(m) && m.root.Leaf?
    requires DistinctKeys(m.cmp, kvs)
    ensures Len(InsertAll(m, kvs)) == |kvs|
    decreases |kvs|
  {
    if |kvs| > 0 {
      var kvs' := kvs[..|kvs| - 1];
      var front := InsertAll(m, kvs');
      var (k, v) := kvs[|kvs| - 1];
      DistinctPrefix(m.cmp, kvs);
      InsertAllDistinctSize(m, kvs');
      assert forall i :: 0 <= i < |kvs'| ==> kvs'[i] == kvs[i];
      LastWrittenAbsent(m.cmp, kvs', k);
      InsertAllLookup(m, kvs', k);
      InsertAbsentGrows(front, k, v);
      assert InsertAll(m, kvs) == InsertByVal(front, k, v, 0, true).after;
    }
  }

  // ---------------------------------------------------------------------
  // Walk

  /** The result of collect_c_tmap_walk: the node helpers' assertion failing
      on an empty map's NULL root, or the return code and the visits made. */
  datatype WalkOutcome<K, V> = NullRootFailure | Walked(code: int, visits: seq<Visit<K, V>>)

  /** collect_c_tmap_walk. It hands the root to a node helper whatever the
      size, and the helpers assert a non-NULL node, so walking an empty map
      fails. Direction 1 walks forward, 2 backward; 0, 3 and any other value
      walk downward (an unknown value fails an assertion in debug builds and
      falls through in release builds). The return code is 0 whether or not
      the callback stopped the walk. */
  function Walk<K, V>(m: TMap<K, V>, cb: Callback<K, V>, direction: int): (r: WalkOutcome<K, V>)
    ensures r.NullRootFailure? <==> m.root.Leaf?
    ensures r.Walked? ==> r.code == 0
    ensures r.Walked? && direction == Forward.Code() ==>
      r.visits == Run(cb, [], InOrder(m.root, 0)).visits
    ensures r.Walked? && direction == Backward.Code() ==>
      r.visits == Run(cb, [], ReverseOrder(m.root, 0)).visits
    ensures r.Walked? && direction != Forward.Code() && direction != Backward.Code() ==>
      r.visits == Run(cb, [], DownwardOrder(m.root, 0)).visits
  {
    if m.root.Leaf? then
      NullRootFailure
    else if direction == Forward.Code() then
      WalkForwardIsInOrder(m.root, 0, cb, []);
      Walked(0, WalkForward(m.root, 0, cb, []).visits)
    else if direction == Backward.Code() then
      WalkBackwardIsReverseOrder(m.root, 0, cb, []);
      Walked(0, WalkBackward(m.root, 0, cb, []).visits)
    else
      WalkDownwardIsDownwardOrder(m.root, 0, cb, []);
      Walked(0, WalkDownward(m.root, 0, cb, []).visits)
  }

  /** Walking an empty map, in any direction, fails the helpers' assertion. */
  lemma WalkEmptyMapFails<K(!new), V>(m: TMap<K, V>, cb: Callback<K, V>, direction: int)
    requires Valid(m) && m.size == 0
    ensures Walk(m, cb, direction).NullRootFailure?
  {
  }

  /** A callback that never stops the walk. */
  function AlwaysContinue<K, V>(): Callback<K, V> {
    (h: seq<Visit<K, V>>) => true
  }

  /** Walking a valid map without stopping: every direction visits all
      `size` nodes; forward is strictly ascending, backward strictly descending. */
  lemma UnstoppedWalks<K(!new), V>(m: TMap<K, V>)
    requires IsTotalOrder(m.cmp) && Valid(m) && m.root.Node?
    ensures forall dir :: Walk(m, AlwaysContinue(), dir).Walked?
    ensures forall dir :: |Walk(m, AlwaysContinue(), dir).visits| == m.size
    ensures StrictlyAscending(m.cmp, Walk(m, AlwaysContinue(), Forward.Code()).visits)
    ensures var vs := Walk(m, AlwaysContinue(), Backward.Code()).visits;
      forall i, j :: 0 <= i < j < |vs| ==> m.cmp(vs[j].key, vs[i].key) < 0
  {
    var cb: Callback<K, V> := AlwaysContinue();
    OrdersVisitEveryNode(m.root, 0);
    RunNeverStopped(cb, [], InOrder(m.root, 0));
    RunNeverStopped(cb, [], ReverseOrder(m.root, 0));
    RunNeverStopped(cb, [], DownwardOrder(m.root, 0));
    InOrderAscending(m.cmp, m.root, 0);
    ReverseOrderDescending(m.cmp, m.root, 0);
  }

  /** A callback that always continues sees the whole sequence. */
  lemma {:induction false} RunNeverStopped<K, V>(cb: Callback<K, V>, hist: seq<Visit<K, V>>, vs: seq<Visit<K, V>>)
    requires cb == AlwaysContinue()
    ensures Run(cb, hist, vs) == WalkResult(vs, true)
    decreases |vs|
  {
    if |vs| > 0 {
      RunNeverStopped(cb, hist + [vs[0]], vs[1..]);
      assert [vs[0]] + vs[1..] == vs;
    }
  }

  // ---------------------------------------------------------------------
  // Free storage

  /** The callback call (if a callback is attached) and the free for one node. */
  function NodeTeardown<K, V>(hasElementFree: bool, key: K, val: V, bytes: nat): seq<Effect<K, V>> {
    (if hasElementFree then [ElementFree(Erased(-1, key, val))] else []) + [FreeNode(key, bytes)]
  }

  /** clc_c_tm_destroy_child_nodes_4_ / _6_: for each child (left first), tear
      down the child's own children, then call back on the child (the _6_
      variant) and free it. The node itself is left to the caller. */
  function DestroyChildren<K, V>(t: Tree<K, V>, hasElementFree: bool, bytes: nat): seq<Effect<K, V>>
    requires t.Node?
  {
    (if t.left.Node? then
      DestroyChildren(t.left, hasElementFree, bytes) + NodeTeardown(hasElementFree, t.left.key, t.left.val, bytes)
    else [])
    +
    (if t.right.Node? then
      DestroyChildren(t.right, hasElementFree, bytes) + NodeTeardown(hasElementFree, t.right.key, t.right.val, bytes)
    else [])
  }

  /** Outcome of clc_treemap_free_storage as written: an empty map fails the
      helpers' non-NULL assertion. */
  datatype FreeOutcome<!K, V> = AssertionFailure | Freed(after: TMap<K, V>, effects: seq<Effect<K, V>>)

  /** clc_treemap_free_storage as written: the child helpers are called on
      m->root before the NULL check that guards the root's own teardown. */
  function FreeStorageAsWritten<K, V>(m: TMap<K, V>): (r: FreeOutcome<K, V>)
    ensures r.AssertionFailure? <==> m.root.Leaf?
    ensures r.Freed? ==> r.after.size == 0 && r.after.root.Leaf? && r.effects == FreeStorage(m).effects
  {
    if m.root.Leaf? then AssertionFailure
    else
      var bytes := Layout.NodeSize(m.keySize, m.valSize);
      Freed(m.(size := 0, root := Leaf),
            DestroyChildren(m.root, m.hasElementFree, bytes)
            + NodeTeardown(m.hasElementFree, m.root.key, m.root.val, bytes))
  }

  /** An empty map, e.g. one freshly defined, cannot be freed as written, nor
      can a map be freed twice. */
  lemma FreeEmptyMapFails<K(!new), V>(keySize: nat, valSize: nat, cmp: (K, K) -> int, m: TMap<K, V>)
    requires m.root.Node?
    ensures FreeStorageAsWritten(DefineEmpty<K, V>(keySize, valSize, cmp)) == AssertionFailure
    ensures FreeStorageAsWritten(FreeStorageAsWritten(m).after) == AssertionFailure
  {
  }

  /** The result of the corrected free-storage: the emptied map and the effects. */
  datatype Teardown<!K, V> = Teardown(after: TMap<K, V>, effects: seq<Effect<K, V>>)

  /** clc_treemap_free_storage with the child teardown moved under the
      NULL-root check, so that an empty map is freed as a no-op. */
  function FreeStorage<K, V>(m: TMap<K, V>): (r: Teardown<K, V>)
    ensures r.after.size == 0 && r.after.root.Leaf? && Valid(r.after)
    ensures r.after.keySize == m.keySize && r.after.valSize == m.valSize
    ensures r.after.cmp == m.cmp && r.after.hasElementFree == m.hasElementFree
    ensures m.root.Leaf? ==> r.effects == []
  {
    var bytes := Layout.NodeSize(m.keySize, m.valSize);
    var effects :=
      if m.root.Leaf? then []
      else DestroyChildren(m.root, m.hasElementFree, bytes)
           + NodeTeardown(m.hasElementFree, m.root.key, m.root.val, bytes);
    Teardown(m.(size := 0, root := Leaf), effects)
  }

  /** Post-order: left subtree, right subtree, then the node. */
  function PostOrder<K, V>(t: Tree<K, V>, d: nat): seq<Visit<K, V>> {
    match t
    case Leaf => []
    case Node(l, key, val, r) => PostOrder(l, d + 1) + PostOrder(r, d + 1) + [Visit(d, key, val)]
  }

  /** The teardown of a sequence of nodes, one after the other. */
  function TeardownAll<K, V>(hasElementFree: bool, bytes: nat, vs: seq<Visit<K, V>>): seq<Effect<K, V>> {
    if |vs| == 0 then []
    else TeardownAll(hasElementFree, bytes, vs[..|vs| - 1])
         + NodeTeardown(hasElementFree, vs[|vs| - 1].key, vs[|vs| - 1].val, bytes)
  }

  lemma {:induction false} TeardownAllAppend<K, V>(hasElementFree: bool, bytes: nat, a: seq<Visit<K, V>>, b: seq<Visit<K, V>>)
    ensures TeardownAll(hasElementFree, bytes, a + b)
         == TeardownAll(hasElementFree, bytes, a) + TeardownAll(hasElementFree, bytes, b)
    decreases |b|
  {
    if |b| == 0 {
      assert a + b == a;
    } else {
      var b' := b[..|b| - 1];
      assert (a + b)[..|a + b| - 1] == a + b';
      assert (a + b)[|a + b| - 1] == b[|b| - 1];
      TeardownAllAppend(hasElementFree, bytes, a, b');
    }
  }

  /** Tearing down the children of `t` handles exactly the nodes below `t`,
      in post-order. */
  lemma {:induction false} DestroyChildrenIsPostOrder<K, V>(t: Tree<K, V>, d: nat, hasElementFree: bool, bytes: nat)
    requires t.Node?
    ensures DestroyChildren(t, hasElementFree, bytes)
         == TeardownAll(hasElementFree, bytes, PostOrder(t.left, d + 1) + PostOrder(t.right, d + 1))
  {
    var l, r := t.left, t.right;
    TeardownAllAppend(hasElementFree, bytes, PostOrder(l, d + 1), PostOrder(r, d + 1));
    if l.Node? {
      DestroyChildrenIsPostOrder(l, d + 1, hasElementFree, bytes);
      var pl := PostOrder(l.left, d + 2) + PostOrder(l.right, d + 2);
      assert PostOrder(l, d + 1) == pl + [Visit(d + 1, l.key, l.val)];
      assert PostOrder(l, d + 1)[..|PostOrder(l, d + 1)| - 1] == pl;
    }
    if r.Node? {
      DestroyChildrenIsPostOrder(r, d + 1, hasElementFree, bytes);
      var pr := PostOrder(r.left, d + 2) + PostOrder(r.right, d + 2);
      assert PostOrder(r, d + 1) == pr + [Visit(d + 1, r.key, r.val)];
      assert PostOrder(r, d + 1)[..|PostOrder(r, d + 1)| - 1] == pr;
    }
  }

  /** free-storage tears the whole tree down in post-order: left subtree,
      right subtree, node, each node's callback call (if any) just before
      its free, every free reporting the node size used to allocate it. */
  lemma FreeStorageIsPostOrder<K, V>(m: TMap<K, V>)
    ensures FreeStorage(m).effects
         == TeardownAll(m.hasElementFree, Layout.NodeSize(m.keySize, m.valSize), PostOrder(m.root, 0))
  {
    if m.root.Node? {
      var bytes := Layout.NodeSize(m.keySize, m.valSize);
      var t := m.root;
      DestroyChildrenIsPostOrder(t, 0, m.hasElementFree, bytes);
      var p := PostOrder(t.left, 1) + PostOrder(t.right, 1);
      assert PostOrder(t, 0) == p + [Visit(0, t.key, t.val)];
      assert PostOrder(t, 0)[..|PostOrder(t, 0)| - 1] == p;
    }
  }

  /** Post-order visits the same nodes as in-order, each exactly once. */
  lemma {:induction false} PostOrderIsPermutation<K, V>(t: Tree<K, V>, d: nat)
    ensures multiset(PostOrder(t, d)) == multiset(InOrder(t, d))
  {
    if t.Node? {
      PostOrderIsPermutation(t.left, d + 1);
      PostOrderIsPermutation(t.right, d + 1);
    }
  }

  /** The callback calls of a teardown: one `Erased` call per node, with the
      node's key (never NULL) and el_index -1, in the order of the nodes. */
  function ErasedOf<K, V>(vs: seq<Visit<K, V>>): seq<FreeEvent<K, V>> {
    if |vs| == 0 then [] else ErasedOf(vs[..|vs| - 1]) + [Erased(-1, vs[|vs| - 1].key, vs[|vs| - 1].val)]
  }

  /** The callback calls within a sequence of effects. */
  function CallsIn<K, V>(es: seq<Effect<K, V>>): seq<FreeEvent<K, V>> {
    if |es| == 0 then []
    else CallsIn(es[..|es| - 1]) + (if es[|es| - 1].ElementFree? then [es[|es| - 1].event] else [])
  }

  /** The node frees within a sequence of effects, as (key, bytes) pairs. */
  function FreesIn<K, V>(es: seq<Effect<K, V>>): seq<(K, nat)> {
    if |es| == 0 then []
    else FreesIn(es[..|es| - 1]) + (if es[|es| - 1].FreeNode? then [(es[|es| - 1].key, es[|es| - 1].bytes)] else [])
  }

  lemma {:induction false} CallsFreesAppend<K, V>(a: seq<Effect<K, V>>, b: seq<Effect<K, V>>)
    ensures CallsIn(a + b) == CallsIn(a) + CallsIn(b)
    ensures FreesIn(a + b) == FreesIn(a) + FreesIn(b)
    decreases |b|
  {
    if |b| == 0 {
      assert a + b == a;
    } else {
      var b' := b[..|b| - 1];
      assert (a + b)[..|a + b| - 1] == a + b';
      CallsFreesAppend(a, b');
    }
  }

  /** One node's teardown: at most one callback call, and exactly one free. */
  lemma NodeTeardownCallsAndFrees<K, V>(hasElementFree: bool, key: K, val: V, bytes: nat)
    ensures CallsIn(NodeTeardown(hasElementFree, key, val, bytes))
         == if hasElementFree then [Erased(-1, key, val)] else []
    ensures FreesIn(NodeTeardown(hasElementFree, key, val, bytes)) == [(key, bytes)]
  {
    var nt := NodeTeardown(hasElementFree, key, val, bytes);
    if hasElementFree {
      assert nt == [ElementFree(Erased(-1, key, val))] + [FreeNode(key, bytes)];
      CallsFreesAppend([ElementFree(Erased(-1, key, val))], [FreeNode(key, bytes)]);
      assert CallsIn([ElementFree(Erased(-1, key, val))]) == [Erased(-1, key, val)];
    } else {
      assert nt == [FreeNode(key, bytes)];
    }
  }

  /** A teardown calls back once per node with its key (when a callback is
      attached, never otherwise) and frees each node once with `bytes`. */
  lemma TeardownCallsAndFrees<K, V>(hasElementFree: bool, bytes: nat, vs: seq<Visit<K, V>>)
    ensures CallsIn(TeardownAll(hasElementFree, bytes, vs)) == if hasElementFree then ErasedOf(vs) else []
    ensures |FreesIn(TeardownAll(hasElementFree, bytes, vs))| == |vs|
    ensures forall i :: 0 <= i < |vs| ==> FreesIn(TeardownAll(hasElementFree, bytes, vs))[i] == (vs[i].key, bytes)
  {
    TeardownCalls(hasElementFree, bytes, vs);
    TeardownFrees(hasElementFree, bytes, vs);
    FreedPairsAt(vs, bytes);
  }

  lemma {:induction false} TeardownCalls<K, V>(hasElementFree: bool, bytes: nat, vs: seq<Visit<K, V>>)
    ensures CallsIn(TeardownAll(hasElementFree, bytes, vs)) == if hasElementFree then ErasedOf(vs) else []
    decreases |vs|
  {
    if |vs| > 0 {
      var last := vs[|vs| - 1];
      var front := vs[..|vs| - 1];
      var done := TeardownAll(hasElementFree, bytes, front);
      var nt := NodeTeardown(hasElementFree, last.key, last.val, bytes);
      assert TeardownAll(hasElementFree, bytes, vs) == done + nt;
      TeardownCalls(hasElementFree, bytes, front);
      CallsFreesAppend(done, nt);
      NodeTeardownCallsAndFrees(hasElementFree, last.key, last.val, bytes);
    }
  }

  /** The (key, bytes) pair freed for each node of `vs`, in order. */
  function FreedPairs<K, V>(vs: seq<Visit<K, V>>, bytes: nat): (ps: seq<(K, nat)>)
    ensures |ps| == |vs|
  {
    if |vs| == 0 then [] else FreedPairs(vs[..|vs| - 1], bytes) + [(vs[|vs| - 1].key, bytes)]
  }

  lemma {:induction false} FreedPairsAt<K, V>(vs: seq<Visit<K, V>>, bytes: nat)
    ensures forall i :: 0 <= i < |vs| ==> FreedPairs(vs, bytes)[i] == (vs[i].key, bytes)
    decreases |vs|
  {
    if |vs| > 0 {
      var front := vs[..|vs| - 1];
      FreedPairsAt(front, bytes);
      var ps := FreedPairs(vs, bytes);
      assert ps == FreedPairs(front, bytes) + [(vs[|vs| - 1].key, bytes)];
      forall i | 0 <= i < |vs|
        ensures ps[i] == (vs[i].key, bytes)
      {
        if i < |front| {
          assert ps[i] == FreedPairs(front, bytes)[i];
          assert vs[i] == front[i];
        }
      }
    }
  }

  lemma {:induction false} TeardownFrees<K, V>(hasElementFree: bool, bytes: nat, vs: seq<Visit<K, V>>)
    ensures FreesIn(TeardownAll(hasElementFree, bytes, vs)) == FreedPairs(vs, bytes)
    decreases |vs|
  {
    if |vs| > 0 {
      var last := vs[|vs| - 1];
      var front := vs[..|vs| - 1];
      var done := TeardownAll(hasElementFree, bytes, front);
      var nt := NodeTeardown(hasElementFree, last.key, last.val, bytes);
      assert TeardownAll(hasElementFree, bytes, vs) == done + nt;
      TeardownFrees(hasElementFree, bytes, front);
      CallsFreesAppend(done, nt);
      NodeTeardownCallsAndFrees(hasElementFree, last.key, last.val, bytes);
    }
  }

  /** Every callback call made while freeing passes the node's key (never
      NULL) and el_index -1. */
  lemma {:induction false} ErasedCallsCarryKeys<K, V>(vs: seq<Visit<K, V>>)
    ensures |ErasedOf(vs)| == |vs|
    ensures forall i :: 0 <= i < |vs| ==>
      ErasedOf(vs)[i].KeyArg() == Some(vs[i].key) && ErasedOf(vs)[i].elIndex == -1 && ErasedOf(vs)[i].val == vs[i].val
    decreases |vs|
  {
    if |vs| > 0 {
      ErasedCallsCarryKeys(vs[..|vs| - 1]);
    }
  }

  /** Freeing a valid map calls the element-free callback (when attached)
      exactly once per stored element, always with a key and el_index -1,
      and frees `size` nodes, each with the byte count it was allocated with. */
  lemma FreeStorageExactlyOnce<K, V>(m: TMap<K, V>)
    requires Valid(m)
    ensures CallsIn(FreeStorage(m).effects) == (if m.hasElementFree then ErasedOf(PostOrder(m.root, 0)) else [])
    ensures |CallsIn(FreeStorage(m).effects)| == (if m.hasElementFree then m.size else 0)
    ensures forall e :: e in CallsIn(FreeStorage(m).effects) ==> e.KeyArg().Some? && e.elIndex == -1
    ensures |FreesIn(FreeStorage(m).effects)| == m.size
    ensures forall f :: f in FreesIn(FreeStorage(m).effects) ==> f.1 == Layout.NodeSize(m.keySize, m.valSize)
  {
    var bytes := Layout.NodeSize(m.keySize, m.valSize);
    var po := PostOrder(m.root, 0);
    var es := FreeStorage(m).effects;
    FreeStorageIsPostOrder(m);
    assert es == TeardownAll(m.hasElementFree, bytes, po);
    TeardownCallsAndFrees(m.hasElementFree, bytes, po);
    ErasedCallsCarryKeys(po);
    assert |po| == m.size by {
      PostOrderIsPermutation(m.root, 0);
      OrdersVisitEveryNode(m.root, 0);
      assert |multiset(po)| == |multiset(InOrder(m.root, 0))|;
    }
    var calls := CallsIn(es);
    forall e | e in calls
      ensures e.KeyArg().Some? && e.elIndex == -1
    {
      var i :| 0 <= i < |calls| && calls[i] == e;
      assert calls == ErasedOf(po);
    }
    var frees := FreesIn(es);
    forall f | f in frees
      ensures f.1 == bytes
    {
      var i :| 0 <= i < |frees| && frees[i] == f;
    }
  }
}
