/** The three recursive walks of the tree-map (node_walk_forward_,
    node_walk_backward_, node_walk_downward_). A callback returning 0 stops
    the walk. Since a callback may keep state through its user parameter,
    its answer is modelled as a function of every visit shown to it so far,
    the current one last. */
module TreeWalk {
  import opened Ordering
  import opened BstTree

  /** One callback invocation: the depth (root = 0) and the node's key and value. */
  datatype Visit<K, V> = Visit(depth: nat, key: K, val: V)

  /** `true` means the callback returned non-zero (go on), `false` means 0 (stop). */
  type Callback<!K, !V> = seq<Visit<K, V>> -> bool

  /** The visits made, and whether the walk ran to the end (the helpers' bool result). */
  datatype WalkResult<K, V> = WalkResult(visits: seq<Visit<K, V>>, completed: bool)

  // ---------------------------------------------------------------------
  // Reference orders (every node, no stopping)

  /** Ascending in-order: left subtree, node, right subtree. */
  function InOrder<K, V>(t: Tree<K, V>, d: nat): seq<Visit<K, V>> {
    match t
    case Leaf => []
    case Node(l, key, val, r) => InOrder(l, d + 1) + [Visit(d, key, val)] + InOrder(r, d + 1)
  }

  /** Descending in-order: right subtree, node, left subtree. */
  function ReverseOrder<K, V>(t: Tree<K, V>, d: nat): seq<Visit<K, V>> {
    match t
    case Leaf => []
    case Node(l, key, val, r) => ReverseOrder(r, d + 1) + [Visit(d, key, val)] + ReverseOrder(l, d + 1)
  }

  /** The downward order as the source writes it: node, RIGHT subtree, then left subtree. */
  function DownwardOrder<K, V>(t: Tree<K, V>, d: nat): seq<Visit<K, V>> {
    match t
    case Leaf => []
    case Node(l, key, val, r) => [Visit(d, key, val)] + DownwardOrder(r, d + 1) + DownwardOrder(l, d + 1)
  }

  /** Offer the visits `vs` to the callback one by one, stopping right after
      the first one it answers 0 to. `hist` is what it was shown before. */
  function Run<K, V>(cb: Callback<K, V>, hist: seq<Visit<K, V>>, vs: seq<Visit<K, V>>): (r: WalkResult<K, V>)
    ensures r.visits <= vs
    ensures r.completed ==> r.visits == vs
    ensures !r.completed ==> |r.visits| > 0 && !cb(hist + r.visits)
    decreases |vs|
  {
    if |vs| == 0 then WalkResult([], true)
    else if !cb(hist + [vs[0]]) then WalkResult([vs[0]], false)
    else
      var rest := Run(cb, hist + [vs[0]], vs[1..]);
      assert hist + ([vs[0]] + rest.visits) == (hist + [vs[0]]) + rest.visits;
      WalkResult([vs[0]] + rest.visits, rest.completed)
  }

  /** Every visit before the last one was answered non-zero: the walk only
      stops where the callback asked it to. */
  lemma {:induction false} RunStopsOnlyWhenAsked<K, V>(cb: Callback<K, V>, hist: seq<Visit<K, V>>, vs: seq<Visit<K, V>>, i: nat)
    requires 1 <= i <= |Run(cb, hist, vs).visits|
    requires Run(cb, hist, vs).completed || i < |Run(cb, hist, vs).visits|
    ensures cb(hist + Run(cb, hist, vs).visits[..i])
    decreases |vs|
  {
    var r := Run(cb, hist, vs);
    assert |vs| > 0;
    if !cb(hist + [vs[0]]) {
      assert false;
    } else {
      var rest := Run(cb, hist + [vs[0]], vs[1..]);
      RunUnfold(cb, hist, vs);
      if 1 < i {
        RunStopsOnlyWhenAsked(cb, hist + [vs[0]], vs[1..], i - 1);
        PrefixOfCons(vs[0], rest.visits, i);
        assert hist + r.visits[..i] == (hist + [vs[0]]) + rest.visits[..i - 1];
      } else {
        PrefixOfCons(vs[0], rest.visits, 1);
      }
    }
  }

  /** One step of Run when the first visit is answered "continue". */
  lemma RunUnfold<K, V>(cb: Callback<K, V>, hist: seq<Visit<K, V>>, vs: seq<Visit<K, V>>)
    requires |vs| > 0 && cb(hist + [vs[0]])
    ensures Run(cb, hist, vs).visits == [vs[0]] + Run(cb, hist + [vs[0]], vs[1..]).visits
    ensures Run(cb, hist, vs).completed == Run(cb, hist + [vs[0]], vs[1..]).completed
  {
  }

  lemma PrefixOfCons<T>(x: T, s: seq<T>, i: nat)
    requires 1 <= i <= |s| + 1
    ensures ([x] + s)[..i] == [x] + s[..i - 1]
  {
  }

  // ---------------------------------------------------------------------
  // The walks as written

  /** node_walk_forward_: left (if any), callback, right (if any). */
  function WalkForward<K, V>(t: Tree<K, V>, d: nat, cb: Callback<K, V>, hist: seq<Visit<K, V>>): WalkResult<K, V>
    requires t.Node?
  {
    var Node(l, key, val, r) := t;
    var rl := if l.Node? then WalkForward(l, d + 1, cb, hist) else WalkResult([], true);
    if !rl.completed then rl
    else
      var here := rl.visits + [Visit(d, key, val)];
      if !cb(hist + here) then WalkResult(here, false)
      else
        var rr := if r.Node? then WalkForward(r, d + 1, cb, hist + here) else WalkResult([], true);
        WalkResult(here + rr.visits, rr.completed)
  }

  /** node_walk_backward_: right (if any), callback, left (if any). */
  function WalkBackward<K, V>(t: Tree<K, V>, d: nat, cb: Callback<K, V>, hist: seq<Visit<K, V>>): WalkResult<K, V>
    requires t.Node?
  {
    var Node(l, key, val, r) := t;
    var rr := if r.Node? then WalkBackward(r, d + 1, cb, hist) else WalkResult([], true);
    if !rr.completed then rr
    else
      var here := rr.visits + [Visit(d, key, val)];
      if !cb(hist + here) then WalkResult(here, false)
      else
        var rl := if l.Node? then WalkBackward(l, d + 1, cb, hist + here) else WalkResult([], true);
        WalkResult(here + rl.visits, rl.completed)
  }

  /** node_walk_downward_: callback, then right (if any), then left (if any). */
  function WalkDownward<K, V>(t: Tree<K, V>, d: nat, cb: Callback<K, V>, hist: seq<Visit<K, V>>): WalkResult<K, V>
    requires t.Node?
  {
    var Node(l, key, val, r) := t;
    var here := [Visit(d, key, val)];
    if !cb(hist + here) then WalkResult(here, false)
    else
      var rr := if r.Node? then WalkDownward(r, d + 1, cb, hist + here) else WalkResult([], true);
      if !rr.completed then WalkResult(here + rr.visits, false)
      else
        var mid := here + rr.visits;
        var rl := if l.Node? then WalkDownward(l, d + 1, cb, hist + mid) else WalkResult([], true);
        WalkResult(mid + rl.visits, rl.completed)
  }

  // ---------------------------------------------------------------------
  // Each walk is its reference order, cut after the first stop

  /** Running over a concatenation runs over the first part and, only if
      that completed, continues over the second. */
  lemma {:induction false} RunAppend<K, V>(cb: Callback<K, V>, hist: seq<Visit<K, V>>, a: seq<Visit<K, V>>, b: seq<Visit<K, V>>)
    ensures Run(cb, hist, a + b) ==
      (var ra := Run(cb, hist, a);
       if !ra.completed then ra
       else var rb := Run(cb, hist + a, b); WalkResult(a + rb.visits, rb.completed))
    decreases |a|
  {
    if |a| == 0 {
      assert a + b == b;
      assert hist + a == hist;
    } else {
      assert (a + b)[0] == a[0];
      assert (a + b)[1..] == a[1..] + b;
      if cb(hist + [a[0]]) {
        RunAppend(cb, hist + [a[0]], a[1..], b);
        assert (hist + [a[0]]) + a[1..] == hist + a;
        assert [a[0]] + a[1..] == a;
      }
    }
  }

  /** node_walk_forward_ shows the callback the ascending in-order sequence,
      stopping right after the first visit the callback answers 0 to. */
  lemma {:induction false} WalkForwardIsInOrder<K, V>(t: Tree<K, V>, d: nat, cb: Callback<K, V>, hist: seq<Visit<K, V>>)
    requires t.Node?
    ensures WalkForward(t, d, cb, hist) == Run(cb, hist, InOrder(t, d))
  {
    var Node(l, key, val, r) := t;
    var v := Visit(d, key, val);
    var sl := InOrder(l, d + 1);
    var sr := InOrder(r, d + 1);
    if l.Node? { WalkForwardIsInOrder(l, d + 1, cb, hist); }
    if r.Node? { WalkForwardIsInOrder(r, d + 1, cb, hist + sl + [v]); }
    RunAppend(cb, hist, sl + [v], sr);
    RunAppend(cb, hist, sl, [v]);
    assert InOrder(t, d) == (sl + [v]) + sr;
    assert hist + (sl + [v]) == hist + sl + [v];
  }

  /** node_walk_backward_ shows the callback the descending in-order sequence. */
  lemma {:induction false} WalkBackwardIsReverseOrder<K, V>(t: Tree<K, V>, d: nat, cb: Callback<K, V>, hist: seq<Visit<K, V>>)
    requires t.Node?
    ensures WalkBackward(t, d, cb, hist) == Run(cb, hist, ReverseOrder(t, d))
  {
    var Node(l, key, val, r) := t;
    var v := Visit(d, key, val);
    var sl := ReverseOrder(l, d + 1);
    var sr := ReverseOrder(r, d + 1);
    if r.Node? { WalkBackwardIsReverseOrder(r, d + 1, cb, hist); }
    if l.Node? { WalkBackwardIsReverseOrder(l, d + 1, cb, hist + sr + [v]); }
    RunAppend(cb, hist, sr + [v], sl);
    RunAppend(cb, hist, sr, [v]);
    assert ReverseOrder(t, d) == (sr + [v]) + sl;
    assert hist + (sr + [v]) == hist + sr + [v];
  }

  /** node_walk_downward_ shows the callback node, right subtree, left subtree. */
  lemma {:induction false} WalkDownwardIsDownwardOrder<K, V>(t: Tree<K, V>, d: nat, cb: Callback<K, V>, hist: seq<Visit<K, V>>)
    requires t.Node?
    ensures WalkDownward(t, d, cb, hist) == Run(cb, hist, DownwardOrder(t, d))
  {
    var Node(l, key, val, r) := t;
    var v := Visit(d, key, val);
    var sl := DownwardOrder(l, d + 1);
    var sr := DownwardOrder(r, d + 1);
    if r.Node? { WalkDownwardIsDownwardOrder(r, d + 1, cb, hist + [v]); }
    if l.Node? { WalkDownwardIsDownwardOrder(l, d + 1, cb, hist + [v] + sr); }
    RunAppend(cb, hist, [v] + sr, sl);
    RunAppend(cb, hist, [v], sr);
    assert DownwardOrder(t, d) == ([v] + sr) + sl;
    assert hist + ([v] + sr) == hist + [v] + sr;
  }

  // ---------------------------------------------------------------------
  // Properties of the reference orders

  /** A walk that is never stopped visits every node exactly once. */
  lemma {:induction false} OrdersVisitEveryNode<K, V>(t: Tree<K, V>, d: nat)
    ensures |InOrder(t, d)| == Count(t)
    ensures |ReverseOrder(t, d)| == Count(t)
    ensures |DownwardOrder(t, d)| == Count(t)
  {
    if t.Node? {
      OrdersVisitEveryNode(t.left, d + 1);
      OrdersVisitEveryNode(t.right, d + 1);
    }
  }

  /** The backward walk's sequence is the forward walk's, reversed. */
  lemma {:induction false} ReverseOrderIsReversed<K, V>(t: Tree<K, V>, d: nat)
    ensures |ReverseOrder(t, d)| == |InOrder(t, d)|
    ensures forall i :: 0 <= i < |InOrder(t, d)| ==>
      ReverseOrder(t, d)[i] == InOrder(t, d)[|InOrder(t, d)| - 1 - i]
  {
    OrdersVisitEveryNode(t, d);
    if t.Node? {
      ReverseOrderIsReversed(t.left, d + 1);
      ReverseOrderIsReversed(t.right, d + 1);
      var a := InOrder(t.left, d + 1);
      var b := InOrder(t.right, d + 1);
      var ra := ReverseOrder(t.left, d + 1);
      var rb := ReverseOrder(t.right, d + 1);
      var v := Visit(d, t.key, t.val);
      var s := a + [v] + b;
      var rs := rb + [v] + ra;
      assert InOrder(t, d) == s;
      assert ReverseOrder(t, d) == rs;
      forall i | 0 <= i < |s|
        ensures rs[i] == s[|s| - 1 - i]
      {
        if i < |rb| {
          assert rs[i] == rb[i];
          assert s[|s| - 1 - i] == b[|b| - 1 - i];
        } else if i == |rb| {
          assert rs[i] == v;
        } else {
          assert rs[i] == ra[i - |rb| - 1];
          assert s[|s| - 1 - i] == a[|a| - 1 - (i - |rb| - 1)];
        }
      }
    }
  }

  /** Every visit in a subtree whose keys all lie below `x` carries a key below `x`. */
  lemma {:induction false} InOrderBelow<K, V>(cmp: (K, K) -> int, t: Tree<K, V>, d: nat, x: K)
    requires AllBelow(cmp, t, x)
    ensures forall v :: v in InOrder(t, d) ==> cmp(v.key, x) < 0
  {
    if t.Node? {
      InOrderBelow(cmp, t.left, d + 1, x);
      InOrderBelow(cmp, t.right, d + 1, x);
    }
  }

  /** Every visit in a subtree whose keys all lie above `x` carries a key above `x`. */
  lemma {:induction false} InOrderAbove<K, V>(cmp: (K, K) -> int, t: Tree<K, V>, d: nat, x: K)
    requires AllAbove(cmp, t, x)
    ensures forall v :: v in InOrder(t, d) ==> cmp(x, v.key) < 0
  {
    if t.Node? {
      InOrderAbove(cmp, t.left, d + 1, x);
      InOrderAbove(cmp, t.right, d + 1, x);
    }
  }

  /** Keys strictly increase along the sequence. */
  ghost predicate StrictlyAscending<K, V>(cmp: (K, K) -> int, vs: seq<Visit<K, V>>) {
    forall i, j :: 0 <= i < j < |vs| ==> cmp(vs[i].key, vs[j].key) < 0
  }

  /** On a search tree the forward walk visits keys in strictly ascending order. */
  lemma {:induction false} InOrderAscending<K(!new), V>(cmp: (K, K) -> int, t: Tree<K, V>, d: nat)
    requires IsTotalOrder(cmp) && IsBst(cmp, t)
    ensures StrictlyAscending(cmp, InOrder(t, d))
  {
    if t.Node? {
      InOrderAscending(cmp, t.left, d + 1);
      InOrderAscending(cmp, t.right, d + 1);
      InOrderBelow(cmp, t.left, d + 1, t.key);
      InOrderAbove(cmp, t.right, d + 1, t.key);
      AscendingJoin(cmp, InOrder(t.left, d + 1), Visit(d, t.key, t.val), InOrder(t.right, d + 1));
    }
  }

  /** Two ascending runs separated by a key above the first and below the
      second form one ascending run. */
  lemma AscendingJoin<K(!new), V>(cmp: (K, K) -> int, a: seq<Visit<K, V>>, v: Visit<K, V>, b: seq<Visit<K, V>>)
    requires IsTotalOrder(cmp)
    requires StrictlyAscending(cmp, a) && StrictlyAscending(cmp, b)
    requires forall x :: x in a ==> cmp(x.key, v.key) < 0
    requires forall x :: x in b ==> cmp(v.key, x.key) < 0
    ensures StrictlyAscending(cmp, a + [v] + b)
  {
    var s := a + [v] + b;
    forall i, j | 0 <= i < j < |s|
      ensures cmp(s[i].key, s[j].key) < 0
    {
      if j < |a| {
        assert s[i] == a[i] && s[j] == a[j];
      } else if i > |a| {
        assert s[i] == b[i - |a| - 1] && s[j] == b[j - |a| - 1];
      } else if i == |a| {
        assert s[j] in b by { assert s[j] == b[j - |a| - 1]; }
      } else if j == |a| {
        assert s[i] in a by { assert s[i] == a[i]; }
      } else {
        assert s[i] in a by { assert s[i] == a[i]; }
        assert s[j] in b by { assert s[j] == b[j - |a| - 1]; }
        LessTrans(cmp, s[i].key, v.key, s[j].key);
      }
    }
  }

  /** On a search tree the backward walk visits keys in strictly descending order. */
  lemma ReverseOrderDescending<K(!new), V>(cmp: (K, K) -> int, t: Tree<K, V>, d: nat)
    requires IsTotalOrder(cmp) && IsBst(cmp, t)
    ensures forall i, j :: 0 <= i < j < |ReverseOrder(t, d)| ==>
      cmp(ReverseOrder(t, d)[j].key, ReverseOrder(t, d)[i].key) < 0
  {
    InOrderAscending(cmp, t, d);
    ReverseOrderIsReversed(t, d);
    var s := InOrder(t, d);
    var rs := ReverseOrder(t, d);
    forall i, j | 0 <= i < j < |rs|
      ensures cmp(rs[j].key, rs[i].key) < 0
    {
      assert rs[j] == s[|s| - 1 - j] && rs[i] == s[|s| - 1 - i];
    }
  }

  /** `v` is the visit a node of `t` produces when `t` sits at depth `d`:
      its depth is `d` plus the node's distance from the top of `t`. */
  ghost predicate InTree<K, V>(t: Tree<K, V>, d: nat, v: Visit<K, V>) {
    t.Node? &&
    ((v.depth == d && v.key == t.key && v.val == t.val)
     || InTree(t.left, d + 1, v) || InTree(t.right, d + 1, v))
  }

  /** Each of the three orders visits exactly the nodes of the tree, each
      reported at its distance from the root. */
  lemma {:induction false} OrdersReportDepth<K, V>(t: Tree<K, V>, d: nat)
    ensures forall v :: v in InOrder(t, d) <==> InTree(t, d, v)
    ensures forall v :: v in ReverseOrder(t, d) <==> InTree(t, d, v)
    ensures forall v :: v in DownwardOrder(t, d) <==> InTree(t, d, v)
  {
    if t.Node? {
      OrdersReportDepth(t.left, d + 1);
      OrdersReportDepth(t.right, d + 1);
    }
  }
}
