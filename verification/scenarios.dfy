/** The tree-map's unit-test scenarios, stated about the model: int keys and
    values, the stock int comparator, and an allocator that always succeeds. */
module TMapScenarios {
  import opened Common
  import opened Ordering
  import opened StockCmp
  import opened BstTree
  import opened TreeWalk
  import opened TMap

  /** collect_c_fn_cmp_int on 4-byte key regions, keys given as bit patterns. */
  function IntCmp(): (nat, nat) -> int {
    (a: nat, b: nat) => HelperCmp(Int32, a, b)
  }

  /** The bit pattern of a 32-bit int. */
  function Bits(i: int): (b: nat)
    requires -0x8000_0000 <= i < 0x8000_0000
    ensures b < 0x1_0000_0000
    ensures Value(Int32, b) == i
  {
    if i < 0 then 0x1_0000_0000 + i else i
  }

  /** CLC_TM_define_empty(int, int, m). */
  function EmptyIntMap(): (m: TMap<nat, int>)
    ensures Valid(m) && m.root.Leaf? && m.cmp == IntCmp()
  {
    DefineEmpty(4, 4, IntCmp())
  }

  /** Inserting 101, 202, 201 and 303 (with the negated values) into an empty
      map adds each, and builds 101 at the root with 202 as its right child,
      201 and 303 below that. */
  lemma FourInserts()
    ensures var r1 := InsertByVal(EmptyIntMap(), 101, -101, 0, true);
      && r1.code == 0 && r1.wasReplaced == 0 && Len(r1.after) == 1
      && r1.after.root == Node(Leaf, 101, -101, Leaf)
      && var r2 := InsertByVal(r1.after, 202, -202, 0, true);
      && r2.code == 0 && r2.wasReplaced == 0 && Len(r2.after) == 2
      && r2.after.root == Node(Leaf, 101, -101, Node(Leaf, 202, -202, Leaf))
      && var r3 := InsertByVal(r2.after, 201, -201, 0, true);
      && r3.code == 0 && r3.wasReplaced == 0 && Len(r3.after) == 3
      && r3.after.root == Node(Leaf, 101, -101, Node(Node(Leaf, 201, -201, Leaf), 202, -202, Leaf))
      && var r4 := InsertByVal(r3.after, 303, -303, 0, true);
      && r4.code == 0 && r4.wasReplaced == 0 && Len(r4.after) == 4
      && r4.after.root == Node(Leaf, 101, -101, Node(Node(Leaf, 201, -201, Leaf), 202, -202, Node(Leaf, 303, -303, Leaf)))
      && FindNode(r4.after, 202) == Some(Node(Node(Leaf, 201, -201, Leaf), 202, -202, Node(Leaf, 303, -303, Leaf)))
  {
  }

  /** The twenty keys of the second insertion test, in insertion order. */
  function TwentyKeys(): seq<int> {
    [0, -5, 5, -2, 2, -7, 7, -1, 1, -3, 3, -4, 4, -6, 6, -8, 8, -9, 9, -10]
  }

  /** The pairs inserted: key `values[i]` with value `-i`. */
  function TwentyPairs(): (kvs: seq<(nat, int)>)
    ensures |kvs| == 20
    ensures forall i :: 0 <= i < 20 ==> kvs[i] == (Bits(TwentyKeys()[i]), -i)
  {
    seq(20, i requires 0 <= i < 20 => (Bits(TwentyKeys()[i]), -i))
  }

  /** The twenty keys are distinct ints, so no two compare equal. */
  lemma TwentyKeysDistinct()
    ensures DistinctKeys(IntCmp(), TwentyPairs())
  {
    var kvs := TwentyPairs();
    forall i, j | 0 <= i < |kvs| && 0 <= j < |kvs| && i != j
      ensures IntCmp()(kvs[i].0, kvs[j].0) != 0
    {
      assert TwentyKeys()[i] != TwentyKeys()[j];
    }
  }

  /** After the twenty inserts the map holds twenty elements, and an
      always-continuing forward walk visits them all in ascending int order. */
  lemma TwentyInserts()
    ensures Len(InsertAll(EmptyIntMap(), TwentyPairs())) == 20
    ensures AscendingWalk(InsertAll(EmptyIntMap(), TwentyPairs()), 20)
  {
    var m0 := EmptyIntMap();
    var kvs := TwentyPairs();
    HelperIsTotalOrder(Int32);
    TwentyKeysDistinct();
    InsertAllDistinctSize(m0, kvs);
    InsertAllLookup(m0, kvs, 0);
    IntWalkAscending(InsertAll(m0, kvs));
  }

  /** A non-empty map whose forward walk visits `n` keys in ascending int order. */
  ghost predicate AscendingWalk(m: TMap<nat, int>, n: nat) {
    && m.root.Node?
    && var r := Walk(m, AlwaysContinue(), Forward.Code());
    && r.Walked? && r.code == 0 && |r.visits| == n
    && forall i, j :: 0 <= i < j < |r.visits| ==> Value(Int32, r.visits[i].key) < Value(Int32, r.visits[j].key)
  }

  /** Any valid non-empty int map walks forward in ascending int order. */
  lemma IntWalkAscending(m: TMap<nat, int>)
    requires m.cmp == IntCmp() && Valid(m) && m.size != 0
    ensures AscendingWalk(m, m.size)
  {
    assert m.root.Node?;
    HelperIsTotalOrder(Int32);
    UnstoppedWalks(m);
    var vs := Walk(m, AlwaysContinue(), Forward.Code()).visits;
    assert StrictlyAscending(IntCmp(), vs);
    forall i, j | 0 <= i < j < |vs|
      ensures Value(Int32, vs[i].key) < Value(Int32, vs[j].key)
    {
      IntCmpLess(vs[i].key, vs[j].key);
    }
  }

  /** The int comparator orders bit patterns by the ints they represent. */
  lemma IntCmpLess(a: nat, b: nat)
    requires IntCmp()(a, b) < 0
    ensures Value(Int32, a) < Value(Int32, b)
  {
    assert HelperCmp(Int32, a, b) < 0;
  }
}
