/** The doubly-linked list: a chain of nodes from head to tail (modelled as
    the sequence of their elements), a size counter, and a chain of spare
    nodes kept by `clear` for reuse. */
module DList {
  import opened Common

  /** collect_c_dlist_t. `items` lists the elements from head to tail;
      `spares` lists the spare nodes' elements from the spares head on. */
  datatype DList<T> = DList(elSize: nat, items: seq<T>, size: nat, spares: seq<T>, numSpares: nat)

  /** size counts the nodes between head and tail. */
  ghost predicate Valid<T>(l: DList<T>) {
    l.size == |l.items|
  }

  // ---------------------------------------------------------------------
  // Push

  /** The result of a push as written: the node is made before the result of
      malloc is checked, so a failed allocation writes through NULL. */
  datatype PushOutcome<T> = Crash | Pushed(code: int, after: DList<T>)

  /** collect_c_dlist_push_back_by_ref as written. The source asserts a
      zero size when the list has no head. */
  function PushBackAsWritten<T>(l: DList<T>, x: T, allocOk: bool): (r: PushOutcome<T>)
    requires |l.items| == 0 ==> l.size == 0
    ensures r.Crash? <==> !allocOk
    ensures r.Pushed? ==> r.code == 0 && r.after == PushBack(l, x, true).after
  {
    if !allocOk then Crash
    else if |l.items| == 0 then Pushed(0, l.(items := [x], size := 1))
    else Pushed(0, l.(items := l.items + [x], size := l.size + 1))
  }

  /** collect_c_dlist_push_front_by_ref as written. */
  function PushFrontAsWritten<T>(l: DList<T>, x: T, allocOk: bool): (r: PushOutcome<T>)
    requires |l.items| == 0 ==> l.size == 0
    ensures r.Crash? <==> !allocOk
    ensures r.Pushed? ==> r.code == 0 && r.after == PushFront(l, x, true).after
  {
    if !allocOk then Crash
    else if |l.items| == 0 then Pushed(0, l.(items := [x], size := 1))
    else Pushed(0, l.(items := [x] + l.items, size := l.size + 1))
  }

  /** As written, the ENOMEM branches of both pushes are unreachable: a failed
      allocation never returns an error code. */
  lemma PushNeverReportsNoMemory<T>(l: DList<T>, x: T)
    requires |l.items| == 0 ==> l.size == 0
    ensures PushBackAsWritten(l, x, false) == Crash
    ensures PushFrontAsWritten(l, x, false) == Crash
    ensures forall ok :: PushBackAsWritten(l, x, ok) != Pushed(ENOMEM, l)
    ensures forall ok :: PushFrontAsWritten(l, x, ok) != Pushed(ENOMEM, l)
  {
  }

  /** The result of a corrected push: return code and the list afterwards. */
  datatype PushResult<T> = PushResult(code: int, after: DList<T>)

  /** push_back with the allocation checked before use: ENOMEM leaves the list
      unchanged, otherwise the element is appended at the tail. */
  function PushBack<T>(l: DList<T>, x: T, allocOk: bool): (r: PushResult<T>)
    requires |l.items| == 0 ==> l.size == 0
    ensures r.code == 0 || r.code == ENOMEM
    ensures r.code == ENOMEM <==> !allocOk
    ensures r.code == ENOMEM ==> r.after == l
    ensures r.code == 0 ==> r.after.items == l.items + [x] && r.after.size == l.size + 1
    ensures r.code == 0 ==> r.after.items[|r.after.items| - 1] == x
    ensures r.after.spares == l.spares && r.after.numSpares == l.numSpares && r.after.elSize == l.elSize
    ensures Valid(l) ==> Valid(r.after)
  {
    if !allocOk then PushResult(ENOMEM, l)
    else if |l.items| == 0 then PushResult(0, l.(items := [x], size := 1))
    else PushResult(0, l.(items := l.items + [x], size := l.size + 1))
  }

  /** push_front with the allocation checked before use: ENOMEM leaves the
      list unchanged, otherwise the element is prepended at the head. */
  function PushFront<T>(l: DList<T>, x: T, allocOk: bool): (r: PushResult<T>)
    requires |l.items| == 0 ==> l.size == 0
    ensures r.code == 0 || r.code == ENOMEM
    ensures r.code == ENOMEM <==> !allocOk
    ensures r.code == ENOMEM ==> r.after == l
    ensures r.code == 0 ==> r.after.items == [x] + l.items && r.after.size == l.size + 1
    ensures r.code == 0 ==> r.after.items[0] == x
    ensures r.after.spares == l.spares && r.after.numSpares == l.numSpares && r.after.elSize == l.elSize
    ensures Valid(l) ==> Valid(r.after)
  {
    if !allocOk then PushResult(ENOMEM, l)
    else if |l.items| == 0 then PushResult(0, l.(items := [x], size := 1))
    else PushResult(0, l.(items := [x] + l.items, size := l.size + 1))
  }

  /** Pushing at the back and reading from the front, or at the front and
      reading from the back, mirror each other: a front push onto `l` is a
      back push onto the reversed list, reversed. */
  lemma {:induction false} PushFrontMirrorsPushBack<T>(l: DList<T>, x: T)
    requires |l.items| == 0 ==> l.size == 0
    ensures Reverse(PushFront(l, x, true).after.items) == PushBack(l.(items := Reverse(l.items)), x, true).after.items
  {
    ReverseAppend([x], l.items);
  }

  // ---------------------------------------------------------------------
  // Find

  /** The number of elements of `s` that `pfn` reports equal to `lhs`. */
  function Matches<T>(pfn: (T, T) -> int, lhs: T, s: seq<T>): nat {
    if |s| == 0 then 0
    else Matches(pfn, lhs, s[..|s| - 1]) + (if pfn(lhs, s[|s| - 1]) == 0 then 1 else 0)
  }

  /** The number of matches among the elements after position `i`. */
  function MatchesAfter<T>(pfn: (T, T) -> int, lhs: T, s: seq<T>, i: nat): nat
    requires i <= |s|
    decreases |s| - i
  {
    if i == |s| then 0
    else MatchesAfter(pfn, lhs, s, i + 1) + (if pfn(lhs, s[i]) == 0 then 1 else 0)
  }

  /** collect_c_dlist_find_node: walk from the head, counting each element
      compared, and stop at the match that follows `skipCount` earlier
      matches. The node found is given by its position. */
  method FindNode<T>(l: DList<T>, pfn: (T, T) -> int, lhs: T, skipCount: nat)
    returns (code: int, node: Option<nat>, numSearched: nat)
    ensures code == 0 || code == ENOENT
    ensures code == 0 <==> Matches(pfn, lhs, l.items) > skipCount
    ensures code == 0 ==>
      && node.Some? && node.value < |l.items|
      && pfn(lhs, l.items[node.value]) == 0
      && Matches(pfn, lhs, l.items[..node.value]) == skipCount
      && numSearched == node.value + 1
    ensures code == ENOENT ==> node.None? && numSearched == |l.items|
  {
    node := None;
    numSearched := 0;
    var skip := skipCount;
    var i := 0;
    while i < |l.items|
      invariant 0 <= i <= |l.items|
      invariant numSearched == i
      invariant Matches(pfn, lhs, l.items[..i]) + skip == skipCount
    {
      assert l.items[..i + 1][..i] == l.items[..i];
      var r := pfn(lhs, l.items[i]);
      numSearched := numSearched + 1;
      if r == 0 {
        if skip == 0 {
          node := Some(i);
          MatchesPrefixGrows(pfn, lhs, l.items, i + 1);
          return 0, node, numSearched;
        }
        skip := skip - 1;
      }
      i := i + 1;
    }
    assert l.items[..i] == l.items;
    code := ENOENT;
  }

  /** Matches never shrink as the prefix grows. */
  lemma {:induction false} MatchesPrefixGrows<T>(pfn: (T, T) -> int, lhs: T, s: seq<T>, j: nat)
    requires j <= |s|
    ensures Matches(pfn, lhs, s[..j]) <= Matches(pfn, lhs, s)
    decreases |s| - j
  {
    if j < |s| {
      MatchesPrefixGrows(pfn, lhs, s, j + 1);
      assert s[..j + 1][..j] == s[..j];
    } else {
      assert s[..j] == s;
    }
  }

  /** collect_c_dlist_rfind_node: the same search walking from the tail. */
  method RFindNode<T>(l: DList<T>, pfn: (T, T) -> int, lhs: T, skipCount: nat)
    returns (code: int, node: Option<nat>, numSearched: nat)
    ensures code == 0 || code == ENOENT
    ensures code == 0 <==> MatchesAfter(pfn, lhs, l.items, 0) > skipCount
    ensures code == 0 ==>
      && node.Some? && node.value < |l.items|
      && pfn(lhs, l.items[node.value]) == 0
      && MatchesAfter(pfn, lhs, l.items, node.value + 1) == skipCount
      && numSearched == |l.items| - node.value
    ensures code == ENOENT ==> node.None? && numSearched == |l.items|
  {
    node := None;
    numSearched := 0;
    var skip := skipCount;
    var i := |l.items|;
    while i > 0
      invariant 0 <= i <= |l.items|
      invariant numSearched == |l.items| - i
      invariant MatchesAfter(pfn, lhs, l.items, i) + skip == skipCount
    {
      var r := pfn(lhs, l.items[i - 1]);
      numSearched := numSearched + 1;
      if r == 0 {
        if skip == 0 {
          node := Some(i - 1);
          MatchesAfterShrinks(pfn, lhs, l.items, i - 1);
          return 0, node, numSearched;
        }
        skip := skip - 1;
      }
      i := i - 1;
    }
    code := ENOENT;
  }

  /** Matches after a position never exceed those after an earlier one. */
  lemma {:induction false} MatchesAfterShrinks<T>(pfn: (T, T) -> int, lhs: T, s: seq<T>, i: nat)
    requires i <= |s|
    ensures MatchesAfter(pfn, lhs, s, i) <= MatchesAfter(pfn, lhs, s, 0)
    decreases i
  {
    if i > 0 {
      MatchesAfterShrinks(pfn, lhs, s, i - 1);
    }
  }

  /** Counting matches from the front or from the back gives the same number. */
  lemma {:induction false} MatchesBothWays<T>(pfn: (T, T) -> int, lhs: T, s: seq<T>)
    ensures MatchesAfter(pfn, lhs, s, 0) == Matches(pfn, lhs, s)
    decreases |s|
  {
    if |s| > 0 {
      var f := s[..|s| - 1];
      MatchesBothWays(pfn, lhs, f);
      MatchesAfterDropLast(pfn, lhs, s, 0);
    }
  }

  /** Matches after `i` split into those before the last element and the last. */
  lemma {:induction false} MatchesAfterDropLast<T>(pfn: (T, T) -> int, lhs: T, s: seq<T>, i: nat)
    requires i < |s|
    ensures MatchesAfter(pfn, lhs, s, i)
         == MatchesAfter(pfn, lhs, s[..|s| - 1], i) + (if pfn(lhs, s[|s| - 1]) == 0 then 1 else 0)
    decreases |s| - i
  {
    if i + 1 < |s| {
      MatchesAfterDropLast(pfn, lhs, s, i + 1);
    }
  }

  // ---------------------------------------------------------------------
  // Clear and free

  /** The result of clear: return code, list afterwards, *num_dropped. */
  datatype ClearResult<T> = ClearResult(code: int, after: DList<T>, numDropped: nat)

  /** collect_c_dlist_clear: each node, from the head on, is pushed onto the
      front of the spares chain; the list is left empty. */
  method Clear<T>(l: DList<T>) returns (r: ClearResult<T>)
    ensures r.code == 0
    ensures r.after.items == [] && r.after.size == 0 && Valid(r.after)
    ensures r.after.spares == Reverse(l.items) + l.spares
    ensures r.after.numSpares == l.numSpares + |l.items|
    ensures r.numDropped == |l.items|
    ensures l.numSpares == |l.spares| ==> r.after.numSpares == |r.after.spares|
    ensures r.after.elSize == l.elSize
  {
    var spares := l.spares;
    var numSpares := l.numSpares;
    var numDropped := 0;
    var i := 0;
    while i < |l.items|
      invariant 0 <= i <= |l.items|
      invariant spares == Reverse(l.items[..i]) + l.spares
      invariant numSpares == l.numSpares + i
      invariant numDropped == i
    {
      assert l.items[..i + 1] == l.items[..i] + [l.items[i]];
      ReverseSnoc(l.items[..i], l.items[i]);
      spares := [l.items[i]] + spares;
      numSpares := numSpares + 1;
      numDropped := numDropped + 1;
      i := i + 1;
    }
    assert l.items[..i] == l.items;
    r := ClearResult(0, l.(items := [], size := 0, spares := spares, numSpares := numSpares), numDropped);
  }

  /** The result of free-storage: return code, list afterwards, and the number
      of nodes handed to free. */
  datatype FreeResult<T> = FreeResult(code: int, after: DList<T>, numFreed: nat)

  /** clc_dlist_free_storage: frees every node of the list and of the spares
      chain. num_spares is not reset. */
  function FreeStorage<T>(l: DList<T>): (r: FreeResult<T>)
    ensures r.code == 0
    ensures r.after.items == [] && r.after.size == 0 && r.after.spares == [] && Valid(r.after)
    ensures r.numFreed == |l.items| + |l.spares|
    ensures r.after.numSpares == l.numSpares && r.after.elSize == l.elSize
  {
    FreeResult(0, l.(items := [], size := 0, spares := []), |l.items| + |l.spares|)
  }

  // ---------------------------------------------------------------------
  // Sequence helpers

  function Reverse<T>(s: seq<T>): (r: seq<T>)
    ensures |r| == |s|
    ensures forall i :: 0 <= i < |s| ==> r[i] == s[|s| - 1 - i]
  {
    if |s| == 0 then [] else Reverse(s[1..]) + [s[0]]
  }

  lemma ReverseSnoc<T>(s: seq<T>, x: T)
    ensures Reverse(s + [x]) == [x] + Reverse(s)
  {
    ReverseAppend(s, [x]);
    assert Reverse([x]) == Reverse([x][1..]) + [x];
  }

  lemma ReverseAppend<T>(a: seq<T>, b: seq<T>)
    ensures Reverse(a + b) == Reverse(b) + Reverse(a)
  {
    var l, r := Reverse(a + b), Reverse(b) + Reverse(a);
    assert |l| == |r|;
    forall i | 0 <= i < |l|
      ensures l[i] == r[i]
    {
    }
  }
}
