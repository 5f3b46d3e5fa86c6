/**
  Iterators over the sorted list (SLCreateIterator, SLNextItem,
  SLDestroyIterator). An iterator is the identity of the node it stands on,
  or nothing once it has run past the end. Each node counts the iterators
  standing on it, and that count is what keeps removal from freeing it.
 */
module SortedListIterator {
  import opened Wrappers
  import opened Order
  import opened SortedList

  datatype Iterator = Iterator(current: Option<NodeId>)

  datatype CreateResult = CreateResult(list: Option<SortedList>, iter: Option<Iterator>)

  datatype Step = Step(nodes: seq<Node>, pos: Option<nat>, data: Option<Sale>)

  datatype NextResult = NextResult(list: SortedList, iter: Option<Iterator>, data: Option<Sale>)

  /** Some node of the list has this identity: an iterator on it does not dangle. */
  ghost predicate Positioned(nodes: seq<Node>, id: NodeId) {
    exists i :: 0 <= i < |nodes| && nodes[i].id == id
  }

  /** The first index at or after `from` holding the identity. */
  function IndexOf(nodes: seq<Node>, id: NodeId, from: nat): (i: nat)
    requires exists j :: from <= j < |nodes| && nodes[j].id == id
    ensures from <= i < |nodes| && nodes[i].id == id
    ensures forall j :: from <= j < i ==> nodes[j].id != id
    decreases |nodes| - from
  {
    if nodes[from].id == id then from else IndexOf(nodes, id, from + 1)
  }

  /** The first valid node at or after i, or |nodes| when there is none. */
  function FirstValid(nodes: seq<Node>, i: nat): (j: nat)
    requires i <= |nodes|
    ensures i <= j <= |nodes|
    ensures j < |nodes| ==> nodes[j].isValid
    ensures forall m :: i <= m < j ==> !nodes[m].isValid
    decreases |nodes| - i
  {
    if i == |nodes| || nodes[i].isValid then i else FirstValid(nodes, i + 1)
  }

  lemma {:induction false} FirstValidSeesOnlyFlags(a: seq<Node>, b: seq<Node>, i: nat)
    requires i <= |a| == |b|
    requires forall m :: 0 <= m < |a| ==> a[m].isValid == b[m].isValid
    ensures FirstValid(a, i) == FirstValid(b, i)
    decreases |a| - i
  {
    if i < |a| && !a[i].isValid {
      FirstValidSeesOnlyFlags(a, b, i + 1);
    }
  }

  /**
    after is before with one reference taken from the node at index from and
    given to the node at index to (if any); nothing else differs.
   */
  ghost predicate RefMoved(before: seq<Node>, after: seq<Node>, from: nat, to: Option<nat>) {
    && |after| == |before|
    && forall m :: 0 <= m < |before| ==>
         after[m] == before[m].(numPointers := before[m].numPointers
                                  + (if to == Some(m) then 1 else 0)
                                  - (if m == from then 1 else 0))
  }

  /**
    The body of SLNextItem from the node at index i: it hands the data of
    the first valid node at or after i back, and the iterator's reference
    moves from i to the node after that one (or is dropped at the end of
    the list). Reference counts of the nodes skipped on the way are
    restored, and nothing but reference counts changes.
   */
  function Advance(nodes: seq<Node>, i: nat): (r: Step)
    requires i < |nodes|
    ensures |r.nodes| == |nodes|
    ensures var j := FirstValid(nodes, i);
            && r.data == (if j < |nodes| then Some(nodes[j].data) else None)
            && r.pos == (if j + 1 < |nodes| then Some(j + 1) else None)
    ensures RefMoved(nodes, r.nodes, i, r.pos)
    decreases |nodes| - i
  {
    var n := nodes[i];
    var left := nodes[i := n.(numPointers := n.numPointers - 1)];
    if i + 1 < |nodes| then
      var moved := left[i + 1 := left[i + 1].(numPointers := left[i + 1].numPointers + 1)];
      RefMovedByUpdates(nodes, i, Some(i + 1), moved);
      if n.isValid then Step(moved, Some(i + 1), Some(n.data))
      else
        FirstValidSeesOnlyFlags(moved, nodes, i + 1);
        var r := Advance(moved, i + 1);
        RefMovedCompose(nodes, moved, r.nodes, i, i + 1, r.pos);
        r
    else
      RefMovedByUpdates(nodes, i, None, left);
      Step(left, None, if n.isValid then Some(n.data) else None)
  }

  /** The two sequence updates of one step of Advance move one reference. */
  lemma RefMovedByUpdates(nodes: seq<Node>, i: nat, to: Option<nat>, after: seq<Node>)
    requires i < |nodes| && (to.Some? ==> to.value == i + 1 < |nodes|)
    requires var left := nodes[i := nodes[i].(numPointers := nodes[i].numPointers - 1)];
             after == if to.Some? then left[i + 1 := left[i + 1].(numPointers := left[i + 1].numPointers + 1)] else left
    ensures RefMoved(nodes, after, i, to)
  {
  }

  /** Two reference moves chained through the node at index k make one move. */
  lemma RefMovedCompose(a: seq<Node>, b: seq<Node>, c: seq<Node>, i: nat, k: nat, to: Option<nat>)
    requires RefMoved(a, b, i, Some(k)) && RefMoved(b, c, k, to)
    ensures RefMoved(a, c, i, to)
  {
    forall m | 0 <= m < |a|
      ensures c[m] == a[m].(numPointers := a[m].numPointers
                              + (if to == Some(m) then 1 else 0)
                              - (if m == i then 1 else 0))
    {
      assert b[m] == a[m].(numPointers := a[m].numPointers + (if k == m then 1 else 0) - (if m == i then 1 else 0));
    }
  }

  /** A reference move changes nothing but counts. */
  lemma RefMovedKeepsRest(a: seq<Node>, b: seq<Node>, i: nat, to: Option<nat>)
    requires RefMoved(a, b, i, to)
    ensures forall m :: 0 <= m < |a| ==> Strip(b[m]) == Strip(a[m]).(numPointers := b[m].numPointers)
  {
    forall m | 0 <= m < |a|
      ensures Strip(b[m]) == Strip(a[m]).(numPointers := b[m].numPointers)
    {
      assert b[m] == a[m].(numPointers := b[m].numPointers);
    }
  }

  /** SLCreateIterator: NULL for a NULL or empty list, otherwise an iterator on the head. */
  function SLCreateIterator(list: Option<SortedList>): (r: CreateResult)
    ensures list.None? || |list.value.nodes| == 0 ==> r == CreateResult(list, None)
    ensures list.Some? && |list.value.nodes| > 0 ==>
              var nodes := list.value.nodes;
              && r.iter == Some(Iterator(Some(nodes[0].id)))
              && r.list == Some(list.value.(nodes := nodes[0 := nodes[0].(numPointers := nodes[0].numPointers + 1)]))
  {
    match list
    case None => CreateResult(None, None)
    case Some(l) =>
      if |l.nodes| == 0 then CreateResult(list, None)
      else
        var head := l.nodes[0];
        CreateResult(Some(l.(nodes := l.nodes[0 := head.(numPointers := head.numPointers + 1)])),
                     Some(Iterator(Some(head.id))))
  }

  /** SLDestroyIterator: the node under the iterator gives one reference back. */
  function SLDestroyIterator(l: SortedList, iter: Option<Iterator>): (r: SortedList)
    requires iter.Some? && iter.value.current.Some? ==> Positioned(l.nodes, iter.value.current.value)
    ensures iter.None? || iter.value.current.None? ==> r == l
    ensures iter.Some? && iter.value.current.Some? ==>
              var i := IndexOf(l.nodes, iter.value.current.value, 0);
              r == l.(nodes := l.nodes[i := l.nodes[i].(numPointers := l.nodes[i].numPointers - 1)])
  {
    if iter.None? || iter.value.current.None? then l
    else
      var i := IndexOf(l.nodes, iter.value.current.value, 0);
      l.(nodes := l.nodes[i := l.nodes[i].(numPointers := l.nodes[i].numPointers - 1)])
  }

  /**
    SLNextItem: NULL for a NULL iterator or one past the end; otherwise the
    data of the first valid node at or after the iterator, the iterator
    moved to the node after it, and one reference moved along with it;
    validity flags, payloads and every other count stay as they were.
   */
  function SLNextItem(l: SortedList, iter: Option<Iterator>): (r: NextResult)
    requires iter.Some? && iter.value.current.Some? ==> Positioned(l.nodes, iter.value.current.value)
    ensures iter.None? ==> r == NextResult(l, None, None)
    ensures iter.Some? && iter.value.current.None? ==> r == NextResult(l, iter, None)
    ensures r.list.nextId == l.nextId && |r.list.nodes| == |l.nodes|
    ensures forall m :: 0 <= m < |l.nodes| ==> Strip(r.list.nodes[m]) == Strip(l.nodes[m]).(numPointers := r.list.nodes[m].numPointers)
    ensures iter.Some? && iter.value.current.Some? ==>
              var i := IndexOf(l.nodes, iter.value.current.value, 0);
              var j := FirstValid(l.nodes, i);
              && r.data == (if j < |l.nodes| then Some(l.nodes[j].data) else None)
              && r.iter == Some(Iterator(if j + 1 < |l.nodes| then Some(l.nodes[j + 1].id) else None))
              && RefMoved(l.nodes, r.list.nodes, i, if j + 1 < |l.nodes| then Some(j + 1) else None)
  {
    if iter.None? then NextResult(l, None, None)
    else if iter.value.current.None? then NextResult(l, iter, None)
    else
      var i := IndexOf(l.nodes, iter.value.current.value, 0);
      var s := Advance(l.nodes, i);
      RefMovedKeepsRest(l.nodes, s.nodes, i, s.pos);
      var cursor := if s.pos.Some? then Some(l.nodes[s.pos.value].id) else None;
      NextResult(l.(nodes := s.nodes), Some(Iterator(cursor)), s.data)
  }

  // ------------------------------------------------ reference-count balance

  /**
    Every node's reference count is the number of live iterators standing
    on it, and every iterator stands on a node of the list (or past the end).
   */
  ghost predicate RefsBalanced(l: SortedList, iters: seq<Iterator>) {
    && Wf(l)
    && (forall i :: 0 <= i < |l.nodes| ==>
          l.nodes[i].numPointers == multiset(iters)[Iterator(Some(l.nodes[i].id))])
    && (forall k :: 0 <= k < |iters| && iters[k].current.Some? ==>
          Positioned(l.nodes, iters[k].current.value))
  }

  /** An identity that is referenced by some iterator belongs to a node of a balanced list. */
  lemma ReferencedIsPositioned(l: SortedList, iters: seq<Iterator>, id: NodeId)
    requires RefsBalanced(l, iters) && multiset(iters)[Iterator(Some(id))] > 0
    ensures Positioned(l.nodes, id)
  {
    assert Iterator(Some(id)) in iters;
    var k :| 0 <= k < |iters| && iters[k] == Iterator(Some(id));
  }

  lemma CreateIteratorBalanced(l: SortedList, iters: seq<Iterator>)
    requires RefsBalanced(l, iters) && |l.nodes| > 0
    ensures var r := SLCreateIterator(Some(l));
            r.list.Some? && r.iter.Some? && RefsBalanced(r.list.value, iters + [r.iter.value])
  {
    var r := SLCreateIterator(Some(l));
    var l' := r.list.value;
    var iters' := iters + [r.iter.value];
    assert multiset(iters') == multiset(iters) + multiset{Iterator(Some(l.nodes[0].id))};
    forall k | 0 <= k < |iters'| && iters'[k].current.Some?
      ensures Positioned(l'.nodes, iters'[k].current.value)
    {
      if k < |iters| {
        var i :| 0 <= i < |l.nodes| && l.nodes[i].id == iters[k].current.value;
        assert l'.nodes[i].id == l.nodes[i].id;
      } else {
        assert l'.nodes[0].id == l.nodes[0].id;
      }
    }
  }

  /** Lists that differ only in reference counts agree on well-formedness and positions. */
  lemma SameIds(l: SortedList, l': SortedList)
    requires Wf(l) && l'.nextId == l.nextId && |l'.nodes| == |l.nodes|
    requires forall m :: 0 <= m < |l.nodes| ==> l'.nodes[m].id == l.nodes[m].id
    ensures Wf(l')
    ensures forall id :: Positioned(l.nodes, id) ==> Positioned(l'.nodes, id)
  {
    forall id | Positioned(l.nodes, id)
      ensures Positioned(l'.nodes, id)
    {
      var j :| 0 <= j < |l.nodes| && l.nodes[j].id == id;
      assert l'.nodes[j].id == id;
    }
  }

  /** Balance from the counts: the per-node equation plus positions carried over by identity. */
  lemma BalancedFromCounts(l: SortedList, iters: seq<Iterator>, l': SortedList, iters': seq<Iterator>)
    requires RefsBalanced(l, iters)
    requires l'.nextId == l.nextId && |l'.nodes| == |l.nodes|
    requires forall m :: 0 <= m < |l.nodes| ==> l'.nodes[m].id == l.nodes[m].id
    requires forall m :: 0 <= m < |l.nodes| ==>
               l'.nodes[m].numPointers == multiset(iters')[Iterator(Some(l.nodes[m].id))]
    requires forall q :: 0 <= q < |iters'| && iters'[q].current.Some? ==>
               Positioned(l.nodes, iters'[q].current.value)
    ensures RefsBalanced(l', iters')
  {
    SameIds(l, l');
  }

  lemma NextItemBalanced(l: SortedList, iters: seq<Iterator>, k: nat)
    requires RefsBalanced(l, iters) && k < |iters|
    ensures var r := SLNextItem(l, Some(iters[k]));
            r.iter.Some? && RefsBalanced(r.list, iters[k := r.iter.value])
  {
    var r := SLNextItem(l, Some(iters[k]));
    var iters' := iters[k := r.iter.value];
    if iters[k].current.Some? {
      var i := IndexOf(l.nodes, iters[k].current.value, 0);
      var s := Advance(l.nodes, i);
      NextItemCounts(l, iters, k, i, s);
      forall q | 0 <= q < |iters'| && iters'[q].current.Some?
        ensures Positioned(l.nodes, iters'[q].current.value)
      {
        if q == k {
          assert l.nodes[s.pos.value].id == iters'[q].current.value;
        } else {
          assert iters'[q] == iters[q];
        }
      }
      BalancedFromCounts(l, iters, r.list, iters');
    } else {
      assert iters' == iters;
    }
  }

  lemma MultisetSwap(ms: multiset<Iterator>, old_: Iterator, new_: Iterator, target: Iterator)
    requires old_ in ms
    ensures (ms - multiset{old_} + multiset{new_})[target]
            == ms[target] - (if old_ == target then 1 else 0) + (if new_ == target then 1 else 0)
  {
  }

  lemma NextItemCounts(l: SortedList, iters: seq<Iterator>, k: nat, i: nat, s: Step)
    requires RefsBalanced(l, iters) && k < |iters| && iters[k].current.Some?
    requires i == IndexOf(l.nodes, iters[k].current.value, 0)
    requires s == Advance(l.nodes, i)
    ensures var newIt := Iterator(if s.pos.Some? then Some(l.nodes[s.pos.value].id) else None);
            forall m :: 0 <= m < |l.nodes| ==>
              s.nodes[m].numPointers == multiset(iters[k := newIt])[Iterator(Some(l.nodes[m].id))]
  {
    var newIt := Iterator(if s.pos.Some? then Some(l.nodes[s.pos.value].id) else None);
    var iters' := iters[k := newIt];
    var ms := multiset(iters);
    assert multiset(iters') == ms - multiset{iters[k]} + multiset{newIt};
    assert iters[k] in ms;
    forall m | 0 <= m < |l.nodes|
      ensures s.nodes[m].numPointers == multiset(iters')[Iterator(Some(l.nodes[m].id))]
    {
      var target := Iterator(Some(l.nodes[m].id));
      MultisetSwap(ms, iters[k], newIt, target);
      DistinctAt(l, i, m);
      if s.pos.Some? { DistinctAt(l, s.pos.value, m); }
    }
  }

  lemma DistinctAt(l: SortedList, a: nat, b: nat)
    requires Wf(l) && a < |l.nodes| && b < |l.nodes|
    ensures l.nodes[a].id == l.nodes[b].id <==> a == b
  {
    if a < b { assert l.nodes[a].id != l.nodes[b].id; }
    if b < a { assert l.nodes[b].id != l.nodes[a].id; }
  }

  lemma DestroyIteratorBalanced(l: SortedList, iters: seq<Iterator>, k: nat)
    requires RefsBalanced(l, iters) && k < |iters|
    ensures RefsBalanced(SLDestroyIterator(l, Some(iters[k])), iters[..k] + iters[k + 1..])
  {
    var r := SLDestroyIterator(l, Some(iters[k]));
    var iters' := iters[..k] + iters[k + 1..];
    assert iters == iters[..k] + [iters[k]] + iters[k + 1..];
    assert multiset(iters) == multiset(iters') + multiset{iters[k]};
    forall q | 0 <= q < |iters'| && iters'[q].current.Some?
      ensures Positioned(l.nodes, iters'[q].current.value)
    {
      var q0 := if q < k then q else q + 1;
      assert iters'[q] == iters[q0];
    }
    if iters[k].current.Some? {
      var i := IndexOf(l.nodes, iters[k].current.value, 0);
      forall m | 0 <= m < |l.nodes|
        ensures r.nodes[m].numPointers == multiset(iters')[Iterator(Some(l.nodes[m].id))]
      {
        assert (iters[k] == Iterator(Some(l.nodes[m].id))) <==> m == i;
      }
    }
    BalancedFromCounts(l, iters, r, iters');
  }

  /** A fresh node is unreferenced, and no iterator refers to the fresh identity. */
  lemma InsertBalanced(l: SortedList, iters: seq<Iterator>, x: Sale)
    requires RefsBalanced(l, iters)
    ensures RefsBalanced(Insert(l, x), iters)
  {
    var r := Insert(l, x);
    var p := InsertPos(l.nodes, x);
    InsertKeepsWf(l, x);
    if multiset(iters)[Iterator(Some(l.nextId))] > 0 {
      ReferencedIsPositioned(l, iters, l.nextId);
    }
    InsertKeepsCounts(l, iters, r.nodes, p, NewNode(l, x));
    InsertKeepsPositions(l, iters, r.nodes, p, NewNode(l, x));
  }

  lemma InsertKeepsCounts(l: SortedList, iters: seq<Iterator>, out: seq<Node>, p: nat, n: Node)
    requires RefsBalanced(l, iters) && InsertedAt(l.nodes, out, p, n)
    requires n.numPointers == 0 && multiset(iters)[Iterator(Some(n.id))] == 0
    ensures forall m :: 0 <= m < |out| ==> out[m].numPointers == multiset(iters)[Iterator(Some(out[m].id))]
  {
    forall m | 0 <= m < |out|
      ensures out[m].numPointers == multiset(iters)[Iterator(Some(out[m].id))]
    {
      if m < p { assert out[m] == l.nodes[m]; }
      else if m > p { assert out[m] == l.nodes[m - 1]; }
    }
  }

  lemma InsertKeepsPositions(l: SortedList, iters: seq<Iterator>, out: seq<Node>, p: nat, n: Node)
    requires RefsBalanced(l, iters) && InsertedAt(l.nodes, out, p, n)
    ensures forall q :: 0 <= q < |iters| && iters[q].current.Some? ==> Positioned(out, iters[q].current.value)
  {
    forall q | 0 <= q < |iters| && iters[q].current.Some?
      ensures Positioned(out, iters[q].current.value)
    {
      var j :| 0 <= j < |l.nodes| && l.nodes[j].id == iters[q].current.value;
      if j < p { assert out[j] == l.nodes[j]; }
      else { assert out[j + 1] == l.nodes[j]; }
    }
  }

  /** Removal only unlinks unreferenced nodes, so no iterator is left dangling. */
  lemma RemoveBalanced(l: SortedList, iters: seq<Iterator>, x: Sale)
    requires RefsBalanced(l, iters)
    ensures RefsBalanced(SLRemove(Some(l), x).list.value, iters)
  {
    var r := SLRemove(Some(l), x);
    var out := r.list.value.nodes;
    RemoveKeepsCounts(l, iters, out, x, r.code);
    RemoveKeepsPositions(l, iters, out, x, r.code);
  }

  lemma RemoveKeepsCounts(l: SortedList, iters: seq<Iterator>, out: seq<Node>, x: Sale, code: int)
    requires RefsBalanced(l, iters) && RemovalOf(l.nodes, out, x, code)
    ensures forall m :: 0 <= m < |out| ==> out[m].numPointers == multiset(iters)[Iterator(Some(out[m].id))]
  {
    forall m | 0 <= m < |out|
      ensures out[m].numPointers == multiset(iters)[Iterator(Some(out[m].id))]
    {
      assert out[m] in out;
      var w :| w in l.nodes && Strip(w) == Strip(out[m]);
      var j :| 0 <= j < |l.nodes| && l.nodes[j] == w;
    }
  }

  lemma RemoveKeepsPositions(l: SortedList, iters: seq<Iterator>, out: seq<Node>, x: Sale, code: int)
    requires RefsBalanced(l, iters) && RemovalOf(l.nodes, out, x, code)
    ensures forall q :: 0 <= q < |iters| && iters[q].current.Some? ==> Positioned(out, iters[q].current.value)
  {
    forall q | 0 <= q < |iters| && iters[q].current.Some?
      ensures Positioned(out, iters[q].current.value)
    {
      var id := iters[q].current.value;
      var j :| 0 <= j < |l.nodes| && l.nodes[j].id == id;
      assert iters[q] in multiset(iters);
      assert l.nodes[j].numPointers != 0;
      assert l.nodes[j] in l.nodes;
      assert id in Ids(out);
      var n :| n in out && n.id == id;
      var i :| 0 <= i < |out| && out[i] == n;
    }
  }

  /**
    Iterator safety: removing the node an iterator stands on leaves a node
    with that identity and the same data in the list.
   */
  lemma RemoveKeepsIteratedNode(l: SortedList, iters: seq<Iterator>, x: Sale, k: nat)
    requires RefsBalanced(l, iters) && k < |iters| && iters[k].current.Some?
    ensures var id := iters[k].current.value;
            var before := l.nodes[IndexOf(l.nodes, id, 0)];
            exists n :: n in SLRemove(Some(l), x).list.value.nodes && n.id == id && n.data == before.data
  {
    var id := iters[k].current.value;
    var i := IndexOf(l.nodes, id, 0);
    var out := SLRemove(Some(l), x).list.value.nodes;
    RemoveBalanced(l, iters, x);
    var j :| 0 <= j < |out| && out[j].id == id;
    assert out[j] in out;
    var w :| w in l.nodes && Strip(w) == Strip(out[j]);
    var i' :| 0 <= i' < |l.nodes| && l.nodes[i'] == w;
    DistinctAt(l, i, i');
  }

  // ------------------------------------------------------ the pointer total

  function SumPointers(nodes: seq<Node>): int {
    if |nodes| == 0 then 0 else nodes[0].numPointers + SumPointers(nodes[1..])
  }

  /** Live iterators that stand on a node (not past the end). */
  function CountPositioned(iters: seq<Iterator>): nat {
    if |iters| == 0 then 0
    else CountPositioned(iters[..|iters| - 1]) + (if iters[|iters| - 1].current.Some? then 1 else 0)
  }

  ghost function RefsTo(nodes: seq<Node>, iters: seq<Iterator>): int {
    if |nodes| == 0 then 0 else multiset(iters)[Iterator(Some(nodes[0].id))] + RefsTo(nodes[1..], iters)
  }

  /** How many nodes carry the identity an iterator stands on. */
  ghost function Hits(nodes: seq<Node>, it: Iterator): int {
    if |nodes| == 0 then 0
    else (if it == Iterator(Some(nodes[0].id)) then 1 else 0) + Hits(nodes[1..], it)
  }

  lemma {:induction false} SumIsRefsTo(nodes: seq<Node>, iters: seq<Iterator>)
    requires forall i :: 0 <= i < |nodes| ==> nodes[i].numPointers == multiset(iters)[Iterator(Some(nodes[i].id))]
    ensures SumPointers(nodes) == RefsTo(nodes, iters)
    decreases |nodes|
  {
    if |nodes| > 0 {
      SumIsRefsTo(nodes[1..], iters);
    }
  }

  lemma {:induction false} RefsToSnoc(nodes: seq<Node>, iters: seq<Iterator>, it: Iterator)
    ensures RefsTo(nodes, iters + [it]) == RefsTo(nodes, iters) + Hits(nodes, it)
    decreases |nodes|
  {
    if |nodes| > 0 {
      RefsToSnoc(nodes[1..], iters, it);
      assert multiset(iters + [it]) == multiset(iters) + multiset{it};
    }
  }

  lemma {:induction false} HitsOnce(nodes: seq<Node>, it: Iterator)
    requires DistinctIds(nodes)
    requires it.current.Some? ==> Positioned(nodes, it.current.value)
    ensures Hits(nodes, it) == (if it.current.Some? then 1 else 0)
    decreases |nodes|
  {
    if |nodes| > 0 {
      var tail := nodes[1..];
      DistinctSuffix(nodes, 1);
      if it == Iterator(Some(nodes[0].id)) {
        HitsNone(tail, it);
      } else {
        if it.current.Some? {
          var j :| 0 <= j < |nodes| && nodes[j].id == it.current.value;
          assert tail[j - 1].id == it.current.value;
        }
        HitsOnce(tail, it);
      }
    }
  }

  lemma {:induction false} HitsNone(nodes: seq<Node>, it: Iterator)
    requires forall i :: 0 <= i < |nodes| ==> it != Iterator(Some(nodes[i].id))
    ensures Hits(nodes, it) == 0
    decreases |nodes|
  {
    if |nodes| > 0 {
      HitsNone(nodes[1..], it);
    }
  }

  lemma {:induction false} RefsToCounts(nodes: seq<Node>, iters: seq<Iterator>)
    requires DistinctIds(nodes)
    requires forall k :: 0 <= k < |iters| && iters[k].current.Some? ==> Positioned(nodes, iters[k].current.value)
    ensures RefsTo(nodes, iters) == CountPositioned(iters)
    decreases |iters|
  {
    if |iters| == 0 {
      RefsToEmpty(nodes, iters);
    } else {
      var front := iters[..|iters| - 1];
      var last := iters[|iters| - 1];
      assert iters == front + [last];
      RefsToCounts(nodes, front);
      RefsToSnoc(nodes, front, last);
      HitsOnce(nodes, last);
    }
  }

  lemma {:induction false} RefsToEmpty(nodes: seq<Node>, iters: seq<Iterator>)
    requires |iters| == 0
    ensures RefsTo(nodes, iters) == 0
    decreases |nodes|
  {
    if |nodes| > 0 {
      RefsToEmpty(nodes[1..], iters);
    }
  }

  /** In a balanced state the reference counts add up to the number of iterators standing on nodes. */
  lemma PointerTotal(l: SortedList, iters: seq<Iterator>)
    requires RefsBalanced(l, iters)
    ensures SumPointers(l.nodes) == CountPositioned(iters)
  {
    SumIsRefsTo(l.nodes, iters);
    RefsToCounts(l.nodes, iters);
  }

  // ------------------------------------------------- the reachable NULL read

  /**
    A short session that ends in the crash of SLRemove as written: insert
    two records, walk an iterator onto the second, remove that record while
    the iterator holds it, destroy the iterator, then remove a record that
    matches nothing. Every step keeps the references balanced.
   */
  lemma RemoveNullDerefReachable(a: Sale, b: Sale, c: Sale)
    requires a == Sale(1, "A", 100, 900) && b == Sale(2, "B", 100, 900) && c == Sale(3, "C", 100, 900)
    ensures var l2 := Insert(Insert(SLCreate(), a), b);
            var cr := SLCreateIterator(Some(l2));
            cr.list.Some? && cr.iter.Some? && cr.iter.value.current.Some? &&
            Positioned(cr.list.value.nodes, cr.iter.value.current.value) &&
            var nx := SLNextItem(cr.list.value, cr.iter);
            var rm := SLRemove(Some(nx.list), b);
            rm.list.Some? && nx.iter.Some? && nx.iter.value.current.Some? &&
            Positioned(rm.list.value.nodes, nx.iter.value.current.value) &&
            var l5 := SLDestroyIterator(rm.list.value, nx.iter);
            && nx.data == Some(a) && rm.code == 1
            && RefsBalanced(l5, [])
            && SLRemoveAsWritten(Some(l5), c).Faulted?
  {
    WitnessInserts(a, b);
    WitnessCreate(a, b);
    WitnessNext(a, b);
    WitnessRemove(a, b);
    WitnessDestroy(a, b);
    WitnessCrash(a, b, c);
    WitnessBalanced(a, b);
  }

  lemma WitnessBalanced(a: Sale, b: Sale)
    requires a == Sale(1, "A", 100, 900) && b == Sale(2, "B", 100, 900)
    ensures RefsBalanced(SortedList([Node(0, a, true, 0), Node(1, b, false, 0)], 2), [])
  {
    var none: seq<Iterator> := [];
    var l := SortedList([Node(0, a, true, 0), Node(1, b, false, 0)], 2);
    assert DistinctIds(l.nodes);
    assert multiset(none) == multiset{};
  }

  lemma WitnessInserts(a: Sale, b: Sale)
    requires a == Sale(1, "A", 100, 900) && b == Sale(2, "B", 100, 900)
    ensures Insert(Insert(SLCreate(), a), b) == SortedList([Node(0, a, true, 0), Node(1, b, true, 0)], 2)
  {
  }

  lemma WitnessCreate(a: Sale, b: Sale)
    requires a == Sale(1, "A", 100, 900) && b == Sale(2, "B", 100, 900)
    ensures var l := SortedList([Node(0, a, true, 0), Node(1, b, true, 0)], 2);
            SLCreateIterator(Some(l))
            == CreateResult(Some(SortedList([Node(0, a, true, 1), Node(1, b, true, 0)], 2)), Some(Iterator(Some(0))))
  {
    var l := SortedList([Node(0, a, true, 0), Node(1, b, true, 0)], 2);
    assert l.nodes[0 := Node(0, a, true, 1)] == [Node(0, a, true, 1), Node(1, b, true, 0)];
  }

  lemma WitnessNext(a: Sale, b: Sale)
    requires a == Sale(1, "A", 100, 900) && b == Sale(2, "B", 100, 900)
    ensures var l := SortedList([Node(0, a, true, 1), Node(1, b, true, 0)], 2);
            Positioned(l.nodes, 0) &&
            SLNextItem(l, Some(Iterator(Some(0))))
            == NextResult(SortedList([Node(0, a, true, 0), Node(1, b, true, 1)], 2), Some(Iterator(Some(1))), Some(a))
  {
    var l := SortedList([Node(0, a, true, 1), Node(1, b, true, 0)], 2);
    assert l.nodes[0].id == 0;
    assert IndexOf(l.nodes, 0, 0) == 0;
    assert FirstValid(l.nodes, 0) == 0;
  }

  lemma WitnessRemove(a: Sale, b: Sale)
    requires a == Sale(1, "A", 100, 900) && b == Sale(2, "B", 100, 900)
    ensures SLRemove(Some(SortedList([Node(0, a, true, 0), Node(1, b, true, 1)], 2)), b)
            == Done(Some(SortedList([Node(0, a, true, 0), Node(1, b, false, 1)], 2)), 1)
  {
    var l := SortedList([Node(0, a, true, 0), Node(1, b, true, 1)], 2);
    assert l.nodes[1..] == [Node(1, b, true, 1)];
    assert Scan(l.nodes[1..], b, true) == Hit([Node(1, b, false, 1)], 1);
    assert [Node(0, a, true, 0)] + [Node(1, b, false, 1)] == [Node(0, a, true, 0), Node(1, b, false, 1)];
  }

  lemma WitnessDestroy(a: Sale, b: Sale)
    requires a == Sale(1, "A", 100, 900) && b == Sale(2, "B", 100, 900)
    ensures var l := SortedList([Node(0, a, true, 0), Node(1, b, false, 1)], 2);
            Positioned(l.nodes, 1) &&
            SLDestroyIterator(l, Some(Iterator(Some(1)))) == SortedList([Node(0, a, true, 0), Node(1, b, false, 0)], 2)
  {
    var l := SortedList([Node(0, a, true, 0), Node(1, b, false, 1)], 2);
    assert l.nodes[1].id == 1;
    assert IndexOf(l.nodes, 1, 0) == 1;
  }

  lemma WitnessCrash(a: Sale, b: Sale, c: Sale)
    requires a == Sale(1, "A", 100, 900) && b == Sale(2, "B", 100, 900) && c == Sale(3, "C", 100, 900)
    ensures SLRemoveAsWritten(Some(SortedList([Node(0, a, true, 0), Node(1, b, false, 0)], 2)), c).Faulted?
  {
    var l := SortedList([Node(0, a, true, 0), Node(1, b, false, 0)], 2);
    assert l.nodes[1..] == [Node(1, b, false, 0)];
  }
}
