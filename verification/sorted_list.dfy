/**
  The duplicate-tolerant sorted list of sorted-list.c, instantiated with the
  ledger comparator compareSales. Nodes are never freed while an iterator
  points at them: a removed node that is still referenced is only marked
  invalid, and later remove passes unlink invalid nodes nobody
  references. A node's stable id stands for its address.
 */
module SortedList {
  import opened Wrappers
  import opened Order

  type NodeId = nat

  /** struct Node: the payload, the liveness flag and the number of iterators on it. */
  datatype Node = Node(id: NodeId, data: Sale, isValid: bool, numPointers: int)

  /** The list head first; nextId hands out fresh node identities. */
  datatype SortedList = SortedList(nodes: seq<Node>, nextId: NodeId)

  /** A node the incremental garbage collection may unlink. */
  predicate Garbage(n: Node) {
    !n.isValid && n.numPointers == 0
  }

  ghost predicate Sorted(nodes: seq<Node>) {
    forall i, j :: 0 <= i < j < |nodes| ==> CompareSales(nodes[i].data, nodes[j].data) <= 0
  }

  /** Node identities are distinct and below the allocator mark. */
  ghost predicate Wf(l: SortedList) {
    && (forall i :: 0 <= i < |l.nodes| ==> l.nodes[i].id < l.nextId)
    && DistinctIds(l.nodes)
  }

  ghost predicate DistinctIds(nodes: seq<Node>) {
    forall i, j :: 0 <= i < j < |nodes| ==> nodes[i].id != nodes[j].id
  }

  function Data(nodes: seq<Node>): (r: seq<Sale>)
    ensures |r| == |nodes|
  {
    seq(|nodes|, i requires 0 <= i < |nodes| => nodes[i].data)
  }

  ghost function Ids(nodes: seq<Node>): set<NodeId> {
    set n | n in nodes :: n.id
  }

  /** A node with its liveness flag forgotten: what removal may not change. */
  function Strip(n: Node): Node {
    n.(isValid := true)
  }

  ghost function StripAll(nodes: seq<Node>): set<Node> {
    set n | n in nodes :: Strip(n)
  }

  /** SLCreate: a new list has no nodes. */
  function SLCreate(): (r: SortedList)
    ensures Wf(r) && Sorted(r.nodes) && |r.nodes| == 0
  {
    SortedList([], 0)
  }

  // ---------------------------------------------------------------- insert

  /** The first position at or after `from` whose node is not less than x. */
  function FirstNotLess(nodes: seq<Node>, x: Sale, from: nat): (p: nat)
    requires from <= |nodes|
    ensures from <= p <= |nodes|
    ensures forall i :: from <= i < p ==> CompareSales(nodes[i].data, x) < 0
    ensures p < |nodes| ==> CompareSales(nodes[p].data, x) >= 0
    decreases |nodes| - from
  {
    if from == |nodes| then from
    else if CompareSales(nodes[from].data, x) < 0 then FirstNotLess(nodes, x, from + 1)
    else from
  }

  /**
    Where SLInsert links the new node. A one-node list takes the new node in
    front unless the head is strictly smaller; a longer list takes it in
    front only when the head is strictly larger, and otherwise after the
    head, before the first later node that is not smaller.
   */
  function InsertPos(nodes: seq<Node>, x: Sale): (p: nat)
    ensures p <= |nodes|
    ensures |nodes| == 1 ==> (p == 0 <==> CompareSales(nodes[0].data, x) >= 0)
    ensures |nodes| >= 2 && CompareSales(nodes[0].data, x) > 0 ==> p == 0
    ensures |nodes| >= 2 && CompareSales(nodes[0].data, x) <= 0 ==>
              && 1 <= p
              && (forall i :: 1 <= i < p ==> CompareSales(nodes[i].data, x) < 0)
              && (p < |nodes| ==> CompareSales(nodes[p].data, x) >= 0)
  {
    if |nodes| == 0 then 0
    else if |nodes| == 1 then (if CompareSales(nodes[0].data, x) < 0 then 1 else 0)
    else if CompareSales(nodes[0].data, x) > 0 then 0
    else FirstNotLess(nodes, x, 1)
  }

  /** In a sorted list, everything before the insertion point may precede x and x may precede the rest. */
  lemma InsertPosSplits(nodes: seq<Node>, x: Sale)
    requires Sorted(nodes)
    ensures forall i :: 0 <= i < InsertPos(nodes, x) ==> CompareSales(nodes[i].data, x) <= 0
    ensures forall i :: InsertPos(nodes, x) <= i < |nodes| ==> CompareSales(x, nodes[i].data) <= 0
  {
    var p := InsertPos(nodes, x);
    if p < |nodes| {
      CompareSalesAntisymmetric(nodes[p].data, x);
      forall i | p <= i < |nodes|
        ensures CompareSales(x, nodes[i].data) <= 0
      {
        CompareSalesTransitive(x, nodes[p].data, nodes[i].data);
      }
    }
  }

  function NewNode(l: SortedList, x: Sale): Node {
    Node(l.nextId, x, true, 0)
  }

  ghost predicate InsertedAt(old_: seq<Node>, new_: seq<Node>, p: nat, n: Node) {
    p <= |old_| && new_ == old_[..p] + [n] + old_[p..]
  }

  /** SLInsert on an allocated list: link a fresh valid, unreferenced node holding x. */
  function Insert(l: SortedList, x: Sale): (r: SortedList)
    ensures InsertedAt(l.nodes, r.nodes, InsertPos(l.nodes, x), NewNode(l, x))
    ensures r.nextId == l.nextId + 1
  {
    var p := InsertPos(l.nodes, x);
    SortedList(l.nodes[..p] + [NewNode(l, x)] + l.nodes[p..], l.nextId + 1)
  }

  lemma DataConcat(a: seq<Node>, b: seq<Node>)
    ensures Data(a + b) == Data(a) + Data(b)
  {
  }

  /** Insert adds exactly x to the list's contents. */
  lemma InsertAddsElement(l: SortedList, x: Sale)
    ensures multiset(Data(Insert(l, x).nodes)) == multiset(Data(l.nodes)) + multiset{x}
  {
    var p := InsertPos(l.nodes, x);
    var n := NewNode(l, x);
    assert l.nodes == l.nodes[..p] + l.nodes[p..];
    DataConcat(l.nodes[..p], l.nodes[p..]);
    DataConcat(l.nodes[..p] + [n], l.nodes[p..]);
    DataConcat(l.nodes[..p], [n]);
    assert Data([n]) == [x];
  }

  /** Insert keeps a sorted list sorted. */
  lemma InsertKeepsSorted(l: SortedList, x: Sale)
    requires Sorted(l.nodes)
    ensures Sorted(Insert(l, x).nodes)
  {
    var r := Insert(l, x);
    var p := InsertPos(l.nodes, x);
    InsertPosSplits(l.nodes, x);
    forall i, j | 0 <= i < j < |r.nodes|
      ensures CompareSales(r.nodes[i].data, r.nodes[j].data) <= 0
    {
      if j < p {
        assert r.nodes[i] == l.nodes[i] && r.nodes[j] == l.nodes[j];
      } else if i > p {
        assert r.nodes[i] == l.nodes[i - 1] && r.nodes[j] == l.nodes[j - 1];
      } else if i == p {
        assert r.nodes[j] == l.nodes[j - 1];
      } else if j == p {
        assert r.nodes[i] == l.nodes[i];
      } else {
        assert r.nodes[i] == l.nodes[i] && r.nodes[j] == l.nodes[j - 1];
        CompareSalesTransitive(l.nodes[i].data, x, l.nodes[j - 1].data);
      }
    }
  }

  /** Insert keeps identities distinct: the new node's id was never used. */
  lemma InsertKeepsWf(l: SortedList, x: Sale)
    requires Wf(l)
    ensures Wf(Insert(l, x)) && l.nextId !in Ids(l.nodes)
  {
    var r := Insert(l, x);
    var p := InsertPos(l.nodes, x);
    forall i | 0 <= i < |r.nodes|
      ensures r.nodes[i].id < r.nextId
    {
      if i < p { assert r.nodes[i] == l.nodes[i]; }
      else if i > p { assert r.nodes[i] == l.nodes[i - 1]; }
    }
    forall i, j | 0 <= i < j < |r.nodes|
      ensures r.nodes[i].id != r.nodes[j].id
    {
      if j < p {
        assert r.nodes[i] == l.nodes[i] && r.nodes[j] == l.nodes[j];
      } else if i > p {
        assert r.nodes[i] == l.nodes[i - 1] && r.nodes[j] == l.nodes[j - 1];
      } else if i == p {
        assert r.nodes[j] == l.nodes[j - 1];
      } else if j == p {
        assert r.nodes[i] == l.nodes[i];
      } else {
        assert r.nodes[i] == l.nodes[i] && r.nodes[j] == l.nodes[j - 1];
      }
    }
  }

  lemma InsertKeepsInvariants(l: SortedList, x: Sale)
    ensures Sorted(l.nodes) ==> Sorted(Insert(l, x).nodes)
    ensures Wf(l) ==> Wf(Insert(l, x))
  {
    if Sorted(l.nodes) { InsertKeepsSorted(l, x); }
    if Wf(l) { InsertKeepsWf(l, x); }
  }

  /** SLInsert: 0 and no change on a NULL list, otherwise 1 with x linked in. */
  function SLInsert(list: Option<SortedList>, x: Sale): (r: (Option<SortedList>, int))
    ensures list.None? ==> r == (None, 0)
    ensures list.Some? ==> r.1 == 1 && r.0.Some?
    ensures list.Some? ==> |r.0.value.nodes| == |list.value.nodes| + 1
    ensures list.Some? ==> multiset(Data(r.0.value.nodes)) == multiset(Data(list.value.nodes)) + multiset{x}
    ensures list.Some? && Sorted(list.value.nodes) ==> Sorted(r.0.value.nodes)
    ensures list.Some? && Wf(list.value) ==> Wf(r.0.value)
  {
    match list
    case None => (None, 0)
    case Some(l) =>
      InsertAddsElement(l, x);
      InsertKeepsInvariants(l, x);
      (Some(Insert(l, x)), 1)
  }

  /** The new node is valid, unreferenced, holds x and has a fresh identity; no old node changes. */
  lemma InsertNewNode(l: SortedList, x: Sale)
    requires Wf(l)
    ensures var r := Insert(l, x);
            exists p :: 0 <= p < |r.nodes|
                        && r.nodes[p].isValid && r.nodes[p].numPointers == 0 && r.nodes[p].data == x
                        && r.nodes[p].id !in Ids(l.nodes)
                        && r.nodes[..p] + r.nodes[p + 1..] == l.nodes
  {
    var r := Insert(l, x);
    var p := InsertPos(l.nodes, x);
    assert r.nodes[p] == NewNode(l, x);
    assert r.nodes[..p] == l.nodes[..p];
    assert r.nodes[p + 1..] == l.nodes[p..];
    assert l.nodes[..p] + l.nodes[p..] == l.nodes;
  }

  /** On a one-node list an equal key goes in front of the head. */
  lemma InsertTieOnSingleton(l: SortedList, x: Sale)
    requires |l.nodes| == 1 && CompareSales(l.nodes[0].data, x) == 0
    ensures Insert(l, x).nodes == [NewNode(l, x), l.nodes[0]]
  {
  }

  /**
    On a longer list an equal head keeps its place: the new node follows it
    and precedes the first later node that is not smaller.
   */
  lemma InsertTieOnLongerList(l: SortedList, x: Sale)
    requires |l.nodes| >= 2 && CompareSales(l.nodes[0].data, x) == 0
    ensures var r := Insert(l, x);
            exists p :: 1 <= p <= |l.nodes|
                        && r.nodes == l.nodes[..p] + [NewNode(l, x)] + l.nodes[p..]
                        && (forall i :: 1 <= i < p ==> CompareSales(l.nodes[i].data, x) < 0)
                        && (p < |l.nodes| ==> CompareSales(l.nodes[p].data, x) >= 0)
  {
    var p := InsertPos(l.nodes, x);
    assert Insert(l, x).nodes == l.nodes[..p] + [NewNode(l, x)] + l.nodes[p..];
  }

  /**
    Three records with one key, inserted in turn into an empty list, end up
    second, third, first: ties are not kept in reverse insertion order.
   */
  lemma TieOrderOfThreeEqualKeys(a: Sale, b: Sale, c: Sale)
    requires CompareSales(a, b) == 0 && CompareSales(b, c) == 0
    ensures Data(Insert(Insert(Insert(SLCreate(), a), b), c).nodes) == [b, c, a]
  {
    var l1 := Insert(SLCreate(), a);
    assert l1.nodes == [Node(0, a, true, 0)];
    var l2 := Insert(l1, b);
    assert l2.nodes == [Node(1, b, true, 0), Node(0, a, true, 0)];
    var l3 := Insert(l2, c);
    assert InsertPos(l2.nodes, c) == 1;
    assert l3.nodes == [Node(1, b, true, 0), Node(2, c, true, 0), Node(0, a, true, 0)];
  }

  // ---------------------------------------------------------------- remove

  /** What the traversal loop of SLRemove leaves behind the head. */
  datatype ScanResult = Hit(rest: seq<Node>, code: int) | Miss(rest: seq<Node>) | NullDeref

  /** What SLRemove leaves: the list (NULL stays NULL) and its return code, or a crash. */
  datatype RemoveResult = Done(list: Option<SortedList>, code: int) | Faulted

  /**
    The loop of SLRemove over the nodes after the head. A node that is
    invalid and unreferenced is unlinked first, and the node that followed
    it is compared without being checked for garbage itself. When the
    unlinked node was the last one the source goes on to read the missing
    node: that is `NullDeref` unless `guarded`, the corrected loop, which
    then leaves the loop as if the list had ended.
   */
  function Scan(rest: seq<Node>, x: Sale, guarded: bool): (r: ScanResult)
    ensures guarded ==> !r.NullDeref?
    decreases |rest|
  {
    if |rest| == 0 then Miss([])
    else if Garbage(rest[0]) && |rest| == 1 then (if guarded then Miss([]) else NullDeref)
    else
      var k := if Garbage(rest[0]) then 1 else 0;
      var t := rest[k];
      var after := rest[k + 1..];
      if CompareSales(t.data, x) == 0 then
        if t.numPointers == 0 then Hit(after, 1)
        else if !t.isValid then Hit([t] + after, 0)
        else Hit([t.(isValid := false)] + after, 1)
      else
        match Scan(after, x, guarded)
        case Hit(out, code) => Hit([t] + out, code)
        case Miss(out) => Miss([t] + out)
        case NullDeref => NullDeref
  }

  /**
    How removal may change a list: every surviving node is an old node that
    kept its identity, payload and reference count; a node changes only by
    being marked invalid, and only when it matched, is referenced and the
    call returned 1; a node disappears only when it was garbage, or when it
    matched, was unreferenced and the call returned 1.
   */
  ghost predicate RemovalOf(old_: seq<Node>, new_: seq<Node>, x: Sale, code: int) {
    && (forall n :: n in new_ ==> Strip(n) in StripAll(old_))
    && (forall n :: n in new_ && n !in old_ ==>
          !n.isValid && n.numPointers != 0 && CompareSales(n.data, x) == 0 && code == 1)
    && (forall m :: m in old_ && m.id !in Ids(new_) ==>
          Garbage(m) || (CompareSales(m.data, x) == 0 && m.numPointers == 0 && code == 1))
  }

  function ScanOut(r: ScanResult): seq<Node>
    requires !r.NullDeref?
  {
    match r
    case Hit(out, _) => out
    case Miss(out) => out
  }

  function ScanCode(r: ScanResult): int
    requires !r.NullDeref?
  {
    if r.Hit? then r.code else 0
  }

  lemma RemovalOfCons(t: Node, rest: seq<Node>, out: seq<Node>, x: Sale, code: int)
    requires RemovalOf(rest, out, x, code)
    ensures RemovalOf([t] + rest, [t] + out, x, code)
  {
    var o, n := [t] + rest, [t] + out;
    forall m | m in n
      ensures Strip(m) in StripAll(o)
    {
      if m != t { assert m in out; }
    }
    forall m | m in o && m.id !in Ids(n)
      ensures Garbage(m) || (CompareSales(m.data, x) == 0 && m.numPointers == 0 && code == 1)
    {
      assert m != t;
      assert m in rest;
    }
  }

  lemma RemovalOfDrop(g: Node, rest: seq<Node>, out: seq<Node>, x: Sale, code: int)
    requires Garbage(g) && RemovalOf(rest, out, x, code)
    ensures RemovalOf([g] + rest, out, x, code)
  {
    forall m | m in out
      ensures Strip(m) in StripAll([g] + rest)
    {
      assert Strip(m) in StripAll(rest);
      var w :| w in rest && Strip(w) == Strip(m);
      assert w in [g] + rest;
    }
  }

  /** The loop changes the tail only in the ways RemovalOf allows, and returns 0 or 1. */
  lemma {:induction false} ScanIsRemoval(rest: seq<Node>, x: Sale, guarded: bool)
    requires !Scan(rest, x, guarded).NullDeref?
    ensures var r := Scan(rest, x, guarded);
            && RemovalOf(rest, ScanOut(r), x, ScanCode(r))
            && (r.Hit? ==> r.code == 0 || r.code == 1)
            && (r.Hit? ==> exists m :: m in rest && CompareSales(m.data, x) == 0)
    decreases |rest|
  {
    var r := Scan(rest, x, guarded);
    if |rest| == 0 {
    } else if Garbage(rest[0]) && |rest| == 1 {
      assert ScanOut(r) == [];
    } else {
      var k := if Garbage(rest[0]) then 1 else 0;
      var t := rest[k];
      var after := rest[k + 1..];
      assert rest[k..] == [t] + after;
      if CompareSales(t.data, x) == 0 {
        RemovalOfTail(t, after, x, ScanCode(r), ScanOut(r));
        assert t in rest;
      } else {
        ScanIsRemoval(after, x, guarded);
        RemovalOfCons(t, after, ScanOut(Scan(after, x, guarded)), x, ScanCode(r));
      }
      if k == 1 {
        assert rest == [rest[0]] + rest[1..];
        RemovalOfDrop(rest[0], rest[1..], ScanOut(r), x, ScanCode(r));
      }
    }
  }

  /** The three outcomes of a match at the front of the remaining tail. */
  lemma RemovalOfTail(t: Node, after: seq<Node>, x: Sale, code: int, out: seq<Node>)
    requires CompareSales(t.data, x) == 0
    requires out == (if t.numPointers == 0 then after
                     else if !t.isValid then [t] + after
                     else [t.(isValid := false)] + after)
    requires code == (if t.numPointers == 0 then 1 else if !t.isValid then 0 else 1)
    ensures RemovalOf([t] + after, out, x, code)
  {
    var o := [t] + after;
    forall m | m in out
      ensures Strip(m) in StripAll(o)
    {
      if m in after { } else { assert Strip(m) == Strip(t); }
    }
    forall m | m in after
      ensures m.id in Ids(out)
    {
      assert m in out;
    }
    if t.numPointers != 0 {
      assert out[0] in out;
      assert t.id in Ids(out);
    }
  }

  lemma SortedSuffix(s: seq<Node>, k: nat)
    requires k <= |s| && Sorted(s)
    ensures Sorted(s[k..])
  {
    forall i, j | 0 <= i < j < |s[k..]|
      ensures CompareSales(s[k..][i].data, s[k..][j].data) <= 0
    {
      assert s[k..][i] == s[k + i] && s[k..][j] == s[k + j];
    }
  }

  lemma DistinctSuffix(s: seq<Node>, k: nat)
    requires k <= |s| && DistinctIds(s)
    ensures DistinctIds(s[k..])
  {
    forall i, j | 0 <= i < j < |s[k..]|
      ensures s[k..][i].id != s[k..][j].id
    {
      assert s[k..][i] == s[k + i] && s[k..][j] == s[k + j];
    }
  }

  /** The loop's result keeps the tail sorted. */
  lemma {:induction false} ScanKeepsSorted(rest: seq<Node>, x: Sale, guarded: bool)
    requires !Scan(rest, x, guarded).NullDeref? && Sorted(rest)
    ensures Sorted(ScanOut(Scan(rest, x, guarded)))
    decreases |rest|
  {
    if |rest| == 0 || (Garbage(rest[0]) && |rest| == 1) {
    } else {
      var k := if Garbage(rest[0]) then 1 else 0;
      SortedSuffix(rest, k);
      if CompareSales(rest[k].data, x) == 0 {
        ScanHitSorted(rest, x, guarded, k);
      } else {
        var after := rest[k + 1..];
        SortedSuffix(rest, k + 1);
        ScanStepOnMismatch(rest, x, guarded, k);
        ScanKeepsSorted(after, x, guarded);
        ScanIsRemoval(after, x, guarded);
        SortedCons(rest, k, ScanOut(Scan(after, x, guarded)));
      }
    }
  }

  /** Unfolding the loop once past a node that does not match. */
  lemma ScanStepOnMismatch(rest: seq<Node>, x: Sale, guarded: bool, k: nat)
    requires |rest| > 0 && !(Garbage(rest[0]) && |rest| == 1)
    requires k == (if Garbage(rest[0]) then 1 else 0)
    requires CompareSales(rest[k].data, x) != 0
    requires !Scan(rest, x, guarded).NullDeref?
    ensures !Scan(rest[k + 1..], x, guarded).NullDeref?
    ensures ScanOut(Scan(rest, x, guarded)) == [rest[k]] + ScanOut(Scan(rest[k + 1..], x, guarded))
  {
  }

  /** When the node the loop looks at matches, the result is still sorted. */
  lemma ScanHitSorted(rest: seq<Node>, x: Sale, guarded: bool, k: nat)
    requires |rest| > 0 && !(Garbage(rest[0]) && |rest| == 1)
    requires k == (if Garbage(rest[0]) then 1 else 0)
    requires CompareSales(rest[k].data, x) == 0
    requires Sorted(rest[k..])
    ensures Sorted(ScanOut(Scan(rest, x, guarded)))
  {
    var t := rest[k];
    var out := ScanOut(Scan(rest, x, guarded));
    if t.numPointers == 0 {
      assert out == rest[k..][1..];
      SortedSuffix(rest[k..], 1);
    } else if t.isValid {
      assert out == rest[k..][0 := t.(isValid := false)];
      SortedInvalidate(rest[k..]);
    } else {
      assert out == rest[k..];
    }
  }

  lemma SortedInvalidate(c: seq<Node>)
    requires |c| > 0 && Sorted(c)
    ensures Sorted(c[0 := c[0].(isValid := false)])
  {
    var out := c[0 := c[0].(isValid := false)];
    assert Data(out) == Data(c);
    forall i, j | 0 <= i < j < |out|
      ensures CompareSales(out[i].data, out[j].data) <= 0
    {
      assert out[i].data == Data(c)[i] && out[j].data == Data(c)[j];
    }
  }

  lemma SortedCons(rest: seq<Node>, k: nat, out: seq<Node>)
    requires k < |rest| && Sorted(rest) && Sorted(out)
    requires forall n :: n in out ==> Strip(n) in StripAll(rest[k + 1..])
    ensures Sorted([rest[k]] + out)
  {
    var after := rest[k + 1..];
    forall j | 0 <= j < |out|
      ensures CompareSales(rest[k].data, out[j].data) <= 0
    {
      assert Strip(out[j]) in StripAll(after);
      var w :| w in after && Strip(w) == Strip(out[j]);
      var i :| 0 <= i < |after| && after[i] == w;
      assert after[i] == rest[k + 1 + i];
    }
    var c := [rest[k]] + out;
    forall i, j | 0 <= i < j < |c|
      ensures CompareSales(c[i].data, c[j].data) <= 0
    {
      if i > 0 { assert c[i] == out[i - 1] && c[j] == out[j - 1]; }
      else { assert c[j] == out[j - 1]; }
    }
  }

  /** The loop's result keeps node identities distinct. */
  lemma {:induction false} ScanKeepsDistinct(rest: seq<Node>, x: Sale, guarded: bool)
    requires !Scan(rest, x, guarded).NullDeref? && DistinctIds(rest)
    ensures DistinctIds(ScanOut(Scan(rest, x, guarded)))
    decreases |rest|
  {
    if |rest| == 0 || (Garbage(rest[0]) && |rest| == 1) {
    } else {
      var k := if Garbage(rest[0]) then 1 else 0;
      DistinctSuffix(rest, k);
      if CompareSales(rest[k].data, x) == 0 {
        ScanHitDistinct(rest, x, guarded, k);
      } else {
        var after := rest[k + 1..];
        DistinctSuffix(rest, k + 1);
        ScanStepOnMismatch(rest, x, guarded, k);
        ScanKeepsDistinct(after, x, guarded);
        ScanIsRemoval(after, x, guarded);
        DistinctCons(rest, k, ScanOut(Scan(after, x, guarded)));
      }
    }
  }

  /** When the node the loop looks at matches, identities stay distinct. */
  lemma ScanHitDistinct(rest: seq<Node>, x: Sale, guarded: bool, k: nat)
    requires |rest| > 0 && !(Garbage(rest[0]) && |rest| == 1)
    requires k == (if Garbage(rest[0]) then 1 else 0)
    requires CompareSales(rest[k].data, x) == 0
    requires DistinctIds(rest[k..])
    ensures DistinctIds(ScanOut(Scan(rest, x, guarded)))
  {
    var t := rest[k];
    var c := rest[k..];
    var out := ScanOut(Scan(rest, x, guarded));
    if t.numPointers == 0 {
      assert out == c[1..];
      DistinctSuffix(c, 1);
    } else if t.isValid {
      assert out == c[0 := t.(isValid := false)];
      forall i, j | 0 <= i < j < |out|
        ensures out[i].id != out[j].id
      {
        assert out[i].id == c[i].id && out[j].id == c[j].id;
      }
    } else {
      assert out == c;
    }
  }

  lemma DistinctCons(rest: seq<Node>, k: nat, out: seq<Node>)
    requires k < |rest| && DistinctIds(rest) && DistinctIds(out)
    requires forall n :: n in out ==> Strip(n) in StripAll(rest[k + 1..])
    ensures DistinctIds([rest[k]] + out)
  {
    var after := rest[k + 1..];
    forall j | 0 <= j < |out|
      ensures rest[k].id != out[j].id
    {
      assert Strip(out[j]) in StripAll(after);
      var w :| w in after && Strip(w) == Strip(out[j]);
      var i :| 0 <= i < |after| && after[i] == w;
      assert after[i] == rest[k + 1 + i];
    }
    var c := [rest[k]] + out;
    forall i, j | 0 <= i < j < |c|
      ensures c[i].id != c[j].id
    {
      if i > 0 { assert c[i] == out[i - 1] && c[j] == out[j - 1]; }
      else { assert c[j] == out[j - 1]; }
    }
  }

  /** The two loops agree wherever the source's loop does not read past the end. */
  lemma {:induction false} ScanGuardAgrees(rest: seq<Node>, x: Sale)
    ensures !Scan(rest, x, false).NullDeref? ==> Scan(rest, x, false) == Scan(rest, x, true)
    ensures Scan(rest, x, false).NullDeref? ==> |rest| > 0 && Garbage(rest[|rest| - 1])
    decreases |rest|
  {
    if |rest| == 0 || (Garbage(rest[0]) && |rest| == 1) {
    } else {
      var k := if Garbage(rest[0]) then 1 else 0;
      var after := rest[k + 1..];
      ScanGuardAgrees(after, x);
      if |after| > 0 {
        assert after[|after| - 1] == rest[|rest| - 1];
      }
    }
  }

  /** SLRemove with the loop chosen by `guarded`; NULL and empty lists return 0. */
  function RemoveWith(list: Option<SortedList>, x: Sale, guarded: bool): (r: RemoveResult)
  {
    match list
    case None => Done(None, 0)
    case Some(l) =>
      if |l.nodes| == 0 then Done(list, 0)
      else
        var head := l.nodes[0];
        if CompareSales(head.data, x) == 0 then
          if head.numPointers == 0 then Done(Some(l.(nodes := l.nodes[1..])), 1)
          else if !head.isValid then Done(list, 0)
          else Done(Some(l.(nodes := [head.(isValid := false)] + l.nodes[1..])), 1)
        else
          match Scan(l.nodes[1..], x, guarded)
          case Hit(out, code) => Done(Some(l.(nodes := [head] + out)), code)
          case Miss(out) => Done(Some(l.(nodes := if Garbage(head) then out else [head] + out)), 0)
          case NullDeref => Faulted
  }

  /** What SLRemove promises about a non-empty list. */
  ghost predicate RemoveOk(l: SortedList, x: Sale, r: RemoveResult) {
    && r.Done? && r.list.Some? && r.list.value.nextId == l.nextId
    && (r.code == 0 || r.code == 1)
    && RemovalOf(l.nodes, r.list.value.nodes, x, r.code)
    && (r.code == 1 ==> exists m :: m in l.nodes && CompareSales(m.data, x) == 0)
    && (Sorted(l.nodes) ==> Sorted(r.list.value.nodes))
    && (Wf(l) ==> Wf(r.list.value))
  }

  lemma RemoveWithFacts(l: SortedList, x: Sale)
    requires |l.nodes| > 0
    ensures RemoveOk(l, x, RemoveWith(Some(l), x, true))
  {
    if CompareSales(l.nodes[0].data, x) == 0 {
      RemoveHeadFacts(l, x);
    } else {
      RemoveScanFacts(l, x);
    }
  }

  lemma RemoveHeadFacts(l: SortedList, x: Sale)
    requires |l.nodes| > 0 && CompareSales(l.nodes[0].data, x) == 0
    ensures RemoveOk(l, x, RemoveWith(Some(l), x, true))
  {
    var r := RemoveWith(Some(l), x, true);
    var head := l.nodes[0];
    var tail := l.nodes[1..];
    assert l.nodes == [head] + tail;
    var out := r.list.value.nodes;
    RemovalOfTail(head, tail, x, r.code, out);
    if Sorted(l.nodes) {
      SortedSuffix(l.nodes, 1);
      if head.numPointers != 0 && head.isValid {
        assert out == l.nodes[0 := head.(isValid := false)];
        SortedInvalidate(l.nodes);
      }
    }
    if Wf(l) {
      DistinctSuffix(l.nodes, 1);
      if head.numPointers != 0 && head.isValid {
        assert out == l.nodes[0 := head.(isValid := false)];
        forall i, j | 0 <= i < j < |out| ensures out[i].id != out[j].id {
          assert out[i].id == l.nodes[i].id && out[j].id == l.nodes[j].id;
        }
      }
      WfFromIds(l, out);
    }
    assert head in l.nodes;
  }

  lemma RemoveScanFacts(l: SortedList, x: Sale)
    requires |l.nodes| > 0 && CompareSales(l.nodes[0].data, x) != 0
    ensures RemoveOk(l, x, RemoveWith(Some(l), x, true))
  {
    var r := RemoveWith(Some(l), x, true);
    var head := l.nodes[0];
    var tail := l.nodes[1..];
    assert l.nodes == [head] + tail;
    var out := r.list.value.nodes;
    var sr := Scan(tail, x, true);
    var so := ScanOut(sr);
    ScanIsRemoval(tail, x, true);
    RemovalOfCons(head, tail, so, x, ScanCode(sr));
    if sr.Miss? && Garbage(head) {
      RemovalOfDrop(head, tail, so, x, 0);
    }
    if Sorted(l.nodes) {
      SortedSuffix(l.nodes, 1);
      ScanKeepsSorted(tail, x, true);
      SortedCons(l.nodes, 0, so);
    }
    if Wf(l) {
      DistinctSuffix(l.nodes, 1);
      ScanKeepsDistinct(tail, x, true);
      DistinctCons(l.nodes, 0, so);
      WfFromIds(l, out);
    }
    if r.code == 1 {
      var m :| m in tail && CompareSales(m.data, x) == 0;
      assert m in l.nodes;
    }
  }

  lemma WfFromIds(l: SortedList, out: seq<Node>)
    requires Wf(l) && DistinctIds(out)
    requires forall n :: n in out ==> Strip(n) in StripAll(l.nodes)
    ensures Wf(SortedList(out, l.nextId))
  {
    forall i | 0 <= i < |out|
      ensures out[i].id < l.nextId
    {
      assert out[i] in out;
      var w :| w in l.nodes && Strip(w) == Strip(out[i]);
    }
  }

  /**
    Removal keeps the survivors in their old order: `new_` is a subsequence
    of `old_` once liveness flags are forgotten.
   */
  ghost predicate KeepsOrder(old_: seq<Node>, new_: seq<Node>)
    decreases |old_|
  {
    if |new_| == 0 then true
    else if |old_| == 0 then false
    else if Strip(new_[0]) == Strip(old_[0]) then KeepsOrder(old_[1..], new_[1..])
    else KeepsOrder(old_[1..], new_)
  }

  lemma {:induction false} KeepsOrderRefl(s: seq<Node>)
    ensures KeepsOrder(s, s)
    decreases |s|
  {
    if |s| > 0 {
      KeepsOrderRefl(s[1..]);
    }
  }

  lemma KeepsOrderCons(t: Node, old_: seq<Node>, new_: seq<Node>)
    requires KeepsOrder(old_, new_)
    ensures KeepsOrder([t] + old_, [t] + new_)
  {
    assert ([t] + old_)[1..] == old_ && ([t] + new_)[1..] == new_;
  }

  /** Dropping a node from the front of the old list keeps the relation. */
  lemma {:induction false} KeepsOrderDrop(t: Node, old_: seq<Node>, new_: seq<Node>)
    requires KeepsOrder(old_, new_)
    ensures KeepsOrder([t] + old_, new_)
    decreases |old_|, 1
  {
    assert ([t] + old_)[1..] == old_;
    if |new_| > 0 && Strip(new_[0]) == Strip(t) {
      KeepsOrderDropNew(old_, new_);
    }
  }

  /** Forgetting the first survivor keeps the relation. */
  lemma {:induction false} KeepsOrderDropNew(old_: seq<Node>, new_: seq<Node>)
    requires |new_| > 0 && KeepsOrder(old_, new_)
    ensures KeepsOrder(old_, new_[1..])
    decreases |old_|, 0
  {
    assert |old_| > 0;
    assert old_ == [old_[0]] + old_[1..];
    if Strip(new_[0]) == Strip(old_[0]) {
      KeepsOrderDrop(old_[0], old_[1..], new_[1..]);
    } else {
      KeepsOrderDropNew(old_[1..], new_);
      KeepsOrderDrop(old_[0], old_[1..], new_[1..]);
    }
  }

  /** The remove loop never reorders the nodes it keeps. */
  lemma {:induction false} ScanKeepsOrder(rest: seq<Node>, x: Sale, guarded: bool)
    requires !Scan(rest, x, guarded).NullDeref?
    ensures KeepsOrder(rest, ScanOut(Scan(rest, x, guarded)))
    decreases |rest|
  {
    var r := Scan(rest, x, guarded);
    if |rest| == 0 || (Garbage(rest[0]) && |rest| == 1) {
    } else {
      var k := if Garbage(rest[0]) then 1 else 0;
      var t := rest[k];
      var after := rest[k + 1..];
      assert rest[k..] == [t] + after;
      KeepsOrderRefl(after);
      if CompareSales(t.data, x) == 0 {
        if t.numPointers == 0 {
          KeepsOrderDrop(t, after, after);
        } else if !t.isValid {
          KeepsOrderCons(t, after, after);
        } else {
          KeepsOrderCons(t, after, after);
          assert KeepsOrder([t] + after, [t.(isValid := false)] + after) by {
            assert ([t.(isValid := false)] + after)[1..] == after;
            assert ([t] + after)[1..] == after;
          }
        }
      } else {
        ScanKeepsOrder(after, x, guarded);
        KeepsOrderCons(t, after, ScanOut(Scan(after, x, guarded)));
      }
      if k == 1 {
        assert rest == [rest[0]] + rest[1..];
        KeepsOrderDrop(rest[0], rest[1..], ScanOut(r));
      }
    }
  }

  /** SLRemove never reorders the nodes it keeps. */
  lemma RemoveKeepsOrder(l: SortedList, x: Sale)
    requires |l.nodes| > 0
    ensures KeepsOrder(l.nodes, RemoveWith(Some(l), x, true).list.value.nodes)
  {
    var head := l.nodes[0];
    var tail := l.nodes[1..];
    assert l.nodes == [head] + tail;
    KeepsOrderRefl(tail);
    if CompareSales(head.data, x) == 0 {
      if head.numPointers == 0 {
        KeepsOrderDrop(head, tail, tail);
      } else if head.isValid {
        assert ([head.(isValid := false)] + tail)[1..] == tail;
      } else {
        KeepsOrderRefl(l.nodes);
      }
    } else {
      var sr := Scan(tail, x, true);
      ScanKeepsOrder(tail, x, true);
      if sr.Miss? && Garbage(head) {
        KeepsOrderDrop(head, tail, ScanOut(sr));
      } else {
        KeepsOrderCons(head, tail, ScanOut(sr));
      }
    }
  }

  /**
    SLRemove, with the loop stopping when collecting garbage ends the list.
    It returns 0 on a NULL or empty list, changes the list only as RemovalOf
    allows, returns 1 only when some node matched, and keeps the list sorted
    and its identities distinct.
   */
  function SLRemove(list: Option<SortedList>, x: Sale): (r: RemoveResult)
    ensures r.Done? && (r.code == 0 || r.code == 1)
    ensures list.None? ==> r.list.None? && r.code == 0
    ensures list.Some? && |list.value.nodes| == 0 ==> r.list == list && r.code == 0
    ensures list.Some? ==> r.list.Some? && r.list.value.nextId == list.value.nextId
    ensures list.Some? ==> RemovalOf(list.value.nodes, r.list.value.nodes, x, r.code)
    ensures list.Some? ==> KeepsOrder(list.value.nodes, r.list.value.nodes)
    ensures list.Some? && r.code == 1 ==> exists m :: m in list.value.nodes && CompareSales(m.data, x) == 0
    ensures list.Some? && Sorted(list.value.nodes) ==> Sorted(r.list.value.nodes)
    ensures list.Some? && Wf(list.value) ==> Wf(r.list.value)
  {
    if list.Some? && |list.value.nodes| > 0 then
      RemoveWithFacts(list.value, x);
      RemoveKeepsOrder(list.value, x);
      RemoveWith(list, x, true)
    else
      RemoveWith(list, x, true)
  }

  /**
    SLRemove as written: it crashes exactly where the corrected loop would
    have stopped after unlinking a last garbage node, and agrees with
    SLRemove everywhere else.
   */
  function SLRemoveAsWritten(list: Option<SortedList>, x: Sale): (r: RemoveResult)
    ensures r.Done? ==> r == SLRemove(list, x)
    ensures r.Faulted? ==> list.Some? && |list.value.nodes| >= 2
                           && Garbage(list.value.nodes[|list.value.nodes| - 1])
  {
    if list.Some? && |list.value.nodes| > 0 then
      ScanGuardAgreesOnTail(list.value.nodes, x);
      RemoveWith(list, x, false)
    else
      RemoveWith(list, x, false)
  }

  lemma ScanGuardAgreesOnTail(nodes: seq<Node>, x: Sale)
    requires |nodes| > 0
    ensures !Scan(nodes[1..], x, false).NullDeref? ==> Scan(nodes[1..], x, false) == Scan(nodes[1..], x, true)
    ensures Scan(nodes[1..], x, false).NullDeref? ==> |nodes| >= 2 && Garbage(nodes[|nodes| - 1])
  {
    ScanGuardAgrees(nodes[1..], x);
    if |nodes[1..]| > 0 {
      assert nodes[1..][|nodes[1..]| - 1] == nodes[|nodes| - 1];
    }
  }

  /** The loop meets its first match before any garbage and before any other match. */
  lemma {:induction false} ScanFirstMatch(rest: seq<Node>, x: Sale, guarded: bool, j: nat)
    requires j < |rest|
    requires forall i :: 0 <= i <= j ==> !Garbage(rest[i])
    requires forall i :: 0 <= i < j ==> CompareSales(rest[i].data, x) != 0
    requires CompareSales(rest[j].data, x) == 0
    ensures rest[j].numPointers == 0 ==> Scan(rest, x, guarded) == Hit(rest[..j] + rest[j + 1..], 1)
    ensures rest[j].numPointers != 0 && rest[j].isValid ==>
              Scan(rest, x, guarded) == Hit(rest[j := rest[j].(isValid := false)], 1)
    ensures rest[j].numPointers != 0 && !rest[j].isValid ==> Scan(rest, x, guarded) == Hit(rest, 0)
    decreases j
  {
    if j > 0 {
      ScanFirstMatch(rest[1..], x, guarded, j - 1);
      assert rest == [rest[0]] + rest[1..];
      assert rest[..j] + rest[j + 1..] == [rest[0]] + (rest[1..][..j - 1] + rest[1..][j..]);
      assert rest[j := rest[j].(isValid := false)] == [rest[0]] + rest[1..][j - 1 := rest[j].(isValid := false)];
    }
  }

  /**
    Removing the first matching node, with no garbage before it: an
    unreferenced node is unlinked and nothing else changes; a referenced
    valid node is marked invalid in place; a referenced node that is
    already invalid is not found again and nothing changes.
   */
  lemma RemoveFirstMatch(l: SortedList, x: Sale, k: nat)
    requires k < |l.nodes|
    requires forall i :: 0 <= i <= k ==> !Garbage(l.nodes[i])
    requires forall i :: 0 <= i < k ==> CompareSales(l.nodes[i].data, x) != 0
    requires CompareSales(l.nodes[k].data, x) == 0
    ensures l.nodes[k].numPointers == 0 ==>
              SLRemove(Some(l), x) == Done(Some(l.(nodes := l.nodes[..k] + l.nodes[k + 1..])), 1)
    ensures l.nodes[k].numPointers != 0 && l.nodes[k].isValid ==>
              SLRemove(Some(l), x) == Done(Some(l.(nodes := l.nodes[k := l.nodes[k].(isValid := false)])), 1)
    ensures l.nodes[k].numPointers != 0 && !l.nodes[k].isValid ==>
              SLRemove(Some(l), x) == Done(Some(l), 0)
  {
    assert SLRemove(Some(l), x) == RemoveWith(Some(l), x, true);
    if k == 0 {
      RemoveMatchAtHead(l, x);
    } else {
      RemoveMatchInTail(l, x, k);
    }
  }

  lemma RemoveMatchAtHead(l: SortedList, x: Sale)
    requires |l.nodes| > 0 && !Garbage(l.nodes[0]) && CompareSales(l.nodes[0].data, x) == 0
    ensures l.nodes[0].numPointers == 0 ==>
              RemoveWith(Some(l), x, true) == Done(Some(l.(nodes := l.nodes[..0] + l.nodes[1..])), 1)
    ensures l.nodes[0].numPointers != 0 && l.nodes[0].isValid ==>
              RemoveWith(Some(l), x, true) == Done(Some(l.(nodes := l.nodes[0 := l.nodes[0].(isValid := false)])), 1)
    ensures l.nodes[0].numPointers != 0 && !l.nodes[0].isValid ==>
              RemoveWith(Some(l), x, true) == Done(Some(l), 0)
  {
    var nodes := l.nodes;
    assert nodes[..0] + nodes[1..] == nodes[1..];
    assert nodes[0 := nodes[0].(isValid := false)] == [nodes[0].(isValid := false)] + nodes[1..];
  }

  lemma RemoveMatchInTail(l: SortedList, x: Sale, k: nat)
    requires 0 < k < |l.nodes|
    requires forall i :: 0 <= i <= k ==> !Garbage(l.nodes[i])
    requires forall i :: 0 <= i < k ==> CompareSales(l.nodes[i].data, x) != 0
    requires CompareSales(l.nodes[k].data, x) == 0
    ensures l.nodes[k].numPointers == 0 ==>
              RemoveWith(Some(l), x, true) == Done(Some(l.(nodes := l.nodes[..k] + l.nodes[k + 1..])), 1)
    ensures l.nodes[k].numPointers != 0 && l.nodes[k].isValid ==>
              RemoveWith(Some(l), x, true) == Done(Some(l.(nodes := l.nodes[k := l.nodes[k].(isValid := false)])), 1)
    ensures l.nodes[k].numPointers != 0 && !l.nodes[k].isValid ==>
              RemoveWith(Some(l), x, true) == Done(Some(l), 0)
  {
    var nodes := l.nodes;
    var tail := nodes[1..];
    forall i | 0 <= i <= k - 1
      ensures !Garbage(tail[i])
    {
      assert tail[i] == nodes[i + 1];
    }
    forall i | 0 <= i < k - 1
      ensures CompareSales(tail[i].data, x) != 0
    {
      assert tail[i] == nodes[i + 1];
    }
    ScanFirstMatch(tail, x, true, k - 1);
    assert nodes == [nodes[0]] + tail;
    assert nodes[..k] + nodes[k + 1..] == [nodes[0]] + (tail[..k - 1] + tail[k..]);
    assert nodes[k := nodes[k].(isValid := false)] == [nodes[0]] + tail[k - 1 := nodes[k].(isValid := false)];
  }

  /** A loop result with `ps` put in front of what it keeps. */
  function Prefixed(ps: seq<Node>, r: ScanResult): ScanResult {
    match r
    case Hit(out, code) => Hit(ps + out, code)
    case Miss(out) => Miss(ps + out)
    case NullDeref => NullDeref
  }

  /**
    Over a stretch where nothing matches, followed by a node that is not
    garbage, the loop leaves what it leaves of the stretch on its own and
    then carries on from that node as if the stretch had not been there.
   */
  lemma {:induction false} ScanThroughMisses(pre: seq<Node>, s: seq<Node>, x: Sale, guarded: bool)
    requires forall i :: 0 <= i < |pre| ==> CompareSales(pre[i].data, x) != 0
    requires |s| > 0 && !Garbage(s[0])
    ensures Scan(pre + s, x, guarded) == Prefixed(ScanOut(Scan(pre, x, true)), Scan(s, x, guarded))
    decreases |pre|
  {
    var r := Scan(s, x, guarded);
    if |pre| == 0 {
      assert pre + s == s;
      PrefixedNil(r);
    } else if Garbage(pre[0]) && |pre| == 1 {
      ScanSkipsLoneGarbage(pre + s, x, guarded);
      assert (pre + s)[1..] == s;
      PrefixedNil(r);
    } else {
      var k := if Garbage(pre[0]) then 1 else 0;
      var after := pre[k + 1..];
      assert (pre + s)[k + 1..] == after + s;
      forall i | 0 <= i < |after|
        ensures CompareSales(after[i].data, x) != 0
      {
        assert after[i] == pre[k + 1 + i];
      }
      ScanThroughMisses(after, s, x, guarded);
      ScanNoMatch(after, x);
      ScanMismatchStep(pre + s, x, guarded);
      ScanMismatchStep(pre, x, true);
      PrefixedAssoc([pre[k]], ScanOut(Scan(after, x, true)), r);
    }
  }

  lemma PrefixedNil(r: ScanResult)
    ensures Prefixed([], r) == r
  {
    match r
    case Hit(out, _) => assert [] + out == out;
    case Miss(out) => assert [] + out == out;
    case NullDeref =>
  }

  lemma PrefixedAssoc(a: seq<Node>, b: seq<Node>, r: ScanResult)
    ensures Prefixed(a, Prefixed(b, r)) == Prefixed(a + b, r)
  {
    match r
    case Hit(out, _) => assert a + (b + out) == (a + b) + out;
    case Miss(out) => assert a + (b + out) == (a + b) + out;
    case NullDeref =>
  }

  /** A garbage node followed by one that is not garbage is skipped, and the loop goes on from there. */
  lemma ScanSkipsLoneGarbage(rest: seq<Node>, x: Sale, guarded: bool)
    requires |rest| >= 2 && Garbage(rest[0]) && !Garbage(rest[1])
    ensures Scan(rest, x, guarded) == Scan(rest[1..], x, guarded)
  {
    var s := rest[1..];
    assert s[0] == rest[1] && s[1..] == rest[2..];
  }

  /** One step of the loop past a node that does not match. */
  lemma ScanMismatchStep(rest: seq<Node>, x: Sale, guarded: bool)
    requires |rest| > 0 && !(Garbage(rest[0]) && |rest| == 1)
    requires var k := if Garbage(rest[0]) then 1 else 0; CompareSales(rest[k].data, x) != 0
    ensures var k := if Garbage(rest[0]) then 1 else 0;
            Scan(rest, x, guarded) == Prefixed([rest[k]], Scan(rest[k + 1..], x, guarded))
  {
  }

  /**
    Removing the first matching node that is not garbage, when no node
    before it matches, garbage or not. The head and the nodes that are not
    garbage before the match all stay, and only garbage goes; the match itself is unlinked when
    unreferenced (1), marked invalid when referenced and valid (1), and left
    alone when referenced and already invalid (0); the nodes after it are
    untouched.
   */
  lemma RemoveFirstMatchPastGarbage(l: SortedList, x: Sale, k: nat)
    requires k < |l.nodes| && !Garbage(l.nodes[k])
    requires forall i :: 0 <= i < k ==> CompareSales(l.nodes[i].data, x) != 0
    requires CompareSales(l.nodes[k].data, x) == 0
    ensures var n := l.nodes[k];
            var kept := if k == 0 then [] else [l.nodes[0]] + ScanOut(Scan(l.nodes[1..k], x, true));
            var fate := if n.numPointers == 0 then [] else if n.isValid then [n.(isValid := false)] else [n];
            && SLRemove(Some(l), x) == Done(Some(l.(nodes := kept + fate + l.nodes[k + 1..])),
                                            if n.numPointers != 0 && !n.isValid then 0 else 1)
            && (forall m :: m in kept ==> m in l.nodes[..k])
            && (forall m :: m in l.nodes[..k] && !Garbage(m) ==> m in kept)
  {
    assert SLRemove(Some(l), x) == RemoveWith(Some(l), x, true);
    if k == 0 {
      RemoveMatchAtHeadFate(l, x);
    } else {
      RemoveMatchPastGarbage(l, x, k);
    }
  }

  lemma RemoveMatchAtHeadFate(l: SortedList, x: Sale)
    requires |l.nodes| > 0 && !Garbage(l.nodes[0]) && CompareSales(l.nodes[0].data, x) == 0
    ensures var n := l.nodes[0];
            var fate := if n.numPointers == 0 then [] else if n.isValid then [n.(isValid := false)] else [n];
            RemoveWith(Some(l), x, true) == Done(Some(l.(nodes := [] + fate + l.nodes[1..])),
                                                 if n.numPointers != 0 && !n.isValid then 0 else 1)
  {
    var n := l.nodes[0];
    var tail := l.nodes[1..];
    if n.numPointers == 0 {
      assert [] + [] + tail == tail;
    } else if n.isValid {
      assert [] + [n.(isValid := false)] + tail == [n.(isValid := false)] + tail;
    } else {
      assert [] + [n] + tail == l.nodes;
    }
  }

  lemma RemoveMatchPastGarbage(l: SortedList, x: Sale, k: nat)
    requires 0 < k < |l.nodes| && !Garbage(l.nodes[k])
    requires forall i :: 0 <= i < k ==> CompareSales(l.nodes[i].data, x) != 0
    requires CompareSales(l.nodes[k].data, x) == 0
    ensures var n := l.nodes[k];
            var kept := [l.nodes[0]] + ScanOut(Scan(l.nodes[1..k], x, true));
            var fate := if n.numPointers == 0 then [] else if n.isValid then [n.(isValid := false)] else [n];
            && RemoveWith(Some(l), x, true) == Done(Some(l.(nodes := kept + fate + l.nodes[k + 1..])),
                                                   if n.numPointers != 0 && !n.isValid then 0 else 1)
            && (forall m :: m in kept ==> m in l.nodes[..k])
            && (forall m :: m in l.nodes[..k] && !Garbage(m) ==> m in kept)
  {
    var nodes := l.nodes;
    var pre := nodes[1..k];
    var s := nodes[k..];
    assert nodes[1..] == pre + s;
    PrefixMisses(nodes, k, x);
    ScanThroughMisses(pre, s, x, true);
    ScanMatchAtFront(s, x, true);
    assert s[1..] == nodes[k + 1..];
    var ps := ScanOut(Scan(pre, x, true));
    var n := nodes[k];
    var fate := if n.numPointers == 0 then [] else if n.isValid then [n.(isValid := false)] else [n];
    assert [nodes[0]] + (ps + (fate + nodes[k + 1..])) == ([nodes[0]] + ps) + fate + nodes[k + 1..];
    SweptPrefixFacts(nodes, k, x);
  }

  lemma PrefixMisses(nodes: seq<Node>, k: nat, x: Sale)
    requires 0 < k <= |nodes|
    requires forall i :: 0 <= i < k ==> CompareSales(nodes[i].data, x) != 0
    ensures forall i :: 0 <= i < |nodes[1..k]| ==> CompareSales(nodes[1..k][i].data, x) != 0
  {
    forall i | 0 <= i < |nodes[1..k]|
      ensures CompareSales(nodes[1..k][i].data, x) != 0
    {
      assert nodes[1..k][i] == nodes[i + 1];
    }
  }

  /** A first node that matches and is not garbage is handled on the spot. */
  lemma ScanMatchAtFront(s: seq<Node>, x: Sale, guarded: bool)
    requires |s| > 0 && !Garbage(s[0]) && CompareSales(s[0].data, x) == 0
    ensures var n := s[0];
            var fate := if n.numPointers == 0 then [] else if n.isValid then [n.(isValid := false)] else [n];
            Scan(s, x, guarded) == Hit(fate + s[1..], if n.numPointers != 0 && !n.isValid then 0 else 1)
  {
    assert [] + s[1..] == s[1..];
  }

  /** What the loop keeps of a non-matching stretch behind the head. */
  lemma SweptPrefixFacts(nodes: seq<Node>, k: nat, x: Sale)
    requires 0 < k <= |nodes|
    requires forall i :: 0 <= i < k ==> CompareSales(nodes[i].data, x) != 0
    ensures var kept := [nodes[0]] + ScanOut(Scan(nodes[1..k], x, true));
            && (forall m :: m in kept ==> m in nodes[..k])
            && (forall m :: m in nodes[..k] && !Garbage(m) ==> m in kept)
  {
    var pre := nodes[1..k];
    PrefixMisses(nodes, k, x);
    ScanNoMatch(pre, x);
    assert nodes[..k] == [nodes[0]] + pre;
  }

  /** With nothing matching, the loop keeps every node that is not garbage and invents none. */
  lemma {:induction false} ScanNoMatch(rest: seq<Node>, x: Sale)
    requires forall i :: 0 <= i < |rest| ==> CompareSales(rest[i].data, x) != 0
    ensures Scan(rest, x, true).Miss?
    ensures forall n :: n in Scan(rest, x, true).rest ==> n in rest
    ensures forall m :: m in rest && !Garbage(m) ==> m in Scan(rest, x, true).rest
    decreases |rest|
  {
    if |rest| == 0 || (Garbage(rest[0]) && |rest| == 1) {
    } else {
      var k := if Garbage(rest[0]) then 1 else 0;
      var t := rest[k];
      var after := rest[k + 1..];
      ScanNoMatch(after, x);
      var out' := Scan(after, x, true).rest;
      assert Scan(rest, x, true) == Miss([t] + out');
      forall m | m in rest && !Garbage(m)
        ensures m in [t] + out'
      {
        var i :| 0 <= i < |rest| && rest[i] == m;
        if i > k { assert after[i - k - 1] == m; }
      }
    }
  }

  /** With nothing matching and no garbage, the loop changes nothing. */
  lemma {:induction false} ScanNoMatchNoGarbage(rest: seq<Node>, x: Sale)
    requires forall i :: 0 <= i < |rest| ==> CompareSales(rest[i].data, x) != 0 && !Garbage(rest[i])
    ensures Scan(rest, x, true) == Miss(rest)
    decreases |rest|
  {
    if |rest| > 0 {
      ScanNoMatchNoGarbage(rest[1..], x);
      assert rest == [rest[0]] + rest[1..];
    }
  }

  /**
    Removing a record nothing matches returns 0, keeps every node that is
    not garbage unchanged, adds nothing, and unlinks a garbage head; on a
    list without garbage it changes nothing.
   */
  lemma RemoveAbsent(l: SortedList, x: Sale)
    requires Wf(l)
    requires forall i :: 0 <= i < |l.nodes| ==> CompareSales(l.nodes[i].data, x) != 0
    ensures var r := SLRemove(Some(l), x);
            && r.code == 0
            && (forall n :: n in r.list.value.nodes ==> n in l.nodes)
            && (forall m :: m in l.nodes && !Garbage(m) ==> m in r.list.value.nodes)
            && (|l.nodes| > 0 && Garbage(l.nodes[0]) ==> l.nodes[0].id !in Ids(r.list.value.nodes))
            && ((forall i :: 0 <= i < |l.nodes| ==> !Garbage(l.nodes[i])) ==> r.list == Some(l))
  {
    if |l.nodes| > 0 {
      var nodes := l.nodes;
      var tail := nodes[1..];
      assert nodes == [nodes[0]] + tail;
      ScanNoMatch(tail, x);
      if forall i :: 0 <= i < |nodes| ==> !Garbage(nodes[i]) {
        ScanNoMatchNoGarbage(tail, x);
      }
      var out := Scan(tail, x, true).rest;
      if Garbage(nodes[0]) {
        forall n | n in out ensures n.id != nodes[0].id {
          var i :| 0 <= i < |tail| && tail[i] == n;
          assert nodes[i + 1] == n;
        }
      }
    }
  }
}
