// combineLeaves, and one iteration of constructOptimizedSubtree on the leaves of a group.
module ThrMerge {
  import opened Collections
  import opened ThrTree
  import opened ThrBfs
  import opened ThrLatency
  import opened ThrGroups
  import opened ThrForest

  // Duplicate-free trees and spare nodes of one operator.
  ghost predicate ForestOk(f: seq<Tree>, spare: seq<Node>, op: Opcode) {
    NoDup(ForestNodes(f) + multiset(spare)) && IsCommutative(op) &&
    (forall t :: t in f ==> Arithmetic(t)) &&
    (forall i :: 0 <= i < |spare| ==> spare[i].op == op && !spare[i].phi)
  }

  lemma ForestPerm(f: seq<Tree>, p: seq<Tree>, spare: seq<Node>, op: Opcode)
    requires ForestOk(f, spare, op) && multiset(p) == multiset(f)
    ensures ForestOk(p, spare, op)
    ensures forall t :: t in p ==> t in f
  {
    UnionByPerm(NodesMOf(), f, p);
    PermElements(f, p);
  }

  lemma ForestMerged(p: seq<Tree>, spare: seq<Node>, op: Opcode)
    requires ForestOk(p, spare, op) && |p| >= 2 && |spare| >= 1
    ensures ForestOk(Merged(p, spare[|spare| - 1]), spare[..|spare| - 1], op)
    ensures Proper(Inner(spare[|spare| - 1], p[0], p[1]))
  {
    var n, rest := spare[|spare| - 1], spare[..|spare| - 1];
    var t := Inner(n, p[0], p[1]);
    MergedForestNodes(p, n);
    assert spare == rest + [n];
    assert ForestNodes(Merged(p, n)) + multiset(rest) == ForestNodes(p) + multiset(spare);
    assert p[0] in p && p[1] in p;
    forall x | x in Merged(p, n)
      ensures Arithmetic(x)
    {
      assert x in p || x == t;
    }
    ForestApart(Merged(p, n), rest, |p| - 2);
    assert Merged(p, n)[|p| - 2] == t;
  }

  lemma MergedForestNodes(p: seq<Tree>, n: Node)
    requires |p| >= 2
    ensures ForestNodes(Merged(p, n)) == ForestNodes(p) + multiset{n}
  {
    UnionByTwo(NodesMOf(), p);
    UnionBySnoc(NodesMOf(), p[2..], Inner(n, p[0], p[1]));
  }

  // A node that can be put above two trees.
  lemma InnerApart(n: Node, a: Tree, b: Tree)
    requires NoDup(NodesM(Inner(n, a, b)))
    ensures n !in Nodes(a) && n !in Nodes(b)
    ensures forall x :: x in Nodes(a) ==> x !in Nodes(b)
  {
    if n in Nodes(a) || n in Nodes(b) {
      OneOwner(n, a, b, n);
    }
    forall x | x in Nodes(a)
      ensures x !in Nodes(b)
    {
      OneOwner(n, a, b, x);
    }
  }

  lemma TopsApart(t: Tree)
    requires t.Inner? && Proper(t)
    ensures t.l.n !in Below(t.l) && t.r.n !in Below(t.r)
  {
    ChildrenDistinct(t);
    TopApart(t.l);
    TopApart(t.r);
  }

  lemma OneOwner(n: Node, a: Tree, b: Tree, x: Node)
    requires NoDup(NodesM(Inner(n, a, b))) && (x in Nodes(a) || x in Nodes(b))
    ensures x != n && (x in Nodes(a) ==> x !in Nodes(b))
  {
    NodesAreCounted(a, x);
    NodesAreCounted(b, x);
    var m := NodesM(Inner(n, a, b));
    assert m == multiset{n} + (NodesM(a) + NodesM(b));
    assert x in m;
  }

  lemma TopApart(t: Tree)
    requires Proper(t)
    ensures t.n !in Below(t)
  {
    if t.Inner? {
      NodesAreCounted(t.l, t.n);
      NodesAreCounted(t.r, t.n);
      assert t.n in NodesM(t);
    }
  }

  // What is stored at the tops of the leaves, of which those in stale have not been updated yet.
  ghost predicate TopsStored(f: seq<Tree>, k: Costs, stale: set<Node>)
    reads set t | t in f :: t.n
  {
    forall t :: t in f ==> t.n.latency == StoredLat(t, k, stale) && t.n.totalCost == StoredCost(t, k, stale)
  }

  method LinkChildren(n: Node, op1: Node, op2: Node, ghost t: Tree)
    requires t.Inner? && t.n == n && op1 == t.l.n && op2 == t.r.n
    requires Proper(t) && Linked(t.l) && Linked(t.r)
    modifies n`left, n`right, op1`parent, op2`parent
    ensures Linked(t)
  {
    InnerApart(n, t.l, t.r);
    TopsApart(t);
    Footprint(t.l);
    Footprint(t.r);
    n.left := op1;
    n.right := op2;
    op1.parent := n;
    op2.parent := n;
    assert Linked(t.l);
    assert Linked(t.r);
  }

  method CombineLeaves(leaves: seq<Node>, op1: Node, op2: Node, reused: seq<Node>, k: Costs, ghost t: Tree)
    returns (leaves': seq<Node>, reused': seq<Node>)
    requires |reused| > 0 && t.Inner? && t.n == reused[|reused| - 1] && op1 == t.l.n && op2 == t.r.n
    requires Proper(t) && Linked(t.l) && Linked(t.r)
    modifies t.n`left, t.n`right, op1`parent, op2`parent, Nodes(t)`latency, Nodes(t)`totalCost
    ensures leaves' == leaves + [t.n] && reused' == reused[..|reused| - 1]
    ensures Linked(t) && Current(t, k)
  {
    var n := reused[|reused| - 1];
    reused' := reused[..|reused| - 1];
    LinkChildren(n, op1, op2, t);
    Footprint(t);
    UpdateTreeLatency(n, k, t);
    leaves' := leaves + [n];
  }

  // A vector that the sort leaves is sorted by what is stored.
  lemma OrderedIsSorted(p: seq<Tree>, k: Costs, stale: set<Node>)
    requires Ordered(Tops(p)) && TopsStored(p, k, stale)
    ensures SortedOn(p, k, stale)
  {
    forall i, j | 0 <= i < j < |p|
      ensures NotAfter(p[i], p[j], k, stale)
    {
      assert p[i] in p && p[j] in p;
      assert !Less(Tops(p)[j], Tops(p)[i]);
    }
  }

  // The roots of a duplicate-free forest and its spare nodes are distinct.
  lemma RootsDistinct(p: seq<Tree>, spare: seq<Node>, op: Opcode)
    requires ForestOk(p, spare, op) && |spare| >= 1
    ensures Distinct(Tops(p) + [spare[|spare| - 1]])
  {
    var n := spare[|spare| - 1];
    var s := Tops(p) + [n];
    forall i, j | 0 <= i < j < |s|
      ensures s[i] != s[j]
    {
      ForestApart(p, spare, i);
      Footprint(p[i]);
      if j < |p| {
        Footprint(p[j]);
      } else {
        assert n in spare;
      }
    }
  }

  // What the chosen merge leaves alone.
  lemma MergeApart(p: seq<Tree>, reused: seq<Node>, op: Opcode, x: Tree)
    requires ForestOk(p, reused, op) && |p| >= 2 && |reused| >= 1 && x in p[2..]
    ensures var t := Inner(reused[|reused| - 1], p[0], p[1]);
      forall y :: y in Nodes(t) ==> y !in Nodes(x)
  {
    ForestMerged(p, reused, op);
    var m := Merged(p, reused[|reused| - 1]);
    var i :| 0 <= i < |p[2..]| && p[2..][i] == x;
    assert m[i] == x && i < |m| - 1;
    ForestApart(m, reused[..|reused| - 1], |m| - 1);
  }

  // Removing the operands from the vector with the new root at its end.
  lemma RootsAfter(p: seq<Tree>, reused: seq<Node>, op: Opcode)
    requires ForestOk(p, reused, op) && |p| >= 2 && |reused| >= 1
    ensures var n := reused[|reused| - 1];
      Without(Without(Tops(p) + [n], p[0].n), p[1].n) == Tops(Merged(p, n))
  {
    var n := reused[|reused| - 1];
    RootsDistinct(p, reused, op);
    TopsOfMerged(p, n);
    RemoveOperands(p[0].n, p[1].n, Tops(Merged(p, n)));
  }

  lemma TopsOfMerged(p: seq<Tree>, n: Node)
    requires |p| >= 2
    ensures Tops(p) + [n] == [p[0].n] + ([p[1].n] + Tops(Merged(p, n)))
  {
    var t := Inner(n, p[0], p[1]);
    assert Merged(p, n) == p[2..] + [t];
    MapAppend(TopOf(), p[2..], [t]);
    MapAppend(TopOf(), [p[0], p[1]], p[2..]);
    assert p == [p[0], p[1]] + p[2..];
    assert Tops([p[0], p[1]]) == [p[0].n] + [p[1].n] && Tops([t]) == [n];
  }

  ghost predicate Rooted(f: seq<Tree>, region: set<Node>)
    reads region
  {
    forall t :: t in f ==> Nodes(t) <= region && Below(t) <= region && t.n in region && Linked(t)
  }

  lemma MergeFacts(p: seq<Tree>, reused: seq<Node>, op: Opcode)
    requires ForestOk(p, reused, op) && |p| >= 2 && |reused| >= 1
    ensures p[0] in p && p[1] in p
    ensures var t := Inner(reused[|reused| - 1], p[0], p[1]);
      Proper(t) && Nodes(t) == {t.n} + Nodes(p[0]) + Nodes(p[1]) &&
      forall x :: x in p[2..] ==>
        x in p && (forall y :: y in Nodes(t) ==> y !in Nodes(x)) && Below(x) <= Nodes(x) && x.n in Nodes(x)
    ensures p[0].n !in reused && p[1].n !in reused
  {
    ForestMerged(p, reused, op);
    Footprint(p[0]);
    Footprint(p[1]);
    ForestApart(p, reused, 0);
    ForestApart(p, reused, 1);
    forall x | x in p[2..]
      ensures x in p && forall y :: y in Nodes(Inner(reused[|reused| - 1], p[0], p[1])) ==> y !in Nodes(x)
      ensures Below(x) <= Nodes(x) && x.n in Nodes(x)
    {
      MergeApart(p, reused, op, x);
      Footprint(x);
    }
  }

  // Linking one merge keeps the other trees.
  method MergeInto(leaves: seq<Node>, reused: seq<Node>, k: Costs, ghost op: Opcode, ghost p: seq<Tree>,
                   ghost region: set<Node>, ghost stale: set<Node>)
    returns (leaves': seq<Node>, reused': seq<Node>)
    requires |leaves| >= 2 && |p| >= 2 && leaves[0] == p[0].n && leaves[1] == p[1].n
    requires |reused| >= 1 && ForestOk(p, reused, op)
    requires Rooted(p, region) && reused[|reused| - 1] in region
    modifies region
    ensures leaves' == leaves + [reused[|reused| - 1]] && reused' == reused[..|reused| - 1]
    ensures Rooted(Merged(p, reused[|reused| - 1]), region)
    ensures forall r :: r in reused ==> r.parent == old(r.parent)
    ensures old(TopsStored(p, k, stale)) ==> TopsStored(Merged(p, reused[|reused| - 1]), k, stale)
  {
    ghost var n := reused[|reused| - 1];
    ghost var t := Inner(n, p[0], p[1]);
    MergeFacts(p, reused, op);
    leaves', reused' := CombineLeaves(leaves, leaves[0], leaves[1], reused, k, t);
    assert NodeCurrent(t, k);
    assert Linked(t);
  }

  // Sorting keeps the forest, in an order that the stored latencies and costs allow.
  lemma SortedFacts(f: seq<Tree>, p: seq<Tree>, reused: seq<Node>, op: Opcode, region: set<Node>, k: Costs,
                    stale: set<Node>)
    requires ForestOk(f, reused, op) && Rooted(f, region) && |f| >= 2
    requires multiset(p) == multiset(f) && Ordered(Tops(p))
    ensures |p| == |f| && ForestOk(p, reused, op) && Rooted(p, region)
    ensures TopsStored(f, k, stale) ==> SortedOn(p, k, stale) && TopsStored(p, k, stale)
  {
    assert |multiset(p)| == |p|;
    ForestPerm(f, p, reused, op);
    if TopsStored(f, k, stale) {
      assert TopsStored(p, k, stale);
      OrderedIsSorted(p, k, stale);
    }
  }

  // One iteration of the loop of constructOptimizedSubtree.
  method MergeTwoLowest(leaves: seq<Node>, reused: seq<Node>, k: Costs, ghost op: Opcode, ghost f: seq<Tree>,
                        ghost region: set<Node>, ghost stale: set<Node>)
    returns (leaves': seq<Node>, reused': seq<Node>, ghost p: seq<Tree>)
    requires leaves == Tops(f) && |f| >= 2 && |reused| >= 1 && ForestOk(f, reused, op)
    requires Rooted(f, region) && reused[|reused| - 1] in region
    modifies region
    ensures |p| >= 2 && multiset(p) == multiset(f) && reused' == reused[..|reused| - 1]
    ensures leaves' == Tops(Merged(p, reused[|reused| - 1]))
    ensures Rooted(Merged(p, reused[|reused| - 1]), region)
    ensures forall r :: r in reused ==> r.parent == old(r.parent)
    ensures old(TopsStored(f, k, stale)) ==>
      SortedOn(p, k, stale) && TopsStored(Merged(p, reused[|reused| - 1]), k, stale)
  {
    var sorted;
    sorted, p := SortLeaves(leaves, f);
    SortedFacts(f, p, reused, op, region, k, stale);
    leaves', reused' := MergeInto(sorted, reused, k, op, p, region, stale);
    RootsAfter(p, reused, op);
    leaves' := RemoveNodeFromLeaves(leaves', sorted[0]);
    leaves' := RemoveNodeFromLeaves(leaves', sorted[1]);
  }
}
