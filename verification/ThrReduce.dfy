// constructOptimizedSubtree: merging the leaves of a group, two lowest stored latencies at a time.
module ThrReduce {
  import opened Collections
  import opened ThrTree
  import opened ThrBfs
  import opened ThrLatency
  import opened ThrGroups
  import opened ThrForest
  import opened ThrMerge

  // The state of the loop: the history h leads from the leaves f0 to f, every reused node is either
  // still spare or used once, and there is one more leaf than there are spare nodes.
  ghost predicate MergeState(h: Merges, f0: seq<Tree>, reused0: seq<Node>, f: seq<Tree>, reused: seq<Node>,
                             op: Opcode) {
    Reached(h, f0, f, op) && ForestOk(f, reused, op) && |f| == |reused| + 1 && reused <= reused0 &&
    Used(h) + multiset(reused) == multiset(reused0) &&
    ForestNodes(f) + multiset(reused) == ForestNodes(f0) + multiset(reused0)
  }

  lemma MergeKeeps(h: Merges, f0: seq<Tree>, reused0: seq<Node>, f: seq<Tree>, reused: seq<Node>, op: Opcode,
                   p: seq<Tree>)
    requires MergeState(h, f0, reused0, f, reused, op) && |reused| >= 1
    requires multiset(p) == multiset(f) && |p| >= 2
    ensures var n, rest := reused[|reused| - 1], reused[..|reused| - 1];
      MergeState(Merge(h, p, n), f0, reused0, Merged(p, n), rest, op)
  {
    var n, rest := reused[|reused| - 1], reused[..|reused| - 1];
    assert |multiset(p)| == |p|;
    ForestPerm(f, p, reused, op);
    ForestMerged(p, reused, op);
    ReachedNext(h, f0, f, p, n, op);
    MergeConserves(f, reused, p, f0, reused0);
    UsedNext(h, p, reused);
  }

  lemma UsedNext(h: Merges, p: seq<Tree>, reused: seq<Node>)
    requires |reused| >= 1
    ensures var n, rest := reused[|reused| - 1], reused[..|reused| - 1];
      Used(Merge(h, p, n)) + multiset(rest) == Used(h) + multiset(reused) && rest <= reused
  {
    assert reused == reused[..|reused| - 1] + [reused[|reused| - 1]];
  }

  lemma MergeConserves(f: seq<Tree>, reused: seq<Node>, p: seq<Tree>, f0: seq<Tree>, reused0: seq<Node>)
    requires multiset(p) == multiset(f) && |p| >= 2 && |reused| >= 1
    requires ForestNodes(f) + multiset(reused) == ForestNodes(f0) + multiset(reused0)
    ensures var n, rest := reused[|reused| - 1], reused[..|reused| - 1];
      ForestNodes(Merged(p, n)) + multiset(rest) == ForestNodes(f0) + multiset(reused0)
  {
    var n, rest := reused[|reused| - 1], reused[..|reused| - 1];
    MergedForestNodes(p, n);
    UnionByPerm(NodesMOf(), f, p);
    assert reused == rest + [n];
    assert ForestNodes(Merged(p, n)) + multiset(rest) == ForestNodes(p) + multiset(reused);
  }

  lemma ReachedNext(h: Merges, f0: seq<Tree>, f: seq<Tree>, p: seq<Tree>, n: Node, op: Opcode)
    requires Reached(h, f0, f, op) && multiset(p) == multiset(f) && |p| >= 2 && n.op == op
    ensures Reached(Merge(h, p, n), f0, Merged(p, n), op)
  {
    assert Reached(h, f0, p, op);
  }

  // The while loop of constructOptimizedSubtree; n is the first of the reused nodes.
  method MergeLeaves(leaves0: seq<Node>, reused0: seq<Node>, k: Costs, ghost op: Opcode,
                     ghost f0: seq<Tree>, ghost region: set<Node>, ghost n: Node,
                     ghost stale: set<Node>)
    returns (leaves: seq<Node>, ghost f: seq<Tree>, ghost h: Merges)
    requires leaves0 == Tops(f0) && MergeState(NoMerge, f0, reused0, f0, reused0, op)
    requires Rooted(f0, region) && (forall r :: r in reused0 ==> r in region)
    requires if reused0 == [] then f0[0].n == n else reused0[0] == n
    modifies region
    ensures leaves == Tops(f) && MergeState(h, f0, reused0, f, [], op)
    ensures Rooted(f, region) && f[0].n == n && n.parent == old(n.parent)
    ensures old(TopsStored(f0, k, stale)) ==> Allowed(h, k, stale)
  {
    leaves := leaves0;
    var reused := reused0;
    f, h := f0, NoMerge;
    while |leaves| > 1
      invariant leaves == Tops(f) && MergeState(h, f0, reused0, f, reused, op)
      invariant Rooted(f, region)
      invariant if reused == [] then f[0].n == n else reused[0] == n
      invariant n.parent == old(n.parent)
      invariant old(TopsStored(f0, k, stale)) ==> Allowed(h, k, stale) && TopsStored(f, k, stale)
      decreases |reused|
    {
      ghost var p;
      ghost var last, was := reused[|reused| - 1], reused;
      assert last == reused0[|reused| - 1];
      leaves, reused, p := MergeTwoLowest(leaves, reused, k, op, f, region, stale);
      MergeKeeps(h, f0, reused0, f, was, op, p);
      f, h := Merged(p, last), Merge(h, p, last);
    }
  }

  // The one tree that is left.
  lemma LastTree(h: Merges, f0: seq<Tree>, reused0: seq<Node>, f: seq<Tree>, op: Opcode) returns (t: Tree)
    requires MergeState(h, f0, reused0, f, [], op)
    ensures f == [t] && t in f && Tops(f)[0] == t.n && Proper(t) && MergeState(h, f0, reused0, [t], [], op)
  {
    t := f[0];
    assert f == [t];
    UnionByCons(NodesMOf(), t, []);
  }

  // Updating latencies leaves the links alone.
  method UpdateRoot(root: Node, k: Costs, ghost t: Tree)
    requires t.n == root && Linked(t) && Proper(t)
    modifies Nodes(t)`latency, Nodes(t)`totalCost
    ensures Linked(t) && Current(t, k)
  {
    Footprint(t);
    UpdateTreeLatency(root, k, t);
  }

  method ConstructOptimizedSubtree(leaves0: seq<Node>, reused0: seq<Node>, k: Costs, ghost op: Opcode,
                                   ghost f0: seq<Tree>, ghost region: set<Node>, ghost n: Node,
                                   ghost stale: set<Node>)
    returns (newNode: Node, ghost t: Tree, ghost h: Merges)
    requires leaves0 == Tops(f0) && MergeState(NoMerge, f0, reused0, f0, reused0, op)
    requires Rooted(f0, region) && (forall r :: r in reused0 ==> r in region)
    requires if reused0 == [] then f0[0].n == n else reused0[0] == n
    modifies region
    ensures newNode == n == t.n && n.parent == old(n.parent)
    ensures Linked(t) && Proper(t) && Current(t, k) && Nodes(t) <= region
    ensures MergeState(h, f0, reused0, [t], [], op)
    ensures old(TopsStored(f0, k, stale)) ==> Allowed(h, k, stale)
  {
    var leaves;
    ghost var f;
    leaves, f, h := MergeLeaves(leaves0, reused0, k, op, f0, region, n, stale);
    t := LastTree(h, f0, reused0, f, op);
    newNode := leaves[0];
    assert Nodes(t) <= region;
    Footprint(t);
    UpdateRoot(newNode, k, t);
  }
}
