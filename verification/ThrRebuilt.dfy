// What rebuilding one group keeps: its operands, its nodes, its leaves; and what greedy merges make of its latency.
module ThrRebuilt {
  import opened Collections
  import opened ThrTree
  import opened ThrBfs
  import opened ThrGroups
  import opened ThrForest
  import opened ThrMerge
  import opened ThrCollect
  import opened ThrReduce

  lemma {:induction false} FrontierMember(t: Tree, op: Opcode, s: Tree)
    requires s in Frontier(t, op)
    ensures s in Subs(t) && !InGroup(s, op)
    ensures InGroup(t, op) ==> s in Subs(t.l) || s in Subs(t.r)
  {
    if InGroup(t, op) {
      if s in Frontier(t.l, op) { FrontierMember(t.l, op, s); } else { FrontierMember(t.r, op, s); }
    }
  }

  lemma {:induction false} GroupMember(t: Tree, op: Opcode, n: Node)
    requires n in GroupNodes(t, op) && Arithmetic(t)
    ensures n in Nodes(t) && n.op == op && !n.phi
  {
    if n != t.n {
      if n in GroupNodes(t.l, op) { GroupMember(t.l, op, n); } else { GroupMember(t.r, op, n); }
    }
  }

  lemma {:induction false} SubsArithmetic(t: Tree, s: Tree)
    requires Arithmetic(t) && s in Subs(t)
    ensures Arithmetic(s)
  {
    if s != t {
      if s in Subs(t.l) { SubsArithmetic(t.l, s); } else { SubsArithmetic(t.r, s); }
    }
  }

  lemma CollectedMembers(t: Tree, op: Opcode)
    ensures forall s :: s in CollectedLeaves([t], op) ==> s in Frontier(t, op)
    ensures forall n :: n in CollectedNodes([t], op) ==> n in GroupNodes(t, op)
  {
    Collected(t, op);
    PermElements(Frontier(t, op), CollectedLeaves([t], op));
    forall n | n in CollectedNodes([t], op)
      ensures n in GroupNodes(t, op)
    {
      assert n in multiset(CollectedNodes([t], op));
    }
  }

  lemma CollectedForest(t: Tree, op: Opcode)
    requires Proper(t) && IsCommutative(op)
    ensures ForestOk(CollectedLeaves([t], op), CollectedNodes([t], op), op)
  {
    CollectedNodesM(t, op);
    CollectedArithmetic(t, op);
  }

  lemma CollectedArithmetic(t: Tree, op: Opcode)
    requires Arithmetic(t)
    ensures forall s :: s in CollectedLeaves([t], op) ==> Arithmetic(s)
    ensures forall n :: n in CollectedNodes([t], op) ==> n.op == op && !n.phi
  {
    CollectedMembers(t, op);
    forall s | s in CollectedLeaves([t], op)
      ensures Arithmetic(s)
    {
      FrontierMember(t, op, s);
      SubsArithmetic(t, s);
    }
    forall n | n in CollectedNodes([t], op)
      ensures n.op == op && !n.phi
    {
      GroupMember(t, op, n);
    }
  }

  lemma CollectedNodesM(t: Tree, op: Opcode)
    ensures ForestNodes(CollectedLeaves([t], op)) + multiset(CollectedNodes([t], op)) == NodesM(t)
  {
    Collected(t, op);
    FrontierNodes(t, op);
    UnionByPerm(NodesMOf(), CollectedLeaves([t], op), Frontier(t, op));
  }

  // The vectors of a tree start the merge loop in a correct state.
  lemma CollectedState(t: Tree, op: Opcode)
    requires Proper(t) && IsCommutative(op)
    ensures var f, reused := CollectedLeaves([t], op), CollectedNodes([t], op);
      MergeState(NoMerge, f, reused, f, reused, op)
  {
    Collected(t, op);
    CollectedForest(t, op);
  }

  lemma CollectedRooted(t: Tree, op: Opcode)
    requires Linked(t) && Arithmetic(t)
    ensures Rooted(CollectedLeaves([t], op), Nodes(t))
    ensures forall r :: r in CollectedNodes([t], op) ==> r in Nodes(t)
  {
    CollectedMembers(t, op);
    forall s | s in CollectedLeaves([t], op)
      ensures Nodes(s) <= Nodes(t) && Below(s) <= Nodes(t) && s.n in Nodes(t) && Linked(s)
    {
      FrontierMember(t, op, s);
      SubsLinked(t, s);
      SubsNodes(t, s);
      Footprint(s);
    }
    forall r | r in CollectedNodes([t], op)
      ensures r in Nodes(t)
    {
      GroupMember(t, op, r);
    }
  }

  lemma UsedNothing(h: Merges)
    requires Used(h) == multiset{}
    ensures h.NoMerge?
  {
  }

  // The history h regroups the operands of the group of op at the top of t with its own nodes into t'.
  ghost predicate Regroups(h: Merges, t: Tree, t': Tree, op: Opcode) {
    Reached(h, CollectedLeaves([t], op), [t'], op) && Used(h) == multiset(CollectedNodes([t], op)) && t'.n == t.n
  }

  // Rebuilding a group keeps the tree up to order and bracketing inside the group.
  lemma RebuiltFlat(t: Tree, op: Opcode, h: Merges, t': Tree)
    requires Regroups(h, t, t', op)
    ensures Flatten(t') == Flatten(t)
    ensures !InGroup(t, op) ==> t' == t
  {
    var f := CollectedLeaves([t], op);
    Collected(t, op);
    if InGroup(t, op) {
      MergesKeep(h, f, [t'], op);
      UnionByCons(FlatKidsOf(op), t', []);
      UnionByCons(GroupNodesOf(op), t', []);
      UnionByPerm(FlatKidsOf(op), f, Frontier(t, op));
      UnionByPerm(GroupNodesOf(op), f, Frontier(t, op));
      FrontierKids(t, op);
      FrontierGroupNodes(t, op);
      assert GroupNodes(t', op) == GroupNodes(t, op);
      assert t.n in GroupNodes(t, op);
    } else {
      UsedNothing(h);
      assert [t'][0] in multiset([t']);
    }
  }

  lemma {:induction false} MergesAddToForest(h: Merges, f0: seq<Tree>, p: seq<Tree>, op: Opcode)
    requires Reached(h, f0, p, op)
    ensures ForestNodes(p) == ForestNodes(f0) + Used(h)
  {
    match h
    case NoMerge =>
      UnionByPerm(NodesMOf(), p, f0);
    case Merge(earlier, q, n) =>
      MergesAddToForest(earlier, f0, q, op);
      UnionByPerm(NodesMOf(), p, Merged(q, n));
      MergedForestNodes(q, n);
  }

  lemma {:induction false} MergesArithmetic(h: Merges, f0: seq<Tree>, p: seq<Tree>, op: Opcode)
    requires Reached(h, f0, p, op) && (forall s :: s in f0 ==> Arithmetic(s))
    requires forall n :: n in Used(h) ==> !n.phi && IsCommutative(n.op)
    ensures forall s :: s in p ==> Arithmetic(s)
  {
    match h
    case NoMerge =>
      PermElements(f0, p);
    case Merge(earlier, q, n) =>
      MergesArithmetic(earlier, f0, q, op);
      PermElements(Merged(q, n), p);
      assert n in Used(h) && forall s :: s in q[2..] ==> s in q;
  }

  lemma RebuiltNodes(t: Tree, op: Opcode, h: Merges, t': Tree)
    requires Regroups(h, t, t', op)
    ensures NodesM(t') == NodesM(t)
  {
    var f := CollectedLeaves([t], op);
    CollectedNodesM(t, op);
    MergesAddToForest(h, f, [t'], op);
    UnionByCons(NodesMOf(), t', []);
  }

  lemma RebuiltArithmetic(t: Tree, op: Opcode, h: Merges, t': Tree)
    requires Regroups(h, t, t', op) && Arithmetic(t) && IsCommutative(op)
    ensures Arithmetic(t')
  {
    CollectedArithmetic(t, op);
    MergesArithmetic(h, CollectedLeaves([t], op), [t'], op);
    assert [t'][0] in [t'];
  }

  lemma FlatParts(l: Tree, l': Tree, op: Opcode)
    requires Flatten(l) == Flatten(l')
    ensures FlatKids(l, op) == FlatKids(l', op) && GroupNodes(l, op) == GroupNodes(l', op)
  {
  }

  lemma FlatInner(n: Node, l: Tree, r: Tree, l': Tree, r': Tree)
    requires Flatten(l) == Flatten(l') && Flatten(r) == Flatten(r')
    ensures Flatten(Inner(n, l, r)) == Flatten(Inner(n, l', r'))
  {
    FlatParts(l, l', n.op);
    FlatParts(r, r', n.op);
  }

  lemma ProperInner(t: Tree, l: Tree, r: Tree)
    requires Proper(t) && t.Inner? && Proper(l) && Proper(r)
    requires NodesM(l) == NodesM(t.l) && NodesM(r) == NodesM(t.r)
    ensures Proper(Inner(t.n, l, r)) && NodesM(Inner(t.n, l, r)) == NodesM(t)
  {
  }

  // What the reduction keeps of t in its result t'.
  ghost predicate Reduced(t: Tree, t': Tree) {
    t'.n == t.n && Proper(t') && NodesM(t') == NodesM(t) && Flatten(t') == Flatten(t)
  }

  lemma ReducedInner(t: Tree, l: Tree, r: Tree)
    requires Proper(t) && t.Inner? && Reduced(t.l, l) && Reduced(t.r, r)
    ensures Reduced(t, Inner(t.n, l, r))
  {
    ProperInner(t, l, r);
    FlatInner(t.n, t.l, t.r, l, r);
  }

  // Rebuilding a group is a reduction, and nothing happens to a node that is its own only leaf.
  lemma RegroupsReduced(t: Tree, op: Opcode, h: Merges, t': Tree)
    requires Regroups(h, t, t', op) && Proper(t) && IsCommutative(op)
    ensures Reduced(t, t')
    ensures !InGroup(t, op) ==> t' == t
  {
    RebuiltNodes(t, op, h, t');
    RebuiltArithmetic(t, op, h, t');
    RebuiltFlat(t, op, h, t');
  }

  // Below the root of a group each part that continues the group is as fast as any tree over its leaves.
  ghost predicate OptimisedTop(t: Tree, k: Costs)
    decreases t, 0
  {
    t.Inner? ==> OptimisedChild(t.l, t.n.op, k) && OptimisedChild(t.r, t.n.op, k)
  }

  // t hangs below a node of operator op, or is the root and op its own.
  ghost predicate OptimisedChild(t: Tree, op: Opcode, k: Costs)
    decreases t, 2
  {
    (InGroup(t, op) ==> Best(t, op, k)) && OptimisedIn(t, op, k)
  }

  // ... and so are the groups below.
  ghost predicate OptimisedIn(t: Tree, op: Opcode, k: Costs)
    decreases t, 1
  {
    if InGroup(t, op) then OptimisedIn(t.l, op, k) && OptimisedIn(t.r, op, k) else OptimisedTop(t, k)
  }

  lemma {:induction false} FrontierOptimised(t: Tree, op: Opcode, k: Costs, s: Tree)
    requires OptimisedIn(t, op, k) && s in Frontier(t, op)
    ensures OptimisedTop(s, k)
  {
    if InGroup(t, op) {
      if s in Frontier(t.l, op) { FrontierOptimised(t.l, op, k, s); } else { FrontierOptimised(t.r, op, k, s); }
    }
  }

  lemma {:induction false} AllOptimised(t: Tree, op: Opcode, k: Costs)
    requires forall s :: s in Frontier(t, op) ==> OptimisedTop(s, k)
    ensures OptimisedIn(t, op, k)
  {
    if InGroup(t, op) {
      AllOptimised(t.l, op, k);
      AllOptimised(t.r, op, k);
    } else {
      assert t in Frontier(t, op);
    }
  }

  lemma {:induction false} FrontierIsOwn(f: seq<Tree>, op: Opcode)
    requires forall s :: s in f ==> !InGroup(s, op)
    ensures UnionBy(FrontierOf(op), f) == multiset(f)
  {
    if f != [] {
      FrontierIsOwn(f[1..], op);
      assert f == [f[0]] + f[1..];
      assert f[0] in f && Frontier(f[0], op) == [f[0]];
    }
  }

  // A rebuilt group has the same leaves.
  lemma RebuiltFrontier(t: Tree, op: Opcode, h: Merges, t': Tree)
    requires Regroups(h, t, t', op)
    ensures multiset(Frontier(t', op)) == multiset(Frontier(t, op))
  {
    var f := CollectedLeaves([t], op);
    Collected(t, op);
    CollectedMembers(t, op);
    forall s | s in f ensures !InGroup(s, op) {
      FrontierMember(t, op, s);
    }
    FrontierIsOwn(f, op);
    MergesKeepFrontier(h, f, [t'], op);
    UnionByCons(FrontierOf(op), t', []);
  }

  lemma OptimisedPerm(t: Tree, t': Tree, op: Opcode, k: Costs)
    requires OptimisedIn(t, op, k) && multiset(Frontier(t', op)) == multiset(Frontier(t, op))
    ensures OptimisedIn(t', op, k)
  {
    PermElements(Frontier(t, op), Frontier(t', op));
    forall s | s in Frontier(t', op) ensures OptimisedTop(s, k) {
      FrontierOptimised(t, op, k, s);
    }
    AllOptimised(t', op, k);
  }

  lemma RebuiltBest(t: Tree, op: Opcode, h: Merges, t': Tree, k: Costs)
    requires Regroups(h, t, t', op)
    requires GreedyOn(h, k, {}) && multiset(Frontier(t', op)) == multiset(Frontier(t, op))
    ensures Best(t', op, k)
  {
    var f := CollectedLeaves([t], op);
    Collected(t, op);
    MapPerm(LatOf(k), Frontier(t', op), f);
    forall s: Shape | multiset(Tips(s)) == multiset(Lats(Frontier(t', op), k))
      ensures Lat(t', k) <= Height(s, InstructionLatency(op, k))
    {
      GreedyIsOptimal(h, f, t', op, k, s);
    }
  }

  lemma OptimisedLeaf(t: Tree, op: Opcode, k: Costs)
    requires !InGroup(t, op) && OptimisedTop(t, k)
    ensures OptimisedIn(t, op, k) && OptimisedChild(t, op, k)
  {
  }
}
