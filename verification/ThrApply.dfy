// applyTreeHeightReduction: the post-order rewriting of a whole operation tree.
module ThrApply {
  import opened ThrTree
  import opened ThrBfs
  import opened ThrLatency
  import opened ThrGroups
  import opened ThrForest
  import opened ThrMerge
  import opened ThrCollect
  import opened ThrReduce
  import opened ThrRebuilt
  import opened ThrSpeed

  // What a node on its own has stored, when the leaves in stale have not been updated yet.
  ghost predicate NodeStored(t: Tree, k: Costs, stale: set<Node>)
    reads t.n`latency, t.n`totalCost
  {
    t.n.latency == StoredLat(t, k, stale) && t.n.totalCost == StoredCost(t, k, stale)
  }

  ghost predicate LeavesStored(t: Tree, k: Costs, stale: set<Node>)
    reads Nodes(t)`latency, Nodes(t)`totalCost
  {
    match t
    case Leaf(_) => NodeStored(t, k, stale)
    case Inner(_, l, r) => LeavesStored(l, k, stale) && LeavesStored(r, k, stale)
  }

  // A reduced subtree is current; a leaf is left as it was.
  ghost predicate Settled(t: Tree, k: Costs, stale: set<Node>)
    reads Nodes(t)`latency, Nodes(t)`totalCost
  {
    if t.Inner? then Current(t, k) else NodeStored(t, k, stale)
  }

  // n is the child of its parent on the given side, and the parent lies outside the tree of n.
  ghost predicate Attached(n: Node, isLeft: bool, t: Tree)
    reads n, n.parent
  {
    n.parent != null ==>
      n.parent !in Nodes(t) && (if isLeft then n.parent.left == n else n.parent.right == n)
  }

  function Parents(n: Node): set<Node>
    reads n`parent
  {
    if n.parent == null then {} else {n.parent}
  }

  ghost predicate StoredTop(t: Tree, k: Costs)
    reads Nodes(t)`latency, Nodes(t)`totalCost
  {
    t.Inner? ==> Current(t, k)
  }

  lemma SameNodes(t: Tree, t': Tree)
    requires NodesM(t') == NodesM(t)
    ensures Nodes(t') == Nodes(t)
  {
    NodesWithin(t, t');
    NodesWithin(t', t);
  }

  lemma NodesWithin(t: Tree, t': Tree)
    requires NodesM(t) == NodesM(t')
    ensures Nodes(t) <= Nodes(t')
  {
    forall x | x in Nodes(t)
      ensures x in Nodes(t')
    {
      NodesAreCounted(t, x);
      NodesAreCounted(t', x);
    }
  }

  lemma ChildFacts(t: Tree)
    requires t.Inner? && Proper(t)
    ensures Proper(t.l) && Proper(t.r) && t.n !in Nodes(t.l) && t.n !in Nodes(t.r)
    ensures forall x :: x in Nodes(t.l) ==> x !in Nodes(t.r)
    ensures Nodes(t) == {t.n} + Nodes(t.l) + Nodes(t.r)
  {
    InnerApart(t.n, t.l, t.r);
    ChildrenDistinct(t);
  }

  method ReduceLeft(n: Node, k: Costs, ghost t: Tree, ghost stale: set<Node>)
    returns (ghost l: Tree, ghost d: Reduction)
    requires t.n == n && t.Inner? && Linked(t) && Proper(t) && AllPhi(stale)
    modifies Nodes(t.l), n`left, n`right
    ensures Linked(Inner(n, l, t.r)) && Reduced(t.l, l) && StoredTop(l, k) && (t.l.Leaf? ==> l == t.l)
    ensures old(LeavesStored(t.l, k, stale)) ==> Settled(l, k, stale) && Outcome(d, t.l, l, n.op, k, stale)
    ensures old(LeavesStored(t.r, k, stale)) ==> LeavesStored(t.r, k, stale)
    ensures n.parent == old(n.parent)
    decreases t, 0
  {
    ChildFacts(t);
    Footprint(t.l);
    Footprint(t.r);
    var newNode;
    newNode, l, d := ApplyTreeHeightReduction(n.left, true, k, t.l, stale);
    assert Linked(t.r);
  }

  method ReduceRight(n: Node, k: Costs, ghost t: Tree, ghost stale: set<Node>)
    returns (ghost r: Tree, ghost d: Reduction)
    requires t.n == n && t.Inner? && Linked(t) && Proper(t) && StoredTop(t.l, k) && AllPhi(stale)
    modifies Nodes(t.r), n`left, n`right
    ensures Linked(Inner(n, t.l, r)) && Reduced(t.r, r) && StoredTop(t.l, k) && StoredTop(r, k)
    ensures t.r.Leaf? ==> r == t.r
    ensures old(LeavesStored(t.r, k, stale)) ==> Settled(r, k, stale) && Outcome(d, t.r, r, n.op, k, stale)
    ensures old(Settled(t.l, k, stale)) ==> Settled(t.l, k, stale)
    ensures n.parent == old(n.parent)
    decreases t.r, 4
  {
    ChildFacts(t);
    Footprint(t.l);
    Footprint(t.r);
    var newNode;
    newNode, r, d := ApplyTreeHeightReduction(n.right, false, k, t.r, stale);
    assert Linked(t.l);
  }

  // Reduces both children of an inner node in place, left before right.
  method ReduceChildren(n: Node, k: Costs, ghost t: Tree, ghost stale: set<Node>)
    returns (ghost m: Tree, ghost dl: Reduction, ghost dr: Reduction)
    requires t.n == n && t.Inner? && Linked(t) && Proper(t) && AllPhi(stale)
    modifies Nodes(t)
    ensures m.Inner? && Linked(m) && Reduced(t, m) && StoredTop(m.l, k) && StoredTop(m.r, k)
    ensures old(LeavesStored(t, k, stale)) ==> Settled(m.l, k, stale) && Settled(m.r, k, stale)
    ensures old(LeavesStored(t, k, stale)) ==>
      m.n == n && Outcome(dl, t.l, m.l, n.op, k, stale) && Outcome(dr, t.r, m.r, n.op, k, stale)
    ensures n.parent == old(n.parent)
    decreases t, 1
  {
    ChildFacts(t);
    ghost var l, r;
    l, dl := ReduceLeft(n, k, t, stale);
    ReducedInner(t, l, t.r);
    r, dr := ReduceRight(n, k, Inner(n, l, t.r), stale);
    ReducedInner(t, l, r);
    m := Inner(n, l, r);
  }

  // The leaves of a group are current, except for the children of its root that are stale.
  lemma FrontierStored(t: Tree, op: Opcode, k: Costs, stale: set<Node>)
    requires InGroup(t, op) && Proper(t) && Settled(t.l, k, stale) && Settled(t.r, k, stale)
    ensures TopsStored(CollectedLeaves([t], op), k, DirectStale(t, stale))
  {
    CollectedMembers(t, op);
    forall s | s in CollectedLeaves([t], op)
      ensures s.n.latency == StoredLat(s, k, DirectStale(t, stale))
      ensures s.n.totalCost == StoredCost(s, k, DirectStale(t, stale))
    {
      FrontierMember(t, op, s);
      SideStored(t, s, k, stale);
    }
  }

  lemma SideStored(t: Tree, s: Tree, k: Costs, stale: set<Node>)
    requires t.Inner? && Proper(t) && Settled(t.l, k, stale) && Settled(t.r, k, stale)
    requires s in Subs(t.l) || s in Subs(t.r)
    ensures s.n.latency == StoredLat(s, k, DirectStale(t, stale))
    ensures s.n.totalCost == StoredCost(s, k, DirectStale(t, stale))
  {
    InnerApart(t.n, t.l, t.r);
    var side := if s in Subs(t.l) then t.l else t.r;
    if side.Inner? {
      assert NodeCurrent(s, k);
      SubsNodes(side, s);
    }
  }

  // The operator whose group the vectors of n describe.
  ghost function GroupOperator(n: Node): Opcode
    reads n
  {
    if !n.IsConsideredAsLeaf() then n.op else if n.op.Add? then Mul else Add
  }

  // The operator of the group that n may continue: that of its parent, or its own.
  ghost function OperatorAbove(n: Node): Opcode
    reads n, n.parent
  {
    if n.parent == null then n.op else n.parent.op
  }

  // All that the rebuilding needs to know before the merge loop.
  lemma RebuildStart(t: Tree, op: Opcode, k: Costs, stale: set<Node>)
    requires t.Inner? && Linked(t) && Proper(t) && IsCommutative(op)
    ensures var f, reused := CollectedLeaves([t], op), CollectedNodes([t], op);
      MergeState(NoMerge, f, reused, f, reused, op) && Rooted(f, Nodes(t)) &&
      (forall r :: r in reused ==> r in Nodes(t)) &&
      (if reused == [] then f[0].n == t.n else reused[0] == t.n) &&
      (InGroup(t, op) && Settled(t.l, k, stale) && Settled(t.r, k, stale) ==> TopsStored(f, k, DirectStale(t, stale)))
  {
    Collected(t, op);
    CollectedState(t, op);
    CollectedRooted(t, op);
    if InGroup(t, op) && Settled(t.l, k, stale) && Settled(t.r, k, stale) {
      FrontierStored(t, op, k, stale);
    }
  }

  method CollectGroup(n: Node, ghost t: Tree, ghost op: Opcode, ghost k: Costs, ghost stale: set<Node>)
    returns (leaves: seq<Node>, reused: seq<Node>)
    requires t.n == n && t.Inner? && Linked(t) && Proper(t) && op == GroupOperator(n)
    ensures IsCommutative(op) && leaves == Tops(CollectedLeaves([t], op)) && reused == CollectedNodes([t], op)
    ensures MergeState(NoMerge, CollectedLeaves([t], op), reused, CollectedLeaves([t], op), reused, op)
    ensures Rooted(CollectedLeaves([t], op), Nodes(t)) && forall r :: r in reused ==> r in Nodes(t)
    ensures if reused == [] then CollectedLeaves([t], op)[0].n == n else reused[0] == n
    ensures InGroup(t, op) && Settled(t.l, k, stale) && Settled(t.r, k, stale) ==>
      TopsStored(CollectedLeaves([t], op), k, DirectStale(t, stale))
  {
    Footprint(t);
    leaves, reused := CollectLeavesAndReusedNodes(n, t, op);
    RebuildStart(t, op, k, stale);
  }

  // ... and what it knows after it.
  lemma RebuildEnd(t: Tree, op: Opcode, h: Merges, t': Tree, k: Costs, stale: set<Node>)
    requires MergeState(h, CollectedLeaves([t], op), CollectedNodes([t], op), [t'], [], op)
    requires t.Inner? && Proper(t) && t'.n == t.n
    ensures Reduced(t, t')
    ensures InGroup(t, op) && Allowed(h, k, DirectStale(t, stale)) ==> Rebuilds(h, t, t', k, stale)
    ensures !InGroup(t, op) ==> t' == t
  {
    assert Regroups(h, t, t', op);
    RegroupsReduced(t, op, h, t');
  }

  // Collecting and merging at n. When n is the root of the tree or continues the group of its parent, this is a run of
  // the merge loop on its group, on which at most phi leaves that are children of n are stale.
  method RebuildGroup(n: Node, k: Costs, ghost t: Tree, ghost stale: set<Node>)
    returns (newNode: Node, ghost t': Tree, ghost h: Merges)
    requires t.n == n && t.Inner? && Linked(t) && Proper(t) && StoredTop(t.l, k) && StoredTop(t.r, k)
    modifies Nodes(t)
    ensures newNode == n && n.parent == old(n.parent)
    ensures Linked(t') && Reduced(t, t') && Current(t', k)
    ensures old(InGroup(t, OperatorAbove(n)) && Settled(t.l, k, stale) && Settled(t.r, k, stale)) ==>
      Rebuilds(h, t, t', k, stale)
    ensures old(!InGroup(t, OperatorAbove(n))) ==> t' == t
  {
    ghost var op := GroupOperator(n);
    Footprint(t);
    Footprint(t.l);
    Footprint(t.r);
    ghost var current := InGroup(t, op) && Settled(t.l, k, stale) && Settled(t.r, k, stale);
    var leaves, reused := CollectGroup(n, t, op, k, stale);
    assert current ==> TopsStored(CollectedLeaves([t], op), k, DirectStale(t, stale));
    newNode, t', h :=
      ConstructOptimizedSubtree(leaves, reused, k, op, CollectedLeaves([t], op), Nodes(t), n, DirectStale(t, stale));
    RebuildEnd(t, op, h, t', k, stale);
  }

  method SetChild(parent: Node, child: Node, isLeft: bool)
    modifies parent`left, parent`right
    ensures if isLeft then parent.left == child && parent.right == old(parent.right)
            else parent.right == child && parent.left == old(parent.left)
  {
    if isLeft {
      parent.left := child;
    } else {
      parent.right := child;
    }
  }

  // Hangs the rebuilt node back under the parent saved before.
  method Reattach(newNode: Node, parent: Node?, isLeft: bool, ghost t: Tree)
    requires newNode == t.n && newNode.parent == parent && Attached(newNode, isLeft, t) && Linked(t) && Proper(t)
    modifies newNode`parent, Parents(newNode)`left, Parents(newNode)`right
    ensures newNode.parent == parent && Linked(t)
    ensures parent != null ==> parent.left == old(parent.left) && parent.right == old(parent.right)
  {
    Footprint(t);
    TopApart(t);
    newNode.parent := parent;
    assert Linked(t);
    if parent != null {
      SetChild(parent, newNode, isLeft);
    }
  }

  // Post-order: first the children, then the group at the top.
  method ReduceNode(n: Node, k: Costs, ghost t: Tree, ghost stale: set<Node>)
    returns (newNode: Node, ghost t': Tree, ghost d: Reduction)
    requires t.n == n && t.Inner? && Linked(t) && Proper(t) && AllPhi(stale)
    modifies Nodes(t)
    ensures newNode == n && n.parent == old(n.parent) && Nodes(t') == Nodes(t)
    ensures Linked(t') && Reduced(t, t') && Current(t', k)
    ensures old(LeavesStored(t, k, stale)) ==> Outcome(d, t, t', old(OperatorAbove(n)), k, stale)
    decreases t, 2
  {
    // isTHRTargetInst: constructTree makes inner nodes only of additions and multiplications.
    assert IsCommutative(n.op);
    ghost var m, dl, dr, h;
    m, dl, dr := ReduceChildren(n, k, t, stale);
    SameNodes(t, m);
    newNode, t', h := RebuildGroup(n, k, m, stale);
    SameNodes(t, t');
    d := AtNode(dl, m.l, dr, m.r, h);
  }

  // The whole tree: the result consists of the same nodes, properly linked, and is the same tree up to
  // order and bracketing inside the groups. How fast it is follows from its being an outcome, whichever leaves are
  // stale at the start.
  method ApplyTreeHeightReduction(n: Node, isLeft: bool, k: Costs, ghost t: Tree, ghost stale: set<Node>)
    returns (newNode: Node, ghost t': Tree, ghost d: Reduction)
    requires t.n == n && Linked(t) && Proper(t) && Attached(n, isLeft, t) && AllPhi(stale)
    modifies Nodes(t), Parents(n)`left, Parents(n)`right
    ensures newNode == n && n.parent == old(n.parent)
    ensures n.parent != null ==> n.parent.left == old(n.parent.left) && n.parent.right == old(n.parent.right)
    ensures Linked(t') && Reduced(t, t') && StoredTop(t', k) && (t.Leaf? ==> t' == t)
    ensures old(LeavesStored(t, k, stale)) ==> Settled(t', k, stale)
    ensures old(LeavesStored(t, k, stale)) ==> Outcome(d, t, t', old(OperatorAbove(n)), k, stale)
    decreases t, 3
  {
    if !n.IsNode() {
      return n, t, AtLeaf;
    }
    var parent := n.parent;
    newNode, t', d := ReduceNode(n, k, t, stale);
    Footprint(t');
    Reattach(newNode, parent, isLeft, t');
  }
}
