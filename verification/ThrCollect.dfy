// collectLeavesAndReusedNodes: the leaves and the nodes of the group at the top of a tree.
module ThrCollect {
  import opened Collections
  import opened ThrTree
  import opened ThrBfs
  import opened ThrGroups

  ghost function GroupKids(t: Tree, op: Opcode): seq<Tree> {
    if InGroup(t, op) then [t.l, t.r] else []
  }

  ghost function Group(t: Tree, op: Opcode): seq<Node> {
    if InGroup(t, op) then [t.n] else []
  }

  // What a visited tree adds to the leaves and to the reused nodes.
  ghost function LeafPart(t: Tree, op: Opcode): seq<Tree> {
    if InGroup(t, op) then [] else [t]
  }

  lemma GroupKidsUnion<X>(u: Tree -> multiset<X>, t: Tree, q: seq<Tree>, op: Opcode)
    ensures UnionBy(u, q + GroupKids(t, op))
         == UnionBy(u, q) + (if InGroup(t, op) then u(t.l) + u(t.r) else multiset{})
  {
    UnionByAppend(u, q, GroupKids(t, op));
    if InGroup(t, op) {
      UnionByTwo(u, [t.l, t.r]);
      assert [t.l, t.r][2..] == [];
    }
  }

  lemma FrontierStep(t: Tree, q: seq<Tree>, op: Opcode)
    ensures UnionBy(FrontierOf(op), q + GroupKids(t, op)) + multiset(LeafPart(t, op))
         == UnionBy(FrontierOf(op), [t] + q)
  {
    UnionByCons(FrontierOf(op), t, q);
    GroupKidsUnion(FrontierOf(op), t, q, op);
  }

  lemma GroupNodesStep(t: Tree, q: seq<Tree>, op: Opcode)
    ensures UnionBy(GroupNodesOf(op), q + GroupKids(t, op)) + multiset(Group(t, op))
         == UnionBy(GroupNodesOf(op), [t] + q)
  {
    UnionByCons(GroupNodesOf(op), t, q);
    GroupKidsUnion(GroupNodesOf(op), t, q, op);
  }

  lemma {:induction false} FrontierUnion<X>(u: Tree -> multiset<X>, t: Tree, op: Opcode)
    requires InGroup(t, op)
    ensures UnionBy(u, Frontier(t, op)) == UnionBy(u, Frontier(t.l, op)) + UnionBy(u, Frontier(t.r, op))
  {
    UnionByAppend(u, Frontier(t.l, op), Frontier(t.r, op));
  }

  lemma {:induction false} FrontierKids(t: Tree, op: Opcode)
    ensures UnionBy(FlatKidsOf(op), Frontier(t, op)) == FlatKids(t, op)
  {
    if InGroup(t, op) {
      FrontierKids(t.l, op);
      FrontierKids(t.r, op);
      FrontierUnion(FlatKidsOf(op), t, op);
    } else {
      UnionByCons(FlatKidsOf(op), t, []);
    }
  }

  lemma {:induction false} FrontierGroupNodes(t: Tree, op: Opcode)
    ensures UnionBy(GroupNodesOf(op), Frontier(t, op)) == multiset{}
  {
    if InGroup(t, op) {
      FrontierGroupNodes(t.l, op);
      FrontierGroupNodes(t.r, op);
      FrontierUnion(GroupNodesOf(op), t, op);
    } else {
      UnionByCons(GroupNodesOf(op), t, []);
    }
  }

  lemma {:induction false} FrontierNodes(t: Tree, op: Opcode)
    ensures UnionBy(NodesMOf(), Frontier(t, op)) + GroupNodes(t, op) == NodesM(t)
  {
    if InGroup(t, op) {
      FrontierNodes(t.l, op);
      FrontierNodes(t.r, op);
      FrontierUnion(NodesMOf(), t, op);
    } else {
      UnionByCons(NodesMOf(), t, []);
    }
  }

  lemma GroupShrinks(q: seq<Tree>, op: Opcode)
    requires q != []
    ensures SumBy(SizeOf(), q[1..] + GroupKids(q[0], op)) < SumBy(SizeOf(), q)
  {
    var s, rest := q[0], q[1..];
    SumByAppend(SizeOf(), rest, GroupKids(s, op));
    if InGroup(s, op) {
      SumByTwo(SizeOf(), [s.l, s.r]);
      assert [s.l, s.r][2..] == [];
    }
  }

  // The leaves and the nodes that the conditional traversal still collects when q is waiting.
  ghost function CollectedLeaves(q: seq<Tree>, op: Opcode): seq<Tree>
    decreases SumBy(SizeOf(), q)
  {
    if q == [] then [] else
      GroupShrinks(q, op);
      LeafPart(q[0], op) + CollectedLeaves(q[1..] + GroupKids(q[0], op), op)
  }

  ghost function CollectedNodes(q: seq<Tree>, op: Opcode): seq<Node>
    decreases SumBy(SizeOf(), q)
  {
    if q == [] then [] else
      GroupShrinks(q, op);
      Group(q[0], op) + CollectedNodes(q[1..] + GroupKids(q[0], op), op)
  }

  lemma {:induction false} CollectsFrontier(q: seq<Tree>, op: Opcode)
    ensures multiset(CollectedLeaves(q, op)) == UnionBy(FrontierOf(op), q)
    decreases SumBy(SizeOf(), q)
  {
    if q != [] {
      GroupShrinks(q, op);
      assert q == [q[0]] + q[1..];
      CollectsFrontier(q[1..] + GroupKids(q[0], op), op);
      FrontierStep(q[0], q[1..], op);
    }
  }

  lemma {:induction false} CollectsGroup(q: seq<Tree>, op: Opcode)
    ensures multiset(CollectedNodes(q, op)) == UnionBy(GroupNodesOf(op), q)
    decreases SumBy(SizeOf(), q)
  {
    if q != [] {
      GroupShrinks(q, op);
      assert q == [q[0]] + q[1..];
      CollectsGroup(q[1..] + GroupKids(q[0], op), op);
      GroupNodesStep(q[0], q[1..], op);
    }
  }

  // One leaf more than there are nodes: the count that the merge loop lives on.
  lemma {:induction false} CollectsOneMore(q: seq<Tree>, op: Opcode)
    ensures |CollectedLeaves(q, op)| == |CollectedNodes(q, op)| + |q|
    decreases SumBy(SizeOf(), q)
  {
    if q != [] {
      GroupShrinks(q, op);
      CollectsOneMore(q[1..] + GroupKids(q[0], op), op);
    }
  }

  // What the two vectors are: the frontier and the nodes of the group, the top node first.
  lemma Collected(t: Tree, op: Opcode)
    ensures var f, reused := CollectedLeaves([t], op), CollectedNodes([t], op);
      multiset(f) == multiset(Frontier(t, op)) && multiset(reused) == GroupNodes(t, op) && |f| == |reused| + 1 &&
      (if InGroup(t, op) then reused != [] && reused[0] == t.n else f == [t] && reused == [])
  {
    CollectsFrontier([t], op);
    CollectsGroup([t], op);
    CollectsOneMore([t], op);
    UnionByCons(FrontierOf(op), t, []);
    UnionByCons(GroupNodesOf(op), t, []);
    if !InGroup(t, op) {
      assert [t][1..] + GroupKids(t, op) == [];
    }
  }

  // A waiting subtree hangs below a node of the group, or is the whole tree.
  ghost predicate Waiting(op: Opcode, s: Tree)
    reads Nodes(s), s.n
  {
    Linked(s) && Arithmetic(s) && (s.n.IsConsideredAsLeaf() <==> !InGroup(s, op))
  }

  ghost function GroupKidNodes(t: Tree, op: Opcode): seq<Node> {
    if InGroup(t, op) then [t.l.n, t.r.n] else []
  }

  ghost function LeafNodes(t: Tree, op: Opcode): seq<Node> {
    if InGroup(t, op) then [] else [t.n]
  }

  lemma LinkedTop(t: Tree)
    requires Linked(t)
    ensures TopLinked(t)
  {
  }

  lemma ChildWaits(op: Opcode, s: Tree, x: Tree)
    requires Waiting(op, s) && InGroup(s, op) && (x == s.l || x == s.r)
    ensures Waiting(op, x)
  {
    LinkedTop(x);
  }

  lemma WaitingKids(op: Opcode, s: Tree)
    requires Waiting(op, s)
    ensures forall x :: x in GroupKids(s, op) ==> Waiting(op, x)
    ensures if InGroup(s, op) then s.n.Children() == GroupKidNodes(s, op) else GroupKidNodes(s, op) == []
  {
    if InGroup(s, op) {
      ChildWaits(op, s, s.l);
      ChildWaits(op, s, s.r);
    }
  }

  // The subtrees that the conditional traversal reaches.
  ghost function GroupSubs(t: Tree, op: Opcode): multiset<Tree> {
    match t
    case Leaf(_) => multiset{t}
    case Inner(n, l, r) =>
      if n.op == op then multiset{t} + (GroupSubs(l, op) + GroupSubs(r, op)) else multiset{t}
  }

  lemma {:induction false} GroupSubsWait(op: Opcode, t: Tree, s: Tree)
    requires Waiting(op, t) && s in GroupSubs(t, op)
    ensures Waiting(op, s)
    ensures InGroup(s, op) ==> s.l in GroupSubs(t, op) && s.r in GroupSubs(t, op)
    ensures InGroup(s, op) ==> s.n.Children() == GroupKidNodes(s, op)
  {
    if s == t {
      WaitingKids(op, s);
      if InGroup(t, op) {
        assert t.l in GroupSubs(t.l, op) && t.r in GroupSubs(t.r, op);
      }
    } else if s in GroupSubs(t.l, op) {
      ChildWaits(op, t, t.l);
      GroupSubsWait(op, t.l, s);
    } else {
      ChildWaits(op, t, t.r);
      GroupSubsWait(op, t.r, s);
    }
  }

  // The worklist after its first tree has been visited.
  ghost function NextPending(pending: seq<Tree>, op: Opcode): seq<Tree>
    requires pending != []
  {
    pending[1..] + GroupKids(pending[0], op)
  }

  lemma WaitingStep(op: Opcode, t: Tree, pending: seq<Tree>)
    requires pending != [] && Waiting(op, t) && forall s :: s in pending ==> s in GroupSubs(t, op)
    ensures var s := pending[0];
      (s.n.IsConsideredAsLeaf() <==> !InGroup(s, op)) &&
      (InGroup(s, op) ==> s.n.Children() == GroupKidNodes(s, op))
    ensures forall s :: s in NextPending(pending, op) ==> s in GroupSubs(t, op)
  {
    assert pending[0] in pending;
    GroupSubsWait(op, t, pending[0]);
  }

  lemma CollectStep(op: Opcode, done: seq<Tree>, pending: seq<Tree>)
    requires pending != []
    ensures Tops((done + [pending[0]]) + NextPending(pending, op))
        == Tops(done + pending) + GroupKidNodes(pending[0], op)
    ensures Tops(CollectedLeaves(pending, op))
         == LeafNodes(pending[0], op) + Tops(CollectedLeaves(NextPending(pending, op), op))
    ensures SumBy(SizeOf(), NextPending(pending, op)) < SumBy(SizeOf(), pending)
  {
    var s, rest := pending[0], pending[1..];
    GroupShrinks(pending, op);
    assert pending == [s] + rest;
    MapAppend(TopOf(), done + ([s] + rest), GroupKids(s, op));
    ShiftAppend(done, s, rest, GroupKids(s, op));
    assert Tops(GroupKids(s, op)) == GroupKidNodes(s, op);
    MapAppend(TopOf(), LeafPart(s, op), CollectedLeaves(NextPending(pending, op), op));
    assert Tops(LeafPart(s, op)) == LeafNodes(s, op);
  }

  // What the worklist has collected and what it still waits for.
  ghost predicate Collecting(op: Opcode, t: Tree, leaves: seq<Node>, reused: seq<Node>, worklist: seq<Node>,
                             done: seq<Tree>, pending: seq<Tree>) {
    worklist == Tops(done + pending) && (forall s :: s in pending ==> s in GroupSubs(t, op)) &&
    leaves + Tops(CollectedLeaves(pending, op)) == Tops(CollectedLeaves([t], op)) &&
    reused + CollectedNodes(pending, op) == CollectedNodes([t], op)
  }

  lemma CollectingStep(op: Opcode, t: Tree, leaves: seq<Node>, reused: seq<Node>, worklist: seq<Node>,
                       done: seq<Tree>, pending: seq<Tree>)
    requires Collecting(op, t, leaves, reused, worklist, done, pending) && pending != [] && Waiting(op, t)
    ensures var s := pending[0];
      |done| < |worklist| && worklist[|done|] == s.n &&
      Collecting(op, t, leaves + LeafNodes(s, op), reused + Group(s, op), worklist + GroupKidNodes(s, op),
                 done + [s], NextPending(pending, op)) &&
      (s.n.IsConsideredAsLeaf() <==> !InGroup(s, op)) && (InGroup(s, op) ==> s.n.Children() == GroupKidNodes(s, op)) &&
      SumBy(SizeOf(), NextPending(pending, op)) < SumBy(SizeOf(), pending)
  {
    WaitingStep(op, t, pending);
    CollectStep(op, done, pending);
    var s, next := pending[0], NextPending(pending, op);
    Assoc(leaves, LeafNodes(s, op), Tops(CollectedLeaves(next, op)));
    Assoc(reused, Group(s, op), CollectedNodes(next, op));
  }

  // A tree that is considered as a leaf is its own and only leaf.
  method CollectLeavesAndReusedNodes(n: Node, ghost t: Tree, ghost op: Opcode)
    returns (leaves: seq<Node>, reused: seq<Node>)
    requires t.n == n && Waiting(op, t)
    ensures leaves == Tops(CollectedLeaves([t], op)) && reused == CollectedNodes([t], op)
  {
    var worklist: seq<Node> := [n];
    leaves, reused := [], [];
    Footprint(t);
    ghost var done, pending: seq<Tree> := [], [t];
    var i := 0;
    while i < |worklist|
      invariant i == |done| && Collecting(op, t, leaves, reused, worklist, done, pending)
      decreases SumBy(SizeOf(), pending)
    {
      CollectingStep(op, t, leaves, reused, worklist, done, pending);
      ghost var s, next := pending[0], NextPending(pending, op);
      var cur := worklist[i];
      if cur.IsConsideredAsLeaf() {
        leaves := leaves + [cur];
        assert worklist + [] == worklist && reused + [] == reused;
      } else {
        assert leaves + [] == leaves;
        reused := reused + [cur];
        worklist := worklist + cur.Children();
      }
      done, pending := done + [s], next;
      i := i + 1;
    }
  }
}
