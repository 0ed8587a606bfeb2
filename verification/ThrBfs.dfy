// getNodesAndLeavesByBFS: the breadth-first traversal of a linked tree.
module ThrBfs {
  import opened Collections
  import opened ThrTree

  ghost function SubsOf(): Tree -> multiset<Tree> {
    t => Subs(t)
  }

  ghost function NodesMOf(): Tree -> multiset<Node> {
    t => NodesM(t)
  }

  ghost function SizeOf(): Tree -> nat {
    t => Size(t)
  }

  ghost function TopOf(): Tree -> Node {
    (t: Tree) => t.n
  }

  ghost function Tops(q: seq<Tree>): seq<Node> {
    Map(TopOf(), q)
  }

  ghost function Kids(t: Tree): seq<Tree> {
    match t
    case Leaf(_) => []
    case Inner(_, l, r) => [l, r]
  }

  ghost function KidNodes(t: Tree): seq<Node> {
    match t
    case Leaf(_) => []
    case Inner(_, l, r) => [l.n, r.n]
  }

  lemma UnionKids<X>(f: Tree -> multiset<X>, t: Tree, q: seq<Tree>)
    ensures UnionBy(f, q + Kids(t))
         == UnionBy(f, q) + (if t.Inner? then f(t.l) + f(t.r) else multiset{})
  {
    UnionByAppend(f, q, Kids(t));
    if t.Inner? {
      UnionByCons(f, t.l, [t.r]);
      UnionByCons(f, t.r, []);
      assert [t.l, t.r] == [t.l] + [t.r];
    }
  }

  lemma KidsSize(t: Tree, q: seq<Tree>)
    ensures SumBy(SizeOf(), q + Kids(t)) + 1 == SumBy(SizeOf(), [t] + q)
  {
    SumByAppend(SizeOf(), q, Kids(t));
    SumByCons(SizeOf(), t, q);
    if t.Inner? {
      SumByCons(SizeOf(), t.l, [t.r]);
      SumByCons(SizeOf(), t.r, []);
      assert [t.l, t.r] == [t.l] + [t.r];
    }
  }

  // What the worklist still visits when q is waiting: every tree of q, and then their children.
  ghost function Bfs(q: seq<Tree>): seq<Tree>
    decreases SumBy(SizeOf(), q)
  {
    if q == [] then [] else
      KidsSize(q[0], q[1..]); assert q == [q[0]] + q[1..];
      [q[0]] + Bfs(q[1..] + Kids(q[0]))
  }

  lemma BfsStep(t: Tree, q: seq<Tree>)
    ensures Bfs([t] + q) == [t] + Bfs(q + Kids(t))
  {
    assert ([t] + q)[1..] == q;
  }

  // The traversal visits every subtree once.
  lemma {:induction false} BfsSubs(q: seq<Tree>)
    ensures multiset(Bfs(q)) == UnionBy(SubsOf(), q)
    decreases SumBy(SizeOf(), q)
  {
    if q != [] {
      KidsSize(q[0], q[1..]);
      assert q == [q[0]] + q[1..];
      BfsSubs(q[1..] + Kids(q[0]));
      UnionKids(SubsOf(), q[0], q[1..]);
      calc {
        multiset(Bfs(q));
        multiset{q[0]} + multiset(Bfs(q[1..] + Kids(q[0])));
        multiset{q[0]} + (if q[0].Inner? then Subs(q[0].l) + Subs(q[0].r) else multiset{}) + UnionBy(SubsOf(), q[1..]);
        Subs(q[0]) + UnionBy(SubsOf(), q[1..]);
      }
    }
  }

  lemma {:induction false} BfsNodes(q: seq<Tree>)
    ensures multiset(Tops(Bfs(q))) == UnionBy(NodesMOf(), q)
    decreases SumBy(SizeOf(), q)
  {
    if q != [] {
      KidsSize(q[0], q[1..]);
      assert q == [q[0]] + q[1..];
      var rest := Bfs(q[1..] + Kids(q[0]));
      BfsNodes(q[1..] + Kids(q[0]));
      UnionKids(NodesMOf(), q[0], q[1..]);
      assert Tops([q[0]] + rest) == [q[0].n] + Tops(rest);
      calc {
        multiset(Tops(Bfs(q)));
        multiset{q[0].n} + multiset(Tops(rest));
        multiset{q[0].n} + (if q[0].Inner? then NodesM(q[0].l) + NodesM(q[0].r) else multiset{})
          + UnionBy(NodesMOf(), q[1..]);
        NodesM(q[0]) + UnionBy(NodesMOf(), q[1..]);
      }
    }
  }

  lemma BfsContainsQueue(q: seq<Tree>, i: nat)
    requires i < |q|
    ensures q[i] in Bfs(q)
  {
    BfsSubs(q);
    InUnion(SubsOf(), q, i, q[i]);
    assert q[i] in multiset(Bfs(q));
  }

  // Children come after their parent.
  lemma {:induction false} BfsChildrenLater(q: seq<Tree>, i: nat)
    requires i < |Bfs(q)| && Bfs(q)[i].Inner?
    ensures Bfs(q)[i].l in Bfs(q)[i + 1..] && Bfs(q)[i].r in Bfs(q)[i + 1..]
    decreases SumBy(SizeOf(), q)
  {
    KidsSize(q[0], q[1..]);
    assert q == [q[0]] + q[1..];
    var rest := q[1..] + Kids(q[0]);
    if i == 0 {
      BfsContainsQueue(rest, |q| - 1);
      BfsContainsQueue(rest, |q|);
      assert Bfs(q)[1..] == Bfs(rest);
    } else {
      BfsChildrenLater(rest, i - 1);
      assert Bfs(q)[i + 1..] == Bfs(rest)[i..];
    }
  }

  lemma BfsDistinct(t: Tree, i: nat, j: nat)
    requires Proper(t) && i < j < |Bfs([t])|
    ensures Bfs([t])[i].n != Bfs([t])[j].n
  {
    BfsNodes([t]);
    assert UnionBy(NodesMOf(), [t]) == NodesM(t);
    NoDupIndex(Tops(Bfs([t])), i, j);
  }

  lemma {:induction false} SubsLinked(t: Tree, s: Tree)
    requires Linked(t) && s in Subs(t)
    ensures Linked(s)
  {
    if s != t {
      if s in Subs(t.l) { SubsLinked(t.l, s); } else { SubsLinked(t.r, s); }
    }
  }

  lemma {:induction false} SubsNodes(t: Tree, s: Tree)
    requires s in Subs(t)
    ensures Nodes(s) <= Nodes(t)
  {
    if s != t {
      if s in Subs(t.l) { SubsNodes(t.l, s); } else { SubsNodes(t.r, s); }
    }
  }

  lemma BfsIsSubs(t: Tree)
    ensures multiset(Bfs([t])) == Subs(t)
    ensures forall s :: s in Bfs([t]) <==> s in Subs(t)
  {
    BfsSubs([t]);
    assert UnionBy(SubsOf(), [t]) == Subs(t);
    assert forall s :: s in Bfs([t]) <==> s in multiset(Bfs([t]));
  }

  lemma WorklistStep(t: Tree, done: seq<Tree>, queue: seq<Tree>)
    requires queue != [] && Bfs([t]) == done + Bfs(queue)
    ensures Bfs([t]) == (done + [queue[0]]) + Bfs(queue[1..] + Kids(queue[0]))
    ensures Tops((done + [queue[0]]) + (queue[1..] + Kids(queue[0]))) == Tops(done + queue) + KidNodes(queue[0])
    ensures SumBy(SizeOf(), queue[1..] + Kids(queue[0])) < SumBy(SizeOf(), queue)
  {
    var s, rest := queue[0], queue[1..];
    assert queue == [s] + rest;
    KidsSize(s, rest);
    BfsStep(s, rest);
    Shift(done, s, Bfs(rest + Kids(s)));
    TopsStep(done, s, rest);
  }

  lemma TopsStep(done: seq<Tree>, s: Tree, rest: seq<Tree>)
    ensures Tops((done + [s]) + (rest + Kids(s))) == Tops(done + ([s] + rest)) + KidNodes(s)
  {
    var all := done + ([s] + rest);
    MapAppend(TopOf(), all, Kids(s));
    ShiftAppend(done, s, rest, Kids(s));
    assert Tops(Kids(s)) == KidNodes(s);
  }

  lemma NextIsSub(t: Tree, done: seq<Tree>, queue: seq<Tree>)
    requires queue != [] && Bfs([t]) == done + Bfs(queue) && Linked(t)
    ensures TopLinked(queue[0])
  {
    assert Bfs(queue)[0] == queue[0];
    assert Bfs([t])[|done|] == queue[0];
    BfsIsSubs(t);
    SubsLinked(t, queue[0]);
  }

  // The worklist of getNodesAndLeavesByBFS.
  method GetNodesAndLeavesByBFS(n: Node, ghost t: Tree) returns (nodes: seq<Node>)
    requires t.n == n && Linked(t)
    ensures nodes == Tops(Bfs([t])) && Linked(t)
  {
    Footprint(t);
    nodes := [n];
    var i := 0;
    ghost var queue := [t];
    ghost var done: seq<Tree> := [];
    while i < |nodes|
      invariant i <= |nodes| && i == |done|
      invariant nodes == Tops(done + queue)
      invariant Bfs([t]) == done + Bfs(queue)
      invariant Linked(t)
      decreases SumBy(SizeOf(), queue)
    {
      var cur := nodes[i];
      ghost var s := queue[0];
      assert cur == s.n;
      WorklistStep(t, done, queue);
      NextIsSub(t, done, queue);
      assert cur.Children() == KidNodes(s);
      nodes := nodes + cur.Children();
      done, queue := done + [s], queue[1..] + Kids(s);
      i := i + 1;
    }
    assert queue == [];
  }
}
