// updateTreeLatency: latencies and costs recomputed bottom-up, in reverse breadth-first order.
module ThrLatency {
  import opened Collections
  import opened ThrTree
  import opened ThrBfs

  // updateLeftOrRightNodeLatency
  method AddChildLatency(n: Node, child: Node)
    requires n != child
    modifies n`latency, n`totalCost
    ensures n.latency == MaxReal(old(n.latency), child.latency)
    ensures n.totalCost == old(n.totalCost) + child.totalCost
  {
    if child.latency > n.latency {
      n.latency := child.latency;
    }
    n.totalCost := n.totalCost + child.totalCost;
  }

  ghost predicate Apart(t: Tree) {
    t.Inner? ==> !t.n.phi && t.n != t.l.n && t.n != t.r.n
  }

  method UpdateNodeLatency(n: Node, k: Costs, ghost t: Tree)
    requires t.n == n && TopLinked(t) && Apart(t)
    requires t.Inner? ==> NodeCurrent(t.l, k) && NodeCurrent(t.r, k)
    modifies n`latency, n`totalCost
    ensures NodeCurrent(t, k)
  {
    if n.phi {
      n.latency, n.totalCost := 100000.0, 100000;
    } else {
      n.latency, n.totalCost := 0.0, 0;
    }
    if !n.IsNode() {
      return;
    }
    LatNonNegative(t.l, k);
    LatNonNegative(t.r, k);
    AddChildLatency(n, n.left);
    AddChildLatency(n, n.right);
    var own := InstructionLatency(n.op, k);
    n.latency := n.latency + own;
    n.totalCost := TruncToInt(n.totalCost as real + own);
  }

  lemma ChildrenDistinct(t: Tree)
    requires t.Inner? && Proper(t)
    ensures t.n != t.l.n && t.n != t.r.n && t.l.n != t.r.n
    ensures Proper(t.l) && Proper(t.r)
  {
    TopInNodesM(t.l);
    TopInNodesM(t.r);
    PartsDistinct(t.n, t.l.n, t.r.n, NodesM(t.l), NodesM(t.r));
  }

  lemma PartsDistinct(n: Node, a: Node, b: Node, ml: multiset<Node>, mr: multiset<Node>)
    requires NoDup(multiset{n} + (ml + mr)) && a in ml && b in mr
    ensures n != a && n != b && a != b && NoDup(ml) && NoDup(mr)
  {
    var m := multiset{n} + (ml + mr);
    forall x ensures m[x] == multiset{n}[x] + (ml[x] + mr[x]) && m[x] <= 1 {
    }
    assert m[n] <= 1 && m[a] <= 1 && m[b] <= 1;
  }

  lemma TopInNodesM(t: Tree)
    ensures t.n in NodesM(t)
  {
  }

  lemma {:induction false} SubsProper(t: Tree, s: Tree)
    requires Proper(t) && s in Subs(t)
    ensures Proper(s)
  {
    if s != t {
      ChildrenDistinct(t);
      if s in Subs(t.l) { SubsProper(t.l, s); } else { SubsProper(t.r, s); }
    }
  }

  // What a visited tree knows about the trees visited after it.
  lemma VisitFacts(t: Tree, bs: seq<Tree>, i: nat)
    requires Linked(t) && Proper(t) && bs == Bfs([t]) && i < |bs|
    ensures TopLinked(bs[i]) && Apart(bs[i]) && bs[i].n in Nodes(t)
    ensures bs[i].Inner? ==> bs[i].l in bs[i + 1..] && bs[i].r in bs[i + 1..]
  {
    BfsIsSubs(t);
    assert bs[i] in Subs(t);
    SubsLinked(t, bs[i]);
    SubsProper(t, bs[i]);
    if bs[i].Inner? {
      ChildrenDistinct(bs[i]);
      BfsChildrenLater([t], i);
    }
  }

  // updateTreeLatency's loop: later trees are current, so the children of the next one are.
  method UpdateInReverse(nodes: seq<Node>, k: Costs, ghost bs: seq<Tree>, ghost region: set<Node>)
    requires nodes == Tops(bs)
    requires forall i :: 0 <= i < |bs| ==> TopLinked(bs[i]) && Apart(bs[i]) && bs[i].n in region
    requires forall i :: 0 <= i < |bs| ==> bs[i].Inner? ==> bs[i].l in bs[i + 1..] && bs[i].r in bs[i + 1..]
    requires forall i, j :: 0 <= i < j < |bs| ==> bs[j].n != bs[i].n
    modifies region`latency, region`totalCost
    ensures forall j :: 0 <= j < |bs| ==> NodeCurrent(bs[j], k)
  {
    var i := |nodes|;
    while i > 0
      invariant 0 <= i <= |nodes| == |bs|
      invariant forall j :: i <= j < |bs| ==> NodeCurrent(bs[j], k)
    {
      i := i - 1;
      ghost var later := bs[i + 1..];
      assert forall s :: s in later ==> NodeCurrent(s, k) && s.n != nodes[i];
      UpdateNodeLatency(nodes[i], k, bs[i]);
      assert forall s :: s in later ==> NodeCurrent(s, k);
    }
  }

  // Whatever was stored before, afterwards every node below n holds its recursive latency and cost: the latency of
  // its longest path from a leaf.
  method UpdateTreeLatency(n: Node, k: Costs, ghost t: Tree)
    requires t.n == n && Linked(t) && Proper(t)
    modifies Nodes(t)`latency, Nodes(t)`totalCost
    ensures Current(t, k)
    ensures forall s :: s in Subs(t) ==> IsLongest(s, k, s.n.latency)
  {
    Footprint(t);
    var nodes := GetNodesAndLeavesByBFS(n, t);
    AllVisitFacts(t);
    BfsIsSubs(t);
    UpdateInReverse(nodes, k, Bfs([t]), Nodes(t));
    AllCurrent(t, k);
    forall s | s in Subs(t) ensures IsLongest(s, k, s.n.latency) {
      LatIsLongest(s, k);
    }
  }

  // A path from the root to a leaf, true for a step to the right.
  ghost predicate LeafPath(t: Tree, p: seq<bool>) {
    match t
    case Leaf(_) => p == []
    case Inner(_, l, r) => p != [] && LeafPath(if p[0] then r else l, p[1..])
  }

  ghost function LeafAt(t: Tree, p: seq<bool>): Node
    requires LeafPath(t, p)
  {
    match t
    case Leaf(n) => n
    case Inner(_, l, r) => LeafAt(if p[0] then r else l, p[1..])
  }

  // The nodes of operator op on the path.
  ghost function CountOn(t: Tree, p: seq<bool>, op: Opcode): nat
    requires LeafPath(t, p)
  {
    match t
    case Leaf(_) => 0
    case Inner(n, l, r) => (if n.op == op then 1 else 0) + CountOn(if p[0] then r else l, p[1..], op)
  }

  // The latency along the path: 100000 for a phi, and the costs of all additions and multiplications.
  ghost function PathLatency(t: Tree, p: seq<bool>, k: Costs): real
    requires LeafPath(t, p)
  {
    (if LeafAt(t, p).phi then 100000.0 else 0.0) +
    CountOn(t, p, Add) as real * k.add + CountOn(t, p, Mul) as real * k.mul
  }

  ghost predicate IsLongest(t: Tree, k: Costs, c: real) {
    (exists p :: LeafPath(t, p) && PathLatency(t, p, k) == c) &&
    forall p :: LeafPath(t, p) ==> PathLatency(t, p, k) <= c
  }

  lemma OneMore(n: nat, c: real)
    ensures (1 + n) as real * c == c + n as real * c
  {
  }

  lemma PathStep(t: Tree, p: seq<bool>, k: Costs)
    requires t.Inner? && LeafPath(t, p)
    ensures PathLatency(t, p, k) == PathLatency(if p[0] then t.r else t.l, p[1..], k) + InstructionLatency(t.n.op, k)
  {
    var s := if p[0] then t.r else t.l;
    OneMore(CountOn(s, p[1..], Add), k.add);
    OneMore(CountOn(s, p[1..], Mul), k.mul);
  }

  // The recursive latency is the largest one along a path from a leaf.
  lemma {:induction false} LatIsLongest(t: Tree, k: Costs)
    ensures IsLongest(t, k, Lat(t, k))
  {
    match t
    case Leaf(n) =>
      assert LeafPath(t, []) && PathLatency(t, [], k) == Lat(t, k);
    case Inner(n, l, r) =>
      LatIsLongest(l, k);
      LatIsLongest(r, k);
      var side := Lat(l, k) < Lat(r, k);
      var s := if side then r else l;
      var p :| LeafPath(s, p) && PathLatency(s, p, k) == Lat(s, k);
      var q := [side] + p;
      assert q[1..] == p;
      PathStep(t, q, k);
      forall p | LeafPath(t, p) ensures PathLatency(t, p, k) <= Lat(t, k) {
        PathStep(t, p, k);
      }
  }

  ghost function PhiCount(t: Tree): nat {
    match t
    case Leaf(n) => if n.phi then 1 else 0
    case Inner(_, l, r) => PhiCount(l) + PhiCount(r)
  }

  ghost function OpCount(t: Tree, op: Opcode): nat {
    match t
    case Leaf(_) => 0
    case Inner(n, l, r) => (if n.op == op then 1 else 0) + (OpCount(l, op) + OpCount(r, op))
  }

  // The costs of all operations of the tree, and 100000 per phi.
  ghost function TotalOf(t: Tree, k: Costs): real {
    PhiCount(t) as real * 100000.0 + OpCount(t, Add) as real * k.add + OpCount(t, Mul) as real * k.mul
  }

  predicate Whole(c: real) {
    c.Floor as real == c
  }

  lemma SumTimes(i: nat, a: nat, b: nat, c: real)
    ensures (i + (a + b)) as real * c == i as real * c + (a as real * c + b as real * c)
  {
  }

  lemma TotalStep(t: Tree, k: Costs)
    requires t.Inner?
    ensures TotalOf(t, k) == TotalOf(t.l, k) + TotalOf(t.r, k) + InstructionLatency(t.n.op, k)
  {
    SumTimes(if t.n.op.Add? then 1 else 0, OpCount(t.l, Add), OpCount(t.r, Add), k.add);
    SumTimes(if t.n.op.Mul? then 1 else 0, OpCount(t.l, Mul), OpCount(t.r, Mul), k.mul);
  }

  // The total cost is that sum, rounded down at every node, so exact when the table holds whole numbers.
  lemma {:induction false} CostIsTotal(t: Tree, k: Costs)
    ensures TotalOf(t, k) - Size(t) as real < Cost(t, k) as real <= TotalOf(t, k)
    ensures Whole(k.add) && Whole(k.mul) ==> Cost(t, k) as real == TotalOf(t, k)
  {
    if t.Inner? {
      CostIsTotal(t.l, k);
      CostIsTotal(t.r, k);
      TotalStep(t, k);
      LatNonNegative(t.l, k);
      LatNonNegative(t.r, k);
      Rounded(Cost(t.l, k) + Cost(t.r, k), InstructionLatency(t.n.op, k));
    }
  }

  lemma Rounded(a: nat, c: real)
    requires c >= 0.0
    ensures var r := TruncToInt(a as real + c) as real;
      a as real + c - 1.0 < r <= a as real + c && (Whole(c) ==> r == a as real + c)
  {
    if Whole(c) {
      FloorOfWhole(a + c.Floor, a as real + c);
    }
  }

  lemma FloorOfWhole(n: int, x: real)
    requires n as real == x
    ensures x.Floor == n
  {
  }

  lemma AllCurrent(t: Tree, k: Costs)
    requires forall i :: 0 <= i < |Bfs([t])| ==> NodeCurrent(Bfs([t])[i], k)
    ensures Current(t, k)
  {
    BfsIsSubs(t);
  }

  lemma AllVisitFacts(t: Tree)
    requires Linked(t) && Proper(t)
    ensures var bs := Bfs([t]);
      (forall i :: 0 <= i < |bs| ==> TopLinked(bs[i]) && Apart(bs[i]) && bs[i].n in Nodes(t)) &&
      (forall i :: 0 <= i < |bs| ==> bs[i].Inner? ==> bs[i].l in bs[i + 1..] && bs[i].r in bs[i + 1..]) &&
      (forall i, j :: 0 <= i < j < |bs| ==> bs[j].n != bs[i].n)
  {
    var bs := Bfs([t]);
    forall i | 0 <= i < |bs|
      ensures TopLinked(bs[i]) && Apart(bs[i]) && bs[i].n in Nodes(t)
      ensures bs[i].Inner? ==> bs[i].l in bs[i + 1..] && bs[i].r in bs[i + 1..]
    {
      VisitFacts(t, bs, i);
    }
    forall i, j | 0 <= i < j < |bs|
      ensures bs[j].n != bs[i].n
    {
      BfsDistinct(t, i, j);
    }
  }
}
