// Groups of equal operators: what merging their leaves keeps, and which latencies it can reach.
module ThrGroups {
  import opened Collections
  import opened ThrTree
  import opened ThrGreedy

  ghost function LatOf(k: Costs): Tree -> real {
    t => Lat(t, k)
  }

  ghost function Lats(f: seq<Tree>, k: Costs): seq<real> {
    Map(LatOf(k), f)
  }

  ghost function FlatKidsOf(op: Opcode): Tree -> multiset<Flat> {
    t => FlatKids(t, op)
  }

  ghost function GroupNodesOf(op: Opcode): Tree -> multiset<Node> {
    t => GroupNodes(t, op)
  }

  ghost function FrontierOf(op: Opcode): Tree -> multiset<Tree> {
    t => multiset(Frontier(t, op))
  }

  // A history of constructOptimizedSubtree: each step sorts the leaves into the order p and
  // puts the node n above the first two.
  datatype Merges = NoMerge | Merge(earlier: Merges, p: seq<Tree>, n: Node)

  ghost function Merged(p: seq<Tree>, n: Node): seq<Tree>
    requires |p| >= 2
  {
    p[2..] + [Inner(n, p[0], p[1])]
  }

  // From the leaves f0 of a group of op, the history h leads to the leaves p, in any order.
  ghost predicate Reached(h: Merges, f0: seq<Tree>, p: seq<Tree>, op: Opcode) {
    match h
    case NoMerge => multiset(p) == multiset(f0)
    case Merge(earlier, q, n) =>
      |q| >= 2 && n.op == op && multiset(p) == multiset(Merged(q, n)) && Reached(earlier, f0, q, op)
  }

  // The latency stored at the top of t, when the leaves in stale still carry the 0 they were built with.
  ghost function StoredLat(t: Tree, k: Costs, stale: set<Node>): real {
    if t.Leaf? && t.n in stale then 0.0 else Lat(t, k)
  }

  ghost function StoredOf(k: Costs, stale: set<Node>): Tree -> real {
    t => StoredLat(t, k, stale)
  }

  ghost function StoredLats(f: seq<Tree>, k: Costs, stale: set<Node>): seq<real> {
    Map(StoredOf(k, stale), f)
  }

  // The total cost stored with it.
  ghost function StoredCost(t: Tree, k: Costs, stale: set<Node>): int {
    if t.Leaf? && t.n in stale then 0 else Cost(t, k)
  }

  // Every step merged two lowest stored latencies.
  ghost predicate GreedyOn(h: Merges, k: Costs, stale: set<Node>) {
    match h
    case NoMerge => true
    case Merge(earlier, p, n) => |p| >= 2 && TwoLowest(StoredLats(p, k, stale)) && GreedyOn(earlier, k, stale)
  }

  lemma NoneStale(p: seq<Tree>, k: Costs)
    ensures StoredLats(p, k, {}) == Lats(p, k)
  {
  }

  // The comparison of the sort does not put b before a.
  ghost predicate NotAfter(a: Tree, b: Tree, k: Costs, stale: set<Node>) {
    StoredLat(a, k, stale) < StoredLat(b, k, stale) ||
    (StoredLat(a, k, stale) == StoredLat(b, k, stale) && StoredCost(a, k, stale) <= StoredCost(b, k, stale))
  }

  ghost predicate SortedOn(p: seq<Tree>, k: Costs, stale: set<Node>) {
    forall i, j :: 0 <= i < j < |p| ==> NotAfter(p[i], p[j], k, stale)
  }

  // A run of the merge loop that the sort allows: ties in latency and cost may come in any order.
  ghost predicate Allowed(h: Merges, k: Costs, stale: set<Node>) {
    match h
    case NoMerge => true
    case Merge(earlier, p, n) => |p| >= 2 && SortedOn(p, k, stale) && Allowed(earlier, k, stale)
  }

  lemma {:induction false} AllowedIsGreedy(h: Merges, k: Costs, stale: set<Node>)
    requires Allowed(h, k, stale)
    ensures GreedyOn(h, k, stale)
  {
    match h
    case NoMerge =>
    case Merge(earlier, p, n) =>
      AllowedIsGreedy(earlier, k, stale);
      SortedLowest(p, k, stale);
  }

  // The sort puts the two lowest stored latencies first.
  lemma SortedLowest(p: seq<Tree>, k: Costs, stale: set<Node>)
    requires |p| >= 2 && SortedOn(p, k, stale)
    ensures TwoLowest(StoredLats(p, k, stale))
  {
    forall i, j | 0 <= i < j < |p|
      ensures StoredLats(p, k, stale)[i] <= StoredLats(p, k, stale)[j]
    {
      assert NotAfter(p[i], p[j], k, stale);
    }
  }

  ghost function Used(h: Merges): multiset<Node> {
    match h
    case NoMerge => multiset{}
    case Merge(earlier, _, n) => Used(earlier) + multiset{n}
  }

  lemma MergedKids(p: seq<Tree>, n: Node, op: Opcode)
    requires |p| >= 2 && n.op == op
    ensures UnionBy(FlatKidsOf(op), Merged(p, n)) == UnionBy(FlatKidsOf(op), p)
  {
    UnionByTwo(FlatKidsOf(op), p);
    UnionBySnoc(FlatKidsOf(op), p[2..], Inner(n, p[0], p[1]));
  }

  lemma MergedNodes(p: seq<Tree>, n: Node, op: Opcode)
    requires |p| >= 2 && n.op == op
    ensures UnionBy(GroupNodesOf(op), Merged(p, n)) == UnionBy(GroupNodesOf(op), p) + multiset{n}
  {
    UnionByTwo(GroupNodesOf(op), p);
    UnionBySnoc(GroupNodesOf(op), p[2..], Inner(n, p[0], p[1]));
  }

  // Merging keeps the operands of the group and adds exactly the nodes it uses.
  lemma MergesKeep(h: Merges, f0: seq<Tree>, p: seq<Tree>, op: Opcode)
    requires Reached(h, f0, p, op)
    ensures UnionBy(FlatKidsOf(op), p) == UnionBy(FlatKidsOf(op), f0)
    ensures UnionBy(GroupNodesOf(op), p) == UnionBy(GroupNodesOf(op), f0) + Used(h)
  {
    MergesKeepKids(h, f0, p, op);
    MergesAddNodes(h, f0, p, op);
  }

  lemma {:induction false} MergesKeepKids(h: Merges, f0: seq<Tree>, p: seq<Tree>, op: Opcode)
    requires Reached(h, f0, p, op)
    ensures UnionBy(FlatKidsOf(op), p) == UnionBy(FlatKidsOf(op), f0)
  {
    match h
    case NoMerge =>
      UnionByPerm(FlatKidsOf(op), p, f0);
    case Merge(earlier, q, n) =>
      MergesKeepKids(earlier, f0, q, op);
      UnionByPerm(FlatKidsOf(op), p, Merged(q, n));
      MergedKids(q, n, op);
  }

  lemma {:induction false} MergesAddNodes(h: Merges, f0: seq<Tree>, p: seq<Tree>, op: Opcode)
    requires Reached(h, f0, p, op)
    ensures UnionBy(GroupNodesOf(op), p) == UnionBy(GroupNodesOf(op), f0) + Used(h)
  {
    match h
    case NoMerge =>
      UnionByPerm(GroupNodesOf(op), p, f0);
    case Merge(earlier, q, n) =>
      MergesAddNodes(earlier, f0, q, op);
      UnionByPerm(GroupNodesOf(op), p, Merged(q, n));
      MergedNodes(q, n, op);
  }

  lemma {:induction false} LatsNonNegative(f: seq<Tree>, k: Costs)
    ensures NonNegative(Lats(f, k))
  {
    forall i | 0 <= i < |f|
      ensures Lats(f, k)[i] >= 0.0
    {
      LatNonNegative(f[i], k);
    }
  }

  lemma LatsMerged(p: seq<Tree>, n: Node, op: Opcode, k: Costs)
    requires |p| >= 2 && TwoLowest(Lats(p, k)) && n.op == op
    ensures Lats(Merged(p, n), k) == Lats(p, k)[2..] + [Lats(p, k)[1] + InstructionLatency(op, k)]
  {
  }

  // A deadline that the leaves can meet, the greedy merges meet, whatever the sort did with ties.
  lemma {:induction false} GreedyMeetsDeadline(h: Merges, f0: seq<Tree>, p: seq<Tree>, op: Opcode, k: Costs, x: real)
    requires Reached(h, f0, p, op) && GreedyOn(h, k, {})
    requires Fits(Lats(f0, k), InstructionLatency(op, k), x)
    ensures Fits(Lats(p, k), InstructionLatency(op, k), x)
  {
    var c := InstructionLatency(op, k);
    match h
    case NoMerge =>
      MapPerm(LatOf(k), f0, p);
      FitsPerm(Lats(f0, k), Lats(p, k), c, x);
    case Merge(earlier, q, n) =>
      GreedyMeetsDeadline(earlier, f0, q, op, k, x);
      NoneStale(q, k);
      LatsNonNegative(q, k);
      MergeFits(Lats(q, k), c, x);
      LatsMerged(q, n, op, k);
      MapPerm(LatOf(k), Merged(q, n), p);
      FitsPerm(Lats(Merged(q, n), k), Lats(p, k), c, x);
  }

  // Any binary tree over values ready at given times.
  datatype Shape = Tip(lat: real) | Fork(l: Shape, r: Shape)

  ghost function Tips(s: Shape): seq<real> {
    match s
    case Tip(lat) => [lat]
    case Fork(l, r) => Tips(l) + Tips(r)
  }

  // When its value is ready, if every operation takes c.
  ghost function Height(s: Shape, c: real): real {
    match s
    case Tip(lat) => lat
    case Fork(l, r) => MaxReal(Height(l, c), Height(r, c)) + c
  }

  lemma NonNegativeParts(a: seq<real>, b: seq<real>)
    requires NonNegative(a + b)
    ensures NonNegative(a) && NonNegative(b)
  {
    forall i | 0 <= i < |b| ensures b[i] >= 0.0 {
      assert b[i] == (a + b)[|a| + i];
    }
    forall i | 0 <= i < |a| ensures a[i] >= 0.0 {
      assert a[i] == (a + b)[i];
    }
  }

  lemma {:induction false} HeightNonNegative(s: Shape, c: real)
    requires c >= 0.0 && NonNegative(Tips(s))
    ensures Height(s, c) >= 0.0
  {
    match s
    case Tip(lat) => assert Tips(s)[0] == lat;
    case Fork(l, r) =>
      NonNegativeParts(Tips(l), Tips(r));
      HeightNonNegative(l, c);
      HeightNonNegative(r, c);
  }

  // A tree that meets a deadline is a witness that its leaves can.
  lemma ShapeWitnesses(s: Shape, c: real, x: real)
    requires c >= 0.0 && NonNegative(Tips(s)) && Height(s, c) <= x
    ensures Fits(Tips(s), c, x)
  {
    if c == 0.0 {
      ShapeWithin(s, x);
    } else {
      ShapeWeight(s, c, x);
      HeightNonNegative(s, c);
      WeightLaws(Height(s, c), Height(s, c), c, x);
    }
  }

  lemma {:induction false} ShapeWithin(s: Shape, x: real)
    requires Height(s, 0.0) <= x
    ensures AllWithin(Tips(s), x)
  {
    if s.Fork? {
      ShapeWithin(s.l, x);
      ShapeWithin(s.r, x);
    }
  }

  lemma PairWeight(a: real, b: real, c: real, x: real)
    requires c > 0.0 && a >= 0.0 && b >= 0.0 && MaxReal(a, b) + c <= x
    ensures Weight(a, c, x) + Weight(b, c, x) <= Weight(MaxReal(a, b) + c, c, x)
  {
    if a < b { WeightLaws(a, b, c, x); } else { WeightLaws(b, a, c, x); }
  }

  lemma {:induction false} ShapeWeight(s: Shape, c: real, x: real)
    requires c > 0.0 && NonNegative(Tips(s)) && Height(s, c) <= x
    ensures SumBy(WeightOf(c, x), Tips(s)) <= Weight(Height(s, c), c, x)
  {
    match s
    case Tip(lat) =>
      SumByCons(WeightOf(c, x), lat, []);
    case Fork(l, r) =>
      NonNegativeParts(Tips(l), Tips(r));
      ShapeWeight(l, c, x);
      ShapeWeight(r, c, x);
      SumByAppend(WeightOf(c, x), Tips(l), Tips(r));
      HeightNonNegative(l, c);
      HeightNonNegative(r, c);
      PairWeight(Height(l, c), Height(r, c), c, x);
  }

  // The shape of a group.
  ghost function ShapeOf(t: Tree, op: Opcode, k: Costs): Shape {
    if InGroup(t, op) then Fork(ShapeOf(t.l, op, k), ShapeOf(t.r, op, k)) else Tip(Lat(t, k))
  }

  lemma {:induction false} GroupShape(t: Tree, op: Opcode, k: Costs)
    ensures Tips(ShapeOf(t, op, k)) == Lats(Frontier(t, op), k)
    ensures Height(ShapeOf(t, op, k), InstructionLatency(op, k)) == Lat(t, k)
  {
    if InGroup(t, op) {
      GroupShape(t.l, op, k);
      GroupShape(t.r, op, k);
      MapAppend(LatOf(k), Frontier(t.l, op), Frontier(t.r, op));
    }
  }

  // No binary tree over the leaves of the group at the top of t is faster than t.
  ghost predicate Best(t: Tree, op: Opcode, k: Costs) {
    forall s: Shape :: multiset(Tips(s)) == multiset(Lats(Frontier(t, op), k)) ==>
      Lat(t, k) <= Height(s, InstructionLatency(op, k))
  }

  // Greedy optimality: no binary tree over the same latencies is faster.
  lemma GreedyIsOptimal(h: Merges, f0: seq<Tree>, t: Tree, op: Opcode, k: Costs, other: Shape)
    requires Reached(h, f0, [t], op) && GreedyOn(h, k, {})
    requires multiset(Tips(other)) == multiset(Lats(f0, k))
    ensures Lat(t, k) <= Height(other, InstructionLatency(op, k))
  {
    var c := InstructionLatency(op, k);
    var x := Height(other, c);
    LatsNonNegative(f0, k);
    NonNegativePerm(Lats(f0, k), Tips(other));
    ShapeWitnesses(other, c, x);
    FitsPerm(Tips(other), Lats(f0, k), c, x);
    GreedyMeetsDeadline(h, f0, [t], op, k, x);
    LatsNonNegative([t], k);
    FitsAll(Lats([t], k), c, x);
    assert Lats([t], k)[0] == Lat(t, k);
  }

  lemma NonNegativePerm(a: seq<real>, b: seq<real>)
    requires multiset(a) == multiset(b) && NonNegative(a)
    ensures NonNegative(b)
  {
    forall i | 0 <= i < |b| ensures b[i] >= 0.0 {
      assert b[i] in multiset(a);
      var j :| 0 <= j < |a| && a[j] == b[i];
    }
  }

  lemma {:induction false} MergesKeepFrontier(h: Merges, f0: seq<Tree>, p: seq<Tree>, op: Opcode)
    requires Reached(h, f0, p, op)
    ensures UnionBy(FrontierOf(op), p) == UnionBy(FrontierOf(op), f0)
  {
    match h
    case NoMerge =>
      UnionByPerm(FrontierOf(op), p, f0);
    case Merge(earlier, q, n) =>
      MergesKeepFrontier(earlier, f0, q, op);
      UnionByPerm(FrontierOf(op), p, Merged(q, n));
      UnionByTwo(FrontierOf(op), q);
      UnionBySnoc(FrontierOf(op), q[2..], Inner(n, q[0], q[1]));
      assert multiset(Frontier(q[0], op) + Frontier(q[1], op))
          == multiset(Frontier(q[0], op)) + multiset(Frontier(q[1], op));
  }
}
