// runOnBasicBlock: all roots of a block, from the construction of their trees to the erased instructions.
module ThrBasicBlock {
  import opened Collections
  import opened ThrTree
  import opened ThrBfs
  import opened ThrForest
  import opened ThrMerge
  import opened ThrSpeed
  import opened ThrApply
  import opened ThrMeaning
  import opened ThrEmit
  import opened ThrWorst
  import opened ThrPass
  import opened ThrIr
  import opened ThrErase
  import opened ThrSplice
  import opened ThrReplaced
  import opened ThrScan

  // The loop over the users of a value.
  method IsNodeCandidate(b: Block, v: nat) returns (candidate: bool)
    ensures candidate <==> NodeCandidate(b, v)
  {
    if Uses(b, v) != 1 {
      for i := 0 to |b|
        invariant forall j :: 0 <= j < i ==> !(v in Args(b[j]) && IsTargetLine(b, b[j]))
      {
        if v in Args(b[i]) && IsTargetLine(b, b[i]) {
          return false;
        }
      }
      return true;
    }
    return Target(b, v);
  }

  method IsRootCandidate(b: Block, v: nat) returns (candidate: bool)
    requires v in Defs(b)
    ensures candidate <==> RootCandidate(b, v)
  {
    if !Target(b, v) {
      return false;
    }
    var args := Args(LineOf(b, v));
    for i := 0 to |args|
      invariant forall j :: 0 <= j < i ==> !NodeCandidate(b, args[j])
    {
      var node := IsNodeCandidate(b, args[i]);
      if node {
        return true;
      }
    }
    return false;
  }

  function OpOf(b: Block, v: nat): Opcode {
    if v in Defs(b) && LineOf(b, v).inst.Bin? then LineOf(b, v).inst.op else Other
  }

  predicate IsPhi(b: Block, v: nat) {
    v in Defs(b) && LineOf(b, v).inst.Opaque? && LineOf(b, v).inst.kind.Phi?
  }

  lemma {:induction false} TargetIsCommutative(b: Block, v: nat)
    requires Ssa(b) && v in Defs(b) && LineOf(b, v).inst.Bin?
    ensures IsCommutative(LineOf(b, v).inst.op)
  {
    if Last(b).def != v {
      TargetIsCommutative(Init(b), v);
    }
  }

  // A node that was just built has latency and cost 0.
  ghost predicate Unmeasured(t: Tree)
    reads Nodes(t)`latency, Nodes(t)`totalCost
  {
    t.n.latency == 0.0 && t.n.totalCost == 0 && (t.Inner? ==> Unmeasured(t.l) && Unmeasured(t.r))
  }

  ghost function PhiLeaves(t: Tree): set<Node> {
    match t
    case Leaf(n) => if n.phi then {n} else {}
    case Inner(_, l, r) => PhiLeaves(l) + PhiLeaves(r)
  }

  // In a new tree exactly the phi leaves are stale.
  lemma {:induction false} UnmeasuredIsStored(t: Tree, k: Costs, stale: set<Node>)
    requires Unmeasured(t) && AllPhi(stale) && PhiLeaves(t) <= stale
    ensures LeavesStored(t, k, stale)
  {
    if t.Inner? {
      UnmeasuredIsStored(t.l, k, stale);
      UnmeasuredIsStored(t.r, k, stale);
    }
  }

  lemma {:induction false} PhiLeavesArePhi(t: Tree)
    ensures AllPhi(PhiLeaves(t))
  {
    if t.Inner? {
      PhiLeavesArePhi(t.l);
      PhiLeavesArePhi(t.r);
    }
  }

  lemma TwoOperands(b: Block, v: nat)
    requires Ssa(b) && Target(b, v)
    ensures var i := LineOf(b, v).inst;
      UsedByTarget(b, i.a) && UsedByTarget(b, i.b) && Rank(b, i.a) < Rank(b, v) && Rank(b, i.b) < Rank(b, v)
  {
    var l := LineOf(b, v);
    assert Args(l) == [l.inst.a, l.inst.b];
    assert l.inst.a in Args(l) && l.inst.b in Args(l);
    OperandOfTarget(b, v, l.inst.a);
    OperandOfTarget(b, v, l.inst.b);
    OperandsEarlier(b, v, l.inst.a);
    OperandsEarlier(b, v, l.inst.b);
  }

  // A new node over two trees without common nodes.
  lemma ProperJoin(n: Node, l: Tree, r: Tree)
    requires Proper(l) && Proper(r) && n !in Nodes(l) && n !in Nodes(r) && Nodes(l) !! Nodes(r)
    requires !n.phi && IsCommutative(n.op)
    ensures Proper(Inner(n, l, r))
  {
    var ml, mr := NodesM(l), NodesM(r);
    assert NoDup(ml) && NoDup(mr);
    forall x: Node ensures (multiset{n} + (ml + mr))[x] <= 1 {
      NodesAreCounted(l, x);
      NodesAreCounted(r, x);
      assert (multiset{n} + (ml + mr))[x] == multiset{n}[x] + (ml[x] + mr[x]);
      assert ml[x] <= 1 && mr[x] <= 1;
    }
  }

  lemma RepresentsInner(b: Block, v: nat, n: Node, l: Tree, r: Tree)
    requires n.def == v && NodeCandidate(b, v) && Target(b, v) && n.op == LineOf(b, v).inst.op
    requires Represents(b, l, LineOf(b, v).inst.a) && Represents(b, r, LineOf(b, v).inst.b)
    ensures Represents(b, Inner(n, l, r), v)
  {
  }

  // What construction establishes.
  ghost predicate Built(b: Block, t: Tree, v: nat)
    reads Nodes(t)
  {
    Linked(t) && Proper(t) && Unmeasured(t) && Represents(b, t, v)
  }

  // The tree t is a child of n, and new.
  ghost predicate Child(b: Block, t: Tree, v: nat, n: Node)
    reads Nodes(t)
  {
    Built(b, t, v) && t.n.parent == n && n !in Nodes(t)
  }

  // A node for v that has just been built.
  ghost predicate NewNode(b: Block, v: nat, n: Node)
    requires v in Defs(b) && LineOf(b, v).inst.Bin?
    reads n`latency, n`totalCost
  {
    n.def == v && n.op == LineOf(b, v).inst.op && !n.phi && n.latency == 0.0 && n.totalCost == 0
  }

  // The operands of v are the children l and r of n.
  ghost predicate Joined(b: Block, v: nat, n: Node, l: Tree, r: Tree)
    requires v in Defs(b) && LineOf(b, v).inst.Bin?
    reads n, Nodes(l), Nodes(r)
  {
    Child(b, l, LineOf(b, v).inst.a, n) && Child(b, r, LineOf(b, v).inst.b, n) && Nodes(l) !! Nodes(r) &&
    n.left == l.n && n.right == r.n
  }

  lemma BuiltJoin(b: Block, v: nat, n: Node, l: Tree, r: Tree)
    requires Ssa(b) && NodeCandidate(b, v) && Target(b, v) && NewNode(b, v, n)
    requires Joined(b, v, n, l, r)
    ensures Built(b, Inner(n, l, r), v) && Below(Inner(n, l, r)) == Nodes(l) + Nodes(r)
  {
    TargetIsCommutative(b, v);
    ProperJoin(n, l, r);
    RepresentsInner(b, v, n, l, r);
  }

  // The new tree t becomes a child of n.
  method SetParent(b: Block, v: nat, c: Node, n: Node, ghost t: Tree)
    requires t.n == c && Built(b, t, v) && n !in Nodes(t)
    modifies c`parent
    ensures Child(b, t, v, n)
  {
    Footprint(t);
    TopApart(t);
    c.parent := n;
    assert Linked(t);
  }

  method ConstructLeft(b: Block, v: nat, n: Node) returns (ghost t: Tree)
    requires Ssa(b) && UsedByTarget(b, v)
    modifies n`left
    ensures n.left == t.n && fresh(Nodes(t)) && Child(b, t, v, n)
    decreases Rank(b, v), 2
  {
    var c;
    c, t := ConstructTree(b, v);
    Footprint(t);
    n.left := c;
    SetParent(b, v, c, n, t);
  }

  // The second operand of v becomes the right child, while the left child l stays as it is.
  method ConstructRight(b: Block, v: nat, y: nat, n: Node, ghost l: Tree) returns (ghost t: Tree)
    requires Ssa(b) && v in Defs(b) && LineOf(b, v).inst.Bin? && y == LineOf(b, v).inst.b && UsedByTarget(b, y)
    requires Child(b, l, LineOf(b, v).inst.a, n) && n.left == l.n
    modifies n`right
    ensures fresh(Nodes(t)) && Joined(b, v, n, l, t)
    decreases Rank(b, y), 2
  {
    Footprint(l);
    ghost var x := LineOf(b, v).inst.a;
    var c;
    c, t := ConstructTree(b, y);
    Footprint(t);
    assert Nodes(l) !! Nodes(t);
    n.right := c;
    assert Child(b, l, x, n);
    SetParent(b, y, c, n, t);
    assert Child(b, l, x, n);
  }

  lemma BuiltLeaf(b: Block, v: nat, n: Node)
    requires n.def == v && !NodeCandidate(b, v) && n.phi == IsPhi(b, v)
    requires n.left == null && n.right == null && n.latency == 0.0 && n.totalCost == 0
    ensures Built(b, Leaf(n), v)
  {
    assert forall x: Node :: NodesM(Leaf(n))[x] <= 1;
  }

  lemma TopAndBelow(t: Tree)
    ensures Nodes(t) == {t.n} + Below(t)
  {
  }

  // The two operands of a candidate become the children of its node.
  method ConstructChildren(b: Block, v: nat, n: Node) returns (ghost t: Tree)
    requires Ssa(b) && NodeCandidate(b, v) && Target(b, v) && NewNode(b, v, n)
    modifies n`left, n`right
    ensures t.n == n && Built(b, t, v) && fresh(Below(t))
    decreases Rank(b, v), 0
  {
    TwoOperands(b, v);
    var i := LineOf(b, v).inst;
    ghost var l := ConstructLeft(b, i.a, n);
    assert fresh(Nodes(l));
    ghost var r := ConstructRight(b, v, i.b, n, l);
    BuiltJoin(b, v, n, l, r);
    t := Inner(n, l, r);
  }

  // Construct the operation tree of v.
  method ConstructTree(b: Block, v: nat) returns (n: Node, ghost t: Tree)
    requires Ssa(b) && (Target(b, v) || UsedByTarget(b, v))
    ensures t.n == n && n.parent == null && fresh(Nodes(t)) && Built(b, t, v)
    decreases Rank(b, v), 1
  {
    var candidate := IsNodeCandidate(b, v);
    n := new Node(v, OpOf(b, v), IsPhi(b, v));
    if !candidate {
      BuiltLeaf(b, v, n);
      return n, Leaf(n);
    }
    CandidateIsTarget(b, v);
    t := ConstructChildren(b, v, n);
    TopAndBelow(t);
  }

  ghost function LeafCount(q: seq<Tree>): nat {
    if q == [] then 0 else (if q[0].Leaf? then 1 else 0) + LeafCount(q[1..])
  }

  lemma {:induction false} LeafCountAppend(p: seq<Tree>, q: seq<Tree>)
    ensures LeafCount(p + q) == LeafCount(p) + LeafCount(q)
  {
    if p == [] {
      assert p + q == q;
    } else {
      assert (p + q)[1..] == p[1..] + q;
      LeafCountAppend(p[1..], q);
    }
  }

  lemma {:induction false} LeafCountBfs(q: seq<Tree>)
    ensures LeafCount(Bfs(q)) == |UnionBy(LeavesMOf(), q)|
    decreases SumBy(SizeOf(), q)
  {
    if q != [] {
      KidsSize(q[0], q[1..]);
      assert q == [q[0]] + q[1..];
      LeafCountBfs(q[1..] + Kids(q[0]));
      UnionKids(LeavesMOf(), q[0], q[1..]);
      assert Bfs(q)[1..] == Bfs(q[1..] + Kids(q[0]));
      assert LeavesMOf()(q[0]) == LeavesM(q[0]);
    }
  }

  lemma {:induction false} SomeLeaf(t: Tree)
    ensures |LeavesM(t)| >= if t.Inner? then 2 else 1
  {
    if t.Inner? {
      SomeLeaf(t.l);
      SomeLeaf(t.r);
    }
  }

  // Only a tree that is a leaf has fewer than two leaves.
  lemma LegalTrees(t: Tree)
    ensures LeafCount(Bfs([t])) >= 2 <==> t.Inner?
  {
    LeafCountBfs([t]);
    SomeLeaf(t);
    assert UnionBy(LeavesMOf(), [t]) == LeavesM(t);
  }

  lemma CountStep(bs: seq<Tree>, i: nat)
    requires i < |bs|
    ensures LeafCount(bs[..i + 1]) == LeafCount(bs[..i]) + if bs[i].Leaf? then 1 else 0
    ensures LeafCount(bs[..i + 1]) <= LeafCount(bs)
  {
    assert bs[..i + 1] == bs[..i] + [bs[i]];
    LeafCountAppend(bs[..i], [bs[i]]);
    assert LeafCount([bs[i]]) == if bs[i].Leaf? then 1 else 0;
    assert bs == bs[..i + 1] + bs[i + 1..];
    LeafCountAppend(bs[..i + 1], bs[i + 1..]);
  }

  // isLegalToApply: at least two leaves.
  method IsLegalToApply(root: Node, ghost t: Tree) returns (legal: bool)
    requires t.n == root && Linked(t)
    ensures legal <==> t.Inner?
  {
    Footprint(t);
    var nodes := GetNodesAndLeavesByBFS(root, t);
    ghost var bs := Bfs([t]);
    var leaves := 0;
    LegalTrees(t);
    for i := 0 to |nodes|
      invariant leaves == LeafCount(bs[..i]) && leaves < 2
    {
      CountStep(bs, i);
      SubTop(t, bs[i]);
      if !nodes[i].IsNode() {
        leaves := leaves + 1;
      }
      if leaves >= 2 {
        return true;
      }
    }
    assert bs[..|nodes|] == bs;
    return false;
  }

  lemma {:induction false} DefsOfAppend(p: seq<Tree>, q: seq<Tree>)
    ensures DefsOf(p + q) == DefsOf(p) + DefsOf(q)
  {
    if p == [] {
      assert p + q == q;
    } else {
      assert (p + q)[1..] == p[1..] + q;
      DefsOfAppend(p[1..], q);
      Assoc(if p[0].Inner? then [p[0].n.def] else [], DefsOf(p[1..]), DefsOf(q));
    }
  }

  lemma DefsStep(bs: seq<Tree>, i: nat)
    requires i < |bs|
    ensures DefsOf(bs[..i + 1]) == DefsOf(bs[..i]) + if bs[i].Inner? then [bs[i].n.def] else []
  {
    assert bs[..i + 1] == bs[..i] + [bs[i]];
    DefsOfAppend(bs[..i], [bs[i]]);
    assert DefsOf([bs[i]]) == if bs[i].Inner? then [bs[i].n.def] else [];
  }

  // collectInstsToBeErasedFrom.
  method CollectInsts(root: Node, ghost t: Tree) returns (insts: seq<nat>)
    requires t.n == root && Linked(t)
    ensures insts == DefsOf(Bfs([t]))
  {
    Footprint(t);
    var nodes := GetNodesAndLeavesByBFS(root, t);
    ghost var bs := Bfs([t]);
    insts := [];
    for i := 0 to |nodes|
      invariant insts == DefsOf(bs[..i])
    {
      DefsStep(bs, i);
      SubTop(t, bs[i]);
      if nodes[i].IsNode() {
        insts := insts + [nodes[i].def];
      }
    }
    assert bs[..|nodes|] == bs;
  }

  // Phis of the block are late, all other values are ready.
  ghost function BlockStart(b: Block): nat -> real {
    d => if d in Defs(b) && LineOf(b, d).inst.Opaque? && LineOf(b, d).inst.kind.Phi? then 100000.0 else 0.0
  }

  // The stale leaves are those that a phi of the block defines.
  ghost predicate PhisOf(b: Block, t: Tree) {
    PhiLeaves(t) ==
      set n | n in LeavesM(t) && n.def in Defs(b) && LineOf(b, n.def).inst.Opaque? && LineOf(b, n.def).inst.kind.Phi?
  }

  lemma {:induction false} LeavesOfBlock(b: Block, t: Tree, v: nat)
    requires Represents(b, t, v)
    ensures PhisOf(b, t) && Starts(t, BlockStart(b))
  {
    match t
    case Leaf(n) =>
      assert forall x: Node :: x in LeavesM(t) <==> x == n;
    case Inner(_, l, r) =>
      LeavesOfBlock(b, l, LineOf(b, v).inst.a);
      LeavesOfBlock(b, r, LineOf(b, v).inst.b);
  }

  // When the code of t is ready, from the phis of the block: by the worst latency of t, and no later than t itself
  // if no phi does harm.
  ghost predicate OnTime(b: Block, t: Tree, code: seq<Instr>, result: Operand, k: Costs) {
    var ready := Ready(result, code, BlockStart(b), k);
    PhisOf(b, t) && ready <= WorstFinal(t, t.n.op, k, PhiLeaves(t)) &&
    (CleanChild(t, t.n.op, k, PhiLeaves(t), false) ==> ready <= Lat(t, k))
  }

  method ReduceTree(b: Block, v: nat, k: Costs)
    returns (legal: bool, insts: seq<nat>, code: seq<Instr>, result: Operand,
             ghost t: Tree, ghost t': Tree, ghost d: Reduction)
    requires Ssa(b) && Target(b, v)
    ensures legal <==> NodeCandidate(b, v)
    ensures legal ==> EmitsFor(b, v, t, t', code, result) && insts == DefsOf(Bfs([t]))
    ensures legal ==> Outcome(d, t, t', t.n.op, k, PhiLeaves(t)) && OnTime(b, t, code, result, k)
  {
    var root;
    root, t := ConstructTree(b, v);
    Footprint(t);
    legal := IsLegalToApply(root, t);
    insts, code, result, t', d := [], [], Ext(0), t, AtLeaf;
    if legal {
      insts := CollectInsts(root, t);
      PhiLeavesArePhi(t);
      UnmeasuredIsStored(t, k, PhiLeaves(t));
      LeavesOfBlock(b, t, v);
      code, result, t', d := ReduceAndEmit(root, k, t, PhiLeaves(t));
      EmittedIsInTime(t, t', d, code, result, k, PhiLeaves(t));
    }
  }

  // What happens at one root: its tree t becomes t', by the reduction d.
  datatype RootStep = RootStep(w: Rewrite, t: Tree, t': Tree, d: Reduction)

  // The root is replaced by the code of its reduced tree. The latencies are those of the width of the root, which is
  // that of the whole tree.
  ghost predicate Reduces(b: Block, b': Block, s: RootStep, k: Modulus -> Costs) {
    match s
    case RootStep(w, t, t', d) =>
      Emits(w, t, t') && b == Before(w) && b' == After(w, t) &&
      Outcome(d, t, t', t.n.op, k(w.r.m), PhiLeaves(t)) && OnTime(b, t, w.code, w.result, k(w.r.m))
  }

  // The root at line i has been replaced. The names from base on are new.
  ghost predicate Replaced(b: Block, i: nat, b': Block, newRoot: nat, news: set<nat>, base: nat, next: nat,
                           k: Modulus -> Costs, s: RootStep)
    requires i < |b|
  {
    match s
    case RootStep(w, _, _, _) =>
      Reduces(b, b', s, k) && |w.pre| == i && w.r == b[i] && w.base == base && next == base + |w.code| &&
      newRoot == NewRoot(w) && news == Defs(Lines(w))
  }

  lemma RootEmits(b: Block, i: nat, insts: seq<nat>, w: Rewrite, t: Tree, t': Tree)
    requires Ssa(b) && i < |b| && NamedBelow(Names(b), w.base) && insts == DefsOf(Bfs([t]))
    requires w.pre == b[..i] && w.r == b[i] && w.post == b[i + 1..]
    requires EmitsFor(b, w.r.def, t, t', w.code, w.result)
    ensures Before(w) == b && Emits(w, t, t') && Ssa(Inserted(w)) && ErasableInOrder(Inserted(w), insts)
  {
    assert Before(w) == b;
    OriginalsErasable(w, t, t');
  }

  // The code of the reduced tree can replace the root.
  lemma RootReduced(b: Block, b': Block, k: Modulus -> Costs, s: RootStep)
    requires Emits(s.w, s.t, s.t') && b == Before(s.w) && b' == After(s.w, s.t)
    requires Outcome(s.d, s.t, s.t', s.t.n.op, k(s.w.r.m), PhiLeaves(s.t))
    requires OnTime(b, s.t, s.w.code, s.w.result, k(s.w.r.m))
    ensures Reduces(b, b', s, k)
  {
  }

  // One root: its tree is built, reduced and emitted, and the originals are erased.
  method ReduceRoot(b: Block, i: nat, k: Modulus -> Costs, base: nat)
    returns (applied: bool, b': Block, newRoot: nat, news: set<nat>, next: nat, ghost s: RootStep)
    requires Ssa(b) && i < |b| && Target(b, b[i].def) && NamedBelow(Names(b), base)
    ensures applied <==> NodeCandidate(b, b[i].def)
    ensures if applied then Replaced(b, i, b', newRoot, news, base, next, k, s) else b' == b && next == base
  {
    var pre, r, post := b[..i], b[i], b[i + 1..];
    var insts, code, result;
    ghost var t, t', d;
    applied, insts, code, result, t, t', d := ReduceTree(b, r.def, k(r.m));
    ghost var w := Rewrite(pre, r, post, code, result, base);
    s := RootStep(w, t, t', d);
    newRoot, news, next, b' := 0, {}, base, b;
    if applied {
      var lines := CodeLines(code, base, r.m);
      newRoot, news, next := Ref(result, base), Defs(lines), base + |code|;
      RootEmits(b, i, insts, w, t, t');
      b' := EraseOrgInsts(Spliced(pre, lines, r, post, newRoot), insts);
      RootReduced(b, b', k, s);
    }
  }

  // The emitted lines are new, also to the block at the start; all others are from there. Names from next on are free.
  ghost predicate Generated(b0: Block, b: Block, generated: set<nat>, next: nat) {
    NamedBelow(Names(b0), next) && NamedBelow(Names(b), next) &&
    Defs(b) <= Defs(b0) + generated && generated !! Defs(b0)
  }

  lemma GeneratedNext(b0: Block, b: Block, w: Rewrite, b': Block, leaves: set<nat>, generated: set<nat>)
    requires Generated(b0, b, generated, w.base) && Scoped(w.code, leaves)
    requires Defs(b') <= Defs(b) + Defs(Lines(w)) && Names(b') <= Names(b) + Defs(Lines(w))
    ensures Generated(b0, b', generated + Defs(Lines(w)), w.base + |w.code|)
  {
    CodeNames(w.code, w.base, w.r.m, leaves);
    DefsNamed(b0);
  }

  ghost predicate HasRoot(b: Block) {
    exists d :: d in Defs(b) && Reducible(b, d)
  }

  // Behind the first i lines only emitted ones could be roots.
  ghost predicate Passed(b: Block, i: nat, generated: set<nat>) {
    forall d {:trigger Reducible(b, d)} :: d in Defs(b) && Rank(b, d) > i ==> d in generated || !Reducible(b, d)
  }

  lemma PassedNext(b: Block, i: nat, next: nat, generated: set<nat>)
    requires i < |b| && next == i + 1 && Passed(b, next, generated) && b[i].def in Defs(b)
    requires b[i].def in generated || !Reducible(b, b[i].def)
    ensures Passed(b, i, generated)
  {
    forall d | d in Defs(b) && Rank(b, d) > i ensures d in generated || !Reducible(b, d) {
      if Rank(b, d) <= next {
        DefOfRank(b, d, i);
      }
    }
  }

  lemma {:induction false} DefOfRank(b: Block, d: nat, i: nat)
    requires i < |b| && Rank(b, d) == i + 1
    ensures b[i].def == d
  {
    if Last(b).def != d {
      DefOfRank(Init(b), d, i);
    }
  }

  // What the scan has passed stays free of roots when a root is replaced.
  lemma PassedRoot(w: Rewrite, t: Tree, t': Tree, generated: set<nat>)
    requires Emits(w, t, t') && Passed(Before(w), |w.pre| + 1, generated)
    ensures Passed(After(w, t), Rank(After(w, t), NewRoot(w)), generated + Defs(Lines(w)))
  {
    var b, b' := Before(w), After(w, t);
    RankOfLine(w.pre, w.r, w.post);
    forall d | d in Defs(b') && Rank(b', d) > Rank(b', NewRoot(w)) && d !in generated + Defs(Lines(w))
      ensures !Reducible(b', d)
    {
      BehindRoot(w, t, t', d);
      BehindStays(w, t, t', d);
      if Reducible(b', d) {
        NoNewRoot(w, t, t', d);
      }
    }
  }

  // The steps of a scan.
  datatype Steps = NoStep | Step(earlier: Steps, s: RootStep)

  // The values that the steps define, and the first free name after them.
  ghost function NewDefs(steps: Steps): set<nat> {
    match steps
    case NoStep => {}
    case Step(earlier, s) => NewDefs(earlier) + Defs(Lines(s.w))
  }

  lemma NewDefsStep(steps: Steps, s: RootStep, news: set<nat>)
    requires news == Defs(Lines(s.w))
    ensures NewDefs(Step(steps, s)) == NewDefs(steps) + news
  {
  }

  ghost function NextName(b0: Block, steps: Steps): nat {
    match steps
    case NoStep => Unused(b0)
    case Step(_, s) => s.w.base + |s.w.code|
  }

  // The roots that were replaced on the way from b0 to b, the last one at the end. None of them was emitted.
  ghost predicate Scan(b0: Block, steps: Steps, b: Block, k: Modulus -> Costs) {
    match steps
    case NoStep => b == b0
    case Step(earlier, s) =>
      var before, d := Before(s.w), s.w.r.def;
      Scan(b0, earlier, before, k) && d in Defs(before) && d !in NewDefs(earlier) && Reducible(before, d) &&
      s.w.base == NextName(b0, earlier) && Reduces(before, b, s, k)
  }

  lemma {:induction false} ScanKeeps(b0: Block, steps: Steps, b: Block, k: Modulus -> Costs)
    requires Ssa(b0) && Scan(b0, steps, b, k)
    ensures SameEffects(b0, b) && Generated(b0, b, NewDefs(steps), NextName(b0, steps))
    ensures steps.Step? ==> HasRoot(b0)
  {
    match steps
    case NoStep =>
    case Step(earlier, s) =>
      ScanKeeps(b0, earlier, Before(s.w), k);
      RootKeepsEffects(s.w, s.t, s.t');
      SameEffectsTransitive(b0, Before(s.w), b);
      AfterDefs(s.w, s.t, s.t');
      GeneratedNext(b0, Before(s.w), s.w, b, LeafDefs(s.t), NewDefs(earlier));
  }

  // One root in the scan: less is left to look at, and what has been passed stays passed.
  lemma ScanRoot(b0: Block, steps: Steps, b: Block, i: nat, last: nat, b': Block, newRoot: nat, news: set<nat>,
                 base: nat, next: nat, k: Modulus -> Costs, s: RootStep)
    requires Scan(b0, steps, b, k) && i < |b| && last == i + 1 && Passed(b, last, NewDefs(steps))
    requires base == NextName(b0, steps)
    requires Replaced(b, i, b', newRoot, news, base, next, k, s)
    requires b[i].def in Defs(b) && b[i].def !in NewDefs(steps) && Reducible(b, b[i].def)
    ensures Scan(b0, Step(steps, s), b', k) && Passed(b', Rank(b', newRoot), NewDefs(Step(steps, s)))
    ensures NewDefs(Step(steps, s)) == NewDefs(steps) + news && next == NextName(b0, Step(steps, s))
    ensures Defs(b') - NewDefs(Step(steps, s)) < Defs(b) - NewDefs(steps)
  {
    NewDefsStep(steps, s, news);
    PassedRoot(s.w, s.t, s.t', NewDefs(steps));
    LessLeft(s.w, s.t, s.t', NewDefs(steps));
  }

  lemma LessLeft(w: Rewrite, t: Tree, t': Tree, generated: set<nat>)
    requires Emits(w, t, t') && w.r.def !in generated
    ensures Defs(After(w, t)) - (generated + Defs(Lines(w))) < Defs(Before(w)) - generated
  {
    AfterDefs(w, t, t');
    assert w.r.def in Defs(Before(w)) - generated;
  }

  // One instruction in the scan.
  method TryRoot(b: Block, i: nat, k: Modulus -> Costs, generated: set<nat>, base: nat)
    returns (done: bool, b': Block, newRoot: nat, news: set<nat>, next: nat, ghost step: seq<RootStep>)
    requires Ssa(b) && i < |b| && NamedBelow(Names(b), base)
    ensures b[i].def in Defs(b) && (done <==> b[i].def !in generated && Reducible(b, b[i].def))
    ensures !done ==> b' == b && next == base
    ensures done ==> |step| == 1 && Replaced(b, i, b', newRoot, news, base, next, k, step[0])
  {
    done, b', newRoot, news, next, step := false, b, 0, {}, base, [];
    DefAt(b, i);
    ReducibleRoot(b, b[i].def);
    if b[i].def in generated {
      return;
    }
    var candidate := IsRootCandidate(b, b[i].def);
    if candidate {
      ghost var s;
      done, b', newRoot, news, next, s := ReduceRoot(b, i, k, base);
      step := [s];
    }
  }

  // The whole block, scanned from its end: all opaque instructions, in their order, have the values they had, and no
  // instruction from the start is left that could be reduced. The block changes exactly when it has a root to reduce,
  // and each change is the reduction of a root.
  method RunOnBasicBlock(b0: Block, k: Modulus -> Costs)
    returns (b: Block, applied: bool, ghost steps: Steps)
    requires Ssa(b0)
    ensures SameEffects(b0, b) && Scan(b0, steps, b, k)
    ensures forall d :: d in Defs(b) * Defs(b0) ==> !Reducible(b, d)
    ensures applied <==> HasRoot(b0)
    ensures applied <==> steps != NoStep
  {
    b, applied, steps := b0, false, NoStep;
    var generated: set<nat>, next := {}, Unused(b0);
    var i: nat := |b|;
    while i > 0
      invariant i <= |b| && Scan(b0, steps, b, k) && Passed(b, i, generated)
      invariant generated == NewDefs(steps) && next == NextName(b0, steps)
      invariant applied <==> steps != NoStep
      decreases Defs(b) - generated, i
    {
      ScanReady(b0, steps, b, k);
      var done, b', newRoot, news, next';
      ghost var step;
      var j := i - 1;
      done, b', newRoot, news, next', step := TryRoot(b, j, k, generated, next);
      if done {
        ScanRoot(b0, steps, b, j, i, b', newRoot, news, next, next', k, step[0]);
        applied, b, generated, next, steps := true, b', generated + news, next', Step(steps, step[0]);
        i := Rank(b, newRoot);
      } else {
        PassedNext(b, j, i, generated);
        i := j;
      }
    }
    ScanEnds(b0, steps, b, k);
  }

  lemma ScanReady(b0: Block, steps: Steps, b: Block, k: Modulus -> Costs)
    requires Ssa(b0) && Scan(b0, steps, b, k)
    ensures Ssa(b) && NamedBelow(Names(b), NextName(b0, steps))
  {
    ScanKeeps(b0, steps, b, k);
  }

  lemma ScanEnds(b0: Block, steps: Steps, b: Block, k: Modulus -> Costs)
    requires Ssa(b0) && Scan(b0, steps, b, k) && Passed(b, 0, NewDefs(steps))
    ensures SameEffects(b0, b) && forall d :: d in Defs(b) * Defs(b0) ==> !Reducible(b, d)
    ensures HasRoot(b0) <==> steps != NoStep
  {
    ScanKeeps(b0, steps, b, k);
    forall d | d in Defs(b) ensures Rank(b, d) > 0 {
    }
  }
}
