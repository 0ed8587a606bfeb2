// The operation tree of etc/clang_plugin/TreeHeightReduction.hpp: nodes that are linked in place,
// and the ghost shapes that say what a linked structure represents.
module ThrTree {
  import opened Collections

  datatype Opcode = Add | Mul | Other

  predicate IsCommutative(op: Opcode) {
    op.Add? || op.Mul?
  }

  // InstructionLatencyTable at the bit width of the tree.
  datatype CostTable = CostTable(add: real, mul: real)
  type Costs = k: CostTable | k.add >= 0.0 && k.mul >= 0.0 witness CostTable(0.0, 0.0)

  function InstructionLatency(op: Opcode, k: Costs): (c: real)
    ensures c >= 0.0
  {
    match op
    case Add => k.add
    case Mul => k.mul
    case Other => 0.0
  }

  class Node {
    const def: nat
    const op: Opcode
    const phi: bool
    var parent: Node?
    var left: Node?
    var right: Node?
    var latency: real
    var totalCost: int

    constructor (def: nat, op: Opcode, phi: bool)
      ensures this.def == def && this.op == op && this.phi == phi
      ensures parent == null && left == null && right == null
      ensures latency == 0.0 && totalCost == 0
    {
      this.def, this.op, this.phi := def, op, phi;
      parent, left, right := null, null, null;
      latency, totalCost := 0.0, 0;
    }

    predicate IsNode()
      reads this
    {
      left != null && right != null
    }

    // The children that a traversal pushes, left before right.
    function Children(): (c: seq<Node>)
      reads this
    {
      (if left != null then [left] else []) + (if right != null then [right] else [])
    }

    predicate IsConsideredAsLeaf()
      reads this
    {
      !IsNode() || !IsCommutative(op) || (parent != null && op != parent.op)
    }
  }

  // The shape of a linked structure.
  datatype Tree = Leaf(n: Node) | Inner(n: Node, l: Tree, r: Tree)

  ghost function NodesM(t: Tree): multiset<Node> {
    match t
    case Leaf(n) => multiset{n}
    case Inner(n, l, r) => multiset{n} + (NodesM(l) + NodesM(r))
  }

  ghost function Nodes(t: Tree): set<Node> {
    match t
    case Leaf(n) => {n}
    case Inner(n, l, r) => {n} + Nodes(l) + Nodes(r)
  }

  ghost function Below(t: Tree): set<Node> {
    match t
    case Leaf(n) => {}
    case Inner(n, l, r) => Nodes(l) + Nodes(r)
  }

  // The nodes of a shape exist; what a predicate over the shape reads is then framed.
  lemma Footprint(t: Tree)
    ensures forall o :: o in Nodes(t) ==> allocated(o)
    ensures forall o :: o in Below(t) ==> o in Nodes(t)
    ensures t.n in Nodes(t)
  {
  }

  // All subtrees, one per node.
  ghost function Subs(t: Tree): (m: multiset<Tree>)
    ensures t in m
    ensures forall s :: s in m ==> s.n in Nodes(t)
  {
    match t
    case Leaf(n) => multiset{t}
    case Inner(n, l, r) => multiset{t} + (Subs(l) + Subs(r))
  }

  ghost function Size(t: Tree): nat {
    match t
    case Leaf(_) => 1
    case Inner(_, l, r) => 1 + Size(l) + Size(r)
  }

  // Inner nodes are additions or multiplications, never phis.
  ghost predicate Arithmetic(t: Tree) {
    match t
    case Leaf(_) => true
    case Inner(n, l, r) => !n.phi && IsCommutative(n.op) && Arithmetic(l) && Arithmetic(r)
  }

  // No node occurs twice: neither shared nor its own descendant.
  ghost predicate Proper(t: Tree) {
    NoDup(NodesM(t)) && Arithmetic(t)
  }

  // The child links of the top node alone.
  ghost predicate TopLinked(t: Tree)
    reads t.n`left, t.n`right
  {
    match t
    case Leaf(n) => n.left == null && n.right == null
    case Inner(n, l, r) => n.left == l.n && n.right == r.n
  }

  // Child links follow the shape and parent links answer them. The parent of the top is free.
  ghost predicate Linked(t: Tree)
    reads Nodes(t)`left, Nodes(t)`right, Below(t)`parent
  {
    match t
    case Leaf(n) => n.left == null && n.right == null
    case Inner(n, l, r) =>
      n.left == l.n && n.right == r.n && l.n.parent == n && r.n.parent == n && Linked(l) && Linked(r)
  }

  function BaseLatency(n: Node): real {
    if n.phi then 100000.0 else 0.0
  }

  function MaxReal(a: real, b: real): real {
    if a < b then b else a
  }

  // The conversion of a double to the int parameter of setTotalCost.
  function TruncToInt(x: real): int {
    if x >= 0.0 then x.Floor else -(-x).Floor
  }

  // The latency of a tree, on its shape alone.
  ghost function Lat(t: Tree, k: Costs): real {
    match t
    case Leaf(n) => BaseLatency(n)
    case Inner(n, l, r) => MaxReal(Lat(l, k), Lat(r, k)) + InstructionLatency(n.op, k)
  }

  // The total cost of a tree; setTotalCost takes an int, so the sum is truncated at every node.
  ghost function Cost(t: Tree, k: Costs): int {
    match t
    case Leaf(n) => if n.phi then 100000 else 0
    case Inner(n, l, r) =>
      TruncToInt(((Cost(l, k) + Cost(r, k)) as real) + InstructionLatency(n.op, k))
  }

  ghost predicate NodeCurrent(t: Tree, k: Costs)
    reads t.n`latency, t.n`totalCost
  {
    t.n.latency == Lat(t, k) && t.n.totalCost == Cost(t, k)
  }

  ghost predicate Current(t: Tree, k: Costs)
    reads Nodes(t)`latency, Nodes(t)`totalCost
  {
    forall s :: s in Subs(t) ==> NodeCurrent(s, k)
  }

  lemma {:induction false} LatNonNegative(t: Tree, k: Costs)
    ensures Lat(t, k) >= 0.0 && Cost(t, k) >= 0
  {
    match t
    case Leaf(_) =>
    case Inner(_, l, r) =>
      LatNonNegative(l, k);
      LatNonNegative(r, k);
  }

  // The inner nodes of the group of operator op at the top of t, and the roots below that group.
  ghost function GroupNodes(t: Tree, op: Opcode): multiset<Node> {
    match t
    case Leaf(_) => multiset{}
    case Inner(n, l, r) =>
      if n.op == op then multiset{n} + (GroupNodes(l, op) + GroupNodes(r, op)) else multiset{}
  }

  ghost function Frontier(t: Tree, op: Opcode): (f: seq<Tree>)
    ensures f != []
  {
    match t
    case Leaf(_) => [t]
    case Inner(n, l, r) =>
      if n.op == op then Frontier(l, op) + Frontier(r, op) else [t]
  }

  // A tree up to the order and the bracketing inside each group of equal operators.
  datatype Flat = FLeaf(n: Node) | Group(op: Opcode, nodes: multiset<Node>, kids: multiset<Flat>)

  ghost predicate InGroup(t: Tree, op: Opcode) {
    t.Inner? && t.n.op == op
  }

  ghost function Flatten(t: Tree): Flat
    decreases t, 1
  {
    match t
    case Leaf(n) => FLeaf(n)
    case Inner(n, l, r) => Group(n.op, GroupNodes(t, n.op), FlatKids(t, n.op))
  }

  ghost function FlatKids(t: Tree, op: Opcode): multiset<Flat>
    decreases t, if InGroup(t, op) then 0 else 2
  {
    if InGroup(t, op) then FlatKids(t.l, op) + FlatKids(t.r, op) else multiset{Flatten(t)}
  }
}
