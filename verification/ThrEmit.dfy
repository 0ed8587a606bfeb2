// createIRs: instructions emitted in reverse breadth-first order, operands paired through a FIFO queue.
module ThrEmit {
  import opened Collections
  import opened ThrTree
  import opened ThrBfs
  import opened ThrMeaning

  // An operand is a value from outside the tree or the result of an emitted instruction.
  datatype Operand = Ext(def: nat) | Res(i: nat)
  datatype Instr = Instr(op: Opcode, a: Operand, b: Operand)

  // The instructions emitted so far and the queue of operand values, front first.
  datatype State = State(code: seq<Instr>, ops: seq<Operand>)

  ghost function Inners(q: seq<Tree>): seq<Tree> {
    if q == [] then [] else (if q[0].Inner? then [q[0]] else []) + Inners(q[1..])
  }

  // The inner trees of q, last first.
  ghost function RevInners(q: seq<Tree>): seq<Tree> {
    if q == [] then [] else RevInners(q[1..]) + (if q[0].Inner? then [q[0]] else [])
  }

  lemma {:induction false} RevInnersAppend(a: seq<Tree>, b: seq<Tree>)
    ensures RevInners(a + b) == RevInners(b) + RevInners(a)
  {
    if a == [] {
      assert a + b == b;
    } else {
      assert (a + b)[1..] == a[1..] + b;
      RevInnersAppend(a[1..], b);
    }
  }

  ghost function KidOps(s: Tree): nat {
    match s
    case Leaf(_) => 0
    case Inner(_, l, r) => (if l.Inner? then 1 else 0) + (if r.Inner? then 1 else 0)
  }

  // setLeftAndRightOperand and createInst for the node at the top of s.
  ghost function Step(st: State, s: Tree): State
    requires s.Inner? && KidOps(s) <= |st.ops|
  {
    var (a, b, rest) :=
      if s.l.Leaf? && s.r.Leaf? then (Ext(s.l.n.def), Ext(s.r.n.def), st.ops)
      else if s.l.Leaf? then (Ext(s.l.n.def), st.ops[0], st.ops[1..])
      else if s.r.Leaf? then (st.ops[0], Ext(s.r.n.def), st.ops[1..])
      else (st.ops[0], st.ops[1], st.ops[2..]);
    State(st.code + [Instr(s.n.op, a, b)], rest + [Res(|st.code|)])
  }

  // The nodes xs, processed from the back, never find too few operands in the queue.
  ghost predicate NeverEmpty(xs: seq<Tree>)
    decreases |xs|, 0
  {
    xs == [] || (NeverEmpty(xs[1..]) && xs[0].Inner? && KidOps(xs[0]) <= |Emitted(xs[1..]).ops|)
  }

  ghost function Emitted(xs: seq<Tree>): State
    requires NeverEmpty(xs)
    decreases |xs|, 1
  {
    if xs == [] then State([], []) else Step(Emitted(xs[1..]), xs[0])
  }

  // The operand o is the value of the tree t: the instructions behind it unfold to t, up to the order
  // of the two operands of an instruction.
  ghost predicate Denotes(o: Operand, t: Tree, code: seq<Instr>)
    decreases t
  {
    match t
    case Leaf(n) => o == Ext(n.def)
    case Inner(n, l, r) =>
      o.Res? && o.i < |code| && code[o.i].op == n.op &&
      var c, before := code[o.i], code[..o.i];
      (Denotes(c.a, l, before) && Denotes(c.b, r, before)) || (Denotes(c.a, r, before) && Denotes(c.b, l, before))
  }

  lemma DenotesLonger(o: Operand, t: Tree, code: seq<Instr>, more: seq<Instr>)
    requires Denotes(o, t, code)
    ensures Denotes(o, t, code + more)
  {
    if t.Inner? {
      assert (code + more)[..o.i] == code[..o.i];
    }
  }

  ghost predicate AllDenote(ops: seq<Operand>, ts: seq<Tree>, code: seq<Instr>) {
    |ops| == |ts| && forall i :: 0 <= i < |ops| ==> Denotes(ops[i], ts[i], code)
  }

  // One node: the queue holds the values of the waiting trees, last first, before and after.
  lemma StepDenotes(st: State, q: seq<Tree>)
    requires q != [] && q[0].Inner? && AllDenote(st.ops, RevInners(q[1..] + Kids(q[0])), st.code)
    ensures KidOps(q[0]) <= |st.ops|
    ensures AllDenote(Step(st, q[0]).ops, RevInners(q), Step(st, q[0]).code)
  {
    var s, rest := q[0], q[1..];
    RevInnersAppend(rest, Kids(s));
    KidsReversed(s);
    var k := KidOps(s);
    assert RevInners(rest + Kids(s))[k..] == RevInners(rest);
    var st' := Step(st, s);
    assert st'.ops == st.ops[k..] + [Res(|st.code|)];
    TopDenotes(st, s);
    forall i | 0 <= i < |st'.ops|
      ensures Denotes(st'.ops[i], RevInners(q)[i], st'.code)
    {
      if i < |st'.ops| - 1 {
        assert st'.ops[i] == st.ops[i + k];
        DenotesLonger(st.ops[i + k], RevInners(rest + Kids(s))[i + k], st.code, [st'.code[|st.code|]]);
        assert st'.code == st.code + [st'.code[|st.code|]];
      }
    }
  }

  ghost function RevKids(s: Tree): seq<Tree>
    requires s.Inner?
  {
    (if s.r.Inner? then [s.r] else []) + (if s.l.Inner? then [s.l] else [])
  }

  lemma KidsReversed(s: Tree)
    requires s.Inner?
    ensures RevInners(Kids(s)) == RevKids(s) && |RevKids(s)| == KidOps(s)
  {
    assert [s.l, s.r][1..] == [s.r];
    assert [s.r][1..] == [];
    assert RevInners([s.r]) == if s.r.Inner? then [s.r] else [];
  }

  // The instruction emitted for s uses exactly the values of the two children of s.
  lemma TopDenotes(st: State, s: Tree)
    requires s.Inner? && KidOps(s) <= |st.ops| && AllDenote(st.ops[..KidOps(s)], RevKids(s), st.code)
    ensures Denotes(Res(|st.code|), s, Step(st, s).code)
  {
    var st' := Step(st, s);
    var c := st'.code[|st.code|];
    assert st'.code[..|st.code|] == st.code;
    forall i | 0 <= i < KidOps(s)
      ensures Denotes(st.ops[i], RevKids(s)[i], st.code)
    {
      assert st.ops[..KidOps(s)][i] == st.ops[i];
    }
    if s.l.Inner? && s.r.Inner? {
      assert Denotes(c.a, s.r, st.code) && Denotes(c.b, s.l, st.code);
    } else {
      assert Denotes(c.a, s.l, st.code) && Denotes(c.b, s.r, st.code);
    }
  }

  // Reverse breadth-first order and the queue fit together: when the whole traversal of q has been
  // processed from the back, the queue holds exactly the values of the trees of q, last first.
  lemma {:induction false} EmissionMatches(q: seq<Tree>)
    ensures NeverEmpty(Inners(Bfs(q)))
    ensures AllDenote(Emitted(Inners(Bfs(q))).ops, RevInners(q), Emitted(Inners(Bfs(q))).code)
    ensures |Emitted(Inners(Bfs(q))).code| == |Inners(Bfs(q))|
    decreases SumBy(SizeOf(), q)
  {
    if q != [] {
      KidsSize(q[0], q[1..]);
      assert q == [q[0]] + q[1..];
      var next := q[1..] + Kids(q[0]);
      EmissionMatches(next);
      assert Bfs(q)[1..] == Bfs(next);
      var xs := Inners(Bfs(next));
      if q[0].Inner? {
        StepDenotes(Emitted(xs), q);
        assert Inners(Bfs(q)) == [q[0]] + xs;
        assert Inners(Bfs(q))[1..] == xs;
      } else {
        assert next == q[1..];
        assert Inners(Bfs(q)) == xs;
        assert RevInners(q) == RevInners(next);
      }
    }
  }

  // The value of an operand when the emitted instructions run in order.
  function Value(o: Operand, code: seq<Instr>, env: nat -> int, m: nat): int
    requires m > 0
    decreases |code|
  {
    match o
    case Ext(def) => env(def) % m
    case Res(i) =>
      if i < |code| then
        Apply(code[i].op, Value(code[i].a, code[..i], env, m), Value(code[i].b, code[..i], env, m)) % m
      else 0
  }

  lemma {:induction false} DenotedValue(o: Operand, t: Tree, code: seq<Instr>, env: nat -> int, m: nat)
    requires m > 0 && Denotes(o, t, code)
    ensures Value(o, code, env, m) == Eval(t, env, m)
    decreases t
  {
    if t.Inner? {
      var c, before := code[o.i], code[..o.i];
      if Denotes(c.a, t.l, before) && Denotes(c.b, t.r, before) {
        DenotedValue(c.a, t.l, before, env, m);
        DenotedValue(c.b, t.r, before, env, m);
      } else {
        DenotedValue(c.a, t.r, before, env, m);
        DenotedValue(c.b, t.l, before, env, m);
      }
    }
  }

  lemma {:induction false} InnersAppend(a: seq<Tree>, b: seq<Tree>)
    ensures Inners(a + b) == Inners(a) + Inners(b)
  {
    if a == [] {
      assert a + b == b;
    } else {
      assert (a + b)[1..] == a[1..] + b;
      InnersAppend(a[1..], b);
      Assoc(if a[0].Inner? then [a[0]] else [], Inners(a[1..]), Inners(b));
    }
  }

  lemma {:induction false} InnersMember(q: seq<Tree>, s: Tree)
    requires s in Inners(q)
    ensures s in q && s.Inner?
  {
    if s in Inners(q[1..]) {
      InnersMember(q[1..], s);
    }
  }

  // The vector of getOnlyNodes while leaves are erased: the nodes kept, then those not yet looked at.
  ghost predicate Erasing(nodes: seq<Node>, i: nat, seen: seq<Tree>, rest: seq<Tree>) {
    nodes == Tops(Inners(seen)) + Tops(rest) && i == |Inners(seen)|
  }

  lemma KeepStep(nodes: seq<Node>, i: nat, seen: seq<Tree>, s: Tree, rest: seq<Tree>)
    requires Erasing(nodes, i, seen, [s] + rest)
    ensures i < |nodes| && nodes[i] == s.n
    ensures s.Inner? ==> Erasing(nodes, i + 1, seen + [s], rest)
  {
    InnersAppend(seen, [s]);
    MapAppend(TopOf(), Inners(seen), Inners([s]));
    MapAppend(TopOf(), [s], rest);
    if s.Inner? {
      assert Inners([s]) == [s];
      Assoc(Tops(Inners(seen)), Tops([s]), Tops(rest));
    }
  }

  lemma EraseStep(nodes: seq<Node>, i: nat, seen: seq<Tree>, s: Tree, rest: seq<Tree>)
    requires Erasing(nodes, i, seen, [s] + rest) && s.Leaf?
    ensures i < |nodes| && Erasing(nodes[..i] + nodes[i + 1..], i, seen + [s], rest)
  {
    InnersAppend(seen, [s]);
    assert Inners([s]) == [];
    assert Inners(seen + [s]) == Inners(seen);
    MapAppend(TopOf(), [s], rest);
    assert Tops([s] + rest)[1..] == Tops(rest);
  }

  method GetOnlyNodes(n: Node, ghost t: Tree) returns (nodes: seq<Node>)
    requires t.n == n && Linked(t)
    ensures nodes == Tops(Inners(Bfs([t])))
  {
    Footprint(t);
    nodes := GetNodesAndLeavesByBFS(n, t);
    ghost var bs := Bfs([t]);
    ghost var seen, rest: seq<Tree> := [], bs;
    var i := 0;
    while i < |nodes|
      invariant Erasing(nodes, i, seen, rest) && bs == seen + rest && Linked(t)
      decreases |rest|
    {
      ghost var s, later := rest[0], rest[1..];
      assert rest == [s] + later;
      Shift(seen, s, later);
      KeepStep(nodes, i, seen, s, later);
      SubTop(t, s);
      if nodes[i].IsNode() {
        i := i + 1;
      } else {
        EraseStep(nodes, i, seen, s, later);
        nodes := nodes[..i] + nodes[i + 1..];
      }
      seen, rest := seen + [s], later;
    }
    assert rest == [];
    assert seen == bs;
  }

  lemma SubTop(t: Tree, s: Tree)
    requires Linked(t) && s in Bfs([t])
    ensures TopLinked(s)
    ensures s.Inner? ==> TopLinked(s.l) && TopLinked(s.r)
  {
    BfsIsSubs(t);
    SubsLinked(t, s);
    TopsLinked(s);
  }

  lemma TopsLinked(s: Tree)
    requires Linked(s)
    ensures TopLinked(s)
    ensures s.Inner? ==> TopLinked(s.l) && TopLinked(s.r)
  {
  }

  method SetLeftAndRightOperand(n: Node, ops: seq<Operand>, ghost s: Tree)
    returns (a: Operand, b: Operand, ops': seq<Operand>)
    requires s.Inner? && s.n == n && TopLinked(s) && TopLinked(s.l) && TopLinked(s.r) && KidOps(s) <= |ops|
    ensures forall code :: Step(State(code, ops), s) == State(code + [Instr(n.op, a, b)], ops' + [Res(|code|)])
  {
    var l, r := n.left, n.right;
    if !l.IsNode() && !r.IsNode() {
      a, b, ops' := Ext(l.def), Ext(r.def), ops;
    } else if !l.IsNode() {
      a, b, ops' := Ext(l.def), ops[0], ops[1..];
    } else if !r.IsNode() {
      a, b, ops' := ops[0], Ext(r.def), ops[1..];
    } else {
      a, ops' := ops[0], ops[1..];
      b, ops' := ops'[0], ops'[1..];
      assert ops' == ops[2..];
    }
  }

  lemma {:induction false} NeverEmptySuffix(xs: seq<Tree>, j: nat)
    requires NeverEmpty(xs) && j <= |xs|
    ensures NeverEmpty(xs[j..])
  {
    if j > 0 {
      NeverEmptySuffix(xs[1..], j - 1);
      assert xs[1..][j - 1..] == xs[j..];
    }
  }

  lemma InnersAreSubs(t: Tree)
    ensures forall s :: s in Inners(Bfs([t])) ==> s in Subs(t)
  {
    BfsIsSubs(t);
    forall s | s in Inners(Bfs([t])) ensures s in Subs(t) {
      InnersMember(Bfs([t]), s);
    }
  }

  // What is known when the node at position j of the vector is taken from its back.
  lemma EmitFacts(t: Tree, xs: seq<Tree>, j: nat, done: nat)
    requires Linked(t) && xs == Inners(Bfs([t])) && j < |xs| && done == j + 1 && NeverEmpty(xs)
    ensures xs[j].Inner? && TopLinked(xs[j]) && TopLinked(xs[j].l) && TopLinked(xs[j].r)
    ensures NeverEmpty(xs[done..]) && KidOps(xs[j]) <= |Emitted(xs[done..]).ops|
    ensures NeverEmpty(xs[j..]) && Emitted(xs[j..]) == Step(Emitted(xs[done..]), xs[j])
  {
    NeverEmptySuffix(xs, j);
    assert xs[j..][1..] == xs[done..];
    InnersMember(Bfs([t]), xs[j]);
    SubTop(t, xs[j]);
  }

  ghost function LeafDefs(t: Tree): set<nat> {
    match t
    case Leaf(n) => {n.def}
    case Inner(_, l, r) => LeafDefs(l) + LeafDefs(r)
  }

  lemma {:induction false} LeafDefsAreLeaves(t: Tree)
    ensures forall d :: d in LeafDefs(t) <==> exists n :: n in LeavesM(t) && n.def == d
  {
    match t
    case Leaf(n) => assert n in LeavesM(t);
    case Inner(_, l, r) =>
      LeafDefsAreLeaves(l);
      LeafDefsAreLeaves(r);
      forall d ensures d in LeafDefs(t) <==> exists n :: n in LeavesM(t) && n.def == d {
        if n :| n in LeavesM(l) && n.def == d {
          assert n in LeavesM(t);
        } else if n :| n in LeavesM(r) && n.def == d {
          assert n in LeavesM(t);
        }
      }
  }

  lemma {:induction false} SubLeafDefs(t: Tree, s: Tree)
    requires s in Subs(t) && Arithmetic(t)
    ensures LeafDefs(s) <= LeafDefs(t) && Arithmetic(s)
  {
    if s != t {
      if s in Subs(t.l) { SubLeafDefs(t.l, s); } else { SubLeafDefs(t.r, s); }
    }
  }

  // Each instruction uses leaves of the tree and results of earlier instructions only.
  ghost predicate OperandOk(o: Operand, n: nat, leaves: set<nat>) {
    match o
    case Ext(d) => d in leaves
    case Res(i) => i < n
  }

  ghost predicate Scoped(code: seq<Instr>, leaves: set<nat>) {
    forall i :: 0 <= i < |code| ==>
      IsCommutative(code[i].op) && OperandOk(code[i].a, i, leaves) && OperandOk(code[i].b, i, leaves)
  }

  ghost predicate StateScoped(st: State, leaves: set<nat>) {
    Scoped(st.code, leaves) && forall i :: 0 <= i < |st.ops| ==> OperandOk(st.ops[i], |st.code|, {})
  }

  lemma StepScoped(st: State, s: Tree, leaves: set<nat>)
    requires s.Inner? && KidOps(s) <= |st.ops| && StateScoped(st, leaves) && IsCommutative(s.n.op)
    requires s.l.Leaf? ==> s.l.n.def in leaves
    requires s.r.Leaf? ==> s.r.n.def in leaves
    ensures StateScoped(Step(st, s), leaves)
  {
  }

  lemma {:induction false} EmittedScoped(t: Tree, xs: seq<Tree>)
    requires NeverEmpty(xs) && Arithmetic(t) && forall s :: s in xs ==> s in Subs(t)
    ensures StateScoped(Emitted(xs), LeafDefs(t))
    decreases |xs|
  {
    if xs != [] {
      EmittedScoped(t, xs[1..]);
      SubLeafDefs(t, xs[0]);
      StepScoped(Emitted(xs[1..]), xs[0], LeafDefs(t));
    }
  }

  lemma EmissionScoped(t: Tree)
    requires Arithmetic(t)
    ensures NeverEmpty(Inners(Bfs([t]))) && Scoped(Emitted(Inners(Bfs([t]))).code, LeafDefs(t))
  {
    EmissionMatches([t]);
    InnersAreSubs(t);
    EmittedScoped(t, Inners(Bfs([t])));
  }

  // The whole tree leaves one operand, which is its value.
  lemma SingleResult(t: Tree)
    requires t.Inner?
    ensures NeverEmpty(Inners(Bfs([t])))
    ensures |Emitted(Inners(Bfs([t]))).ops| == 1 && |Emitted(Inners(Bfs([t]))).code| == |Inners(Bfs([t]))|
    ensures Denotes(Emitted(Inners(Bfs([t]))).ops[0], t, Emitted(Inners(Bfs([t]))).code)
  {
    EmissionMatches([t]);
    assert RevInners([t]) == [t];
  }

  // What the emitted code is: one instruction per inner node, and the last one denotes the whole tree.
  method CreateIRs(root: Node, ghost t: Tree) returns (code: seq<Instr>, result: Operand)
    requires t.n == root && t.Inner? && Linked(t) && Arithmetic(t)
    ensures Denotes(result, t, code) && |code| == |Inners(Bfs([t]))|
    ensures Scoped(code, LeafDefs(t))
  {
    Footprint(t);
    var nodes := GetOnlyNodes(root, t);
    ghost var xs := Inners(Bfs([t]));
    EmissionScoped(t);
    code := [];
    var ops: seq<Operand> := [];
    ghost var done := |nodes|;
    while nodes != []
      invariant nodes <= Tops(xs) && done == |nodes| && NeverEmpty(xs[done..])
      invariant Emitted(xs[done..]) == State(code, ops)
      decreases |nodes|
    {
      var j := |nodes| - 1;
      var n := nodes[j];
      EmitFacts(t, xs, j, done);
      var a, b;
      a, b, ops := SetLeftAndRightOperand(n, ops, xs[j]);
      ops := ops + [Res(|code|)];
      code := code + [Instr(n.op, a, b)];
      nodes := nodes[..j];
      done := j;
    }
    assert xs[done..] == xs;
    SingleResult(t);
    result := ops[0];
  }
}
