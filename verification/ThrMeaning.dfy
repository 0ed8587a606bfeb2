// The value of an operation tree in wrap-around arithmetic depends on its groups only.
module ThrMeaning {
  import opened Modular
  import opened Collections
  import opened ThrTree
  import opened ThrCollect

  function Apply(op: Opcode, a: int, b: int): int {
    match op
    case Add => a + b
    case Mul => a * b
    case Other => 0
  }

  // The value of a tree in integers of modulus m, when leaf values are given by env.
  ghost function Eval(t: Tree, env: nat -> int, m: nat): int
    requires m > 0
  {
    match t
    case Leaf(n) => env(n.def) % m
    case Inner(n, l, r) => Apply(n.op, Eval(l, env, m), Eval(r, env, m)) % m
  }

  // The value in unbounded integers.
  ghost function Exact(t: Tree, env: nat -> int): int {
    match t
    case Leaf(n) => env(n.def)
    case Inner(n, l, r) => Apply(n.op, Exact(l, env), Exact(r, env))
  }

  lemma ModApply(op: Opcode, a: int, b: int, m: nat)
    requires m > 0
    ensures Apply(op, a % m, b % m) % m == Apply(op, a, b) % m
  {
    var p, q := a / m, b / m;
    assert a == p * m + a % m && b == q * m + b % m;
    match op
    case Add =>
      assert a + b == (a % m + b % m) + (p + q) * m;
      ModQuotient(a + b, a % m + b % m, m, p + q);
    case Mul =>
      var k := p * b + (a % m) * q;
      assert a * b == (p * m) * b + (a % m) * (q * m + b % m);
      assert (p * m) * b == (p * b) * m;
      assert (a % m) * (q * m + b % m) == ((a % m) * q) * m + (a % m) * (b % m);
      assert a * b == (a % m) * (b % m) + k * m;
      ModQuotient(a * b, (a % m) * (b % m), m, k);
    case Other =>
  }

  lemma {:induction false} EvalIsExact(t: Tree, env: nat -> int, m: nat)
    requires m > 0
    ensures Eval(t, env, m) == Exact(t, env) % m
  {
    if t.Inner? {
      EvalIsExact(t.l, env, m);
      EvalIsExact(t.r, env, m);
      ModApply(t.n.op, Exact(t.l, env), Exact(t.r, env), m);
    }
  }

  function Unit(op: Opcode): int {
    if op.Mul? then 1 else 0
  }

  ghost function Fold(op: Opcode, f: seq<Tree>, env: nat -> int): int {
    if f == [] then Unit(op) else Apply(op, Exact(f[0], env), Fold(op, f[1..], env))
  }

  lemma {:induction false} FoldAppend(op: Opcode, a: seq<Tree>, b: seq<Tree>, env: nat -> int)
    requires IsCommutative(op)
    ensures Fold(op, a + b, env) == Apply(op, Fold(op, a, env), Fold(op, b, env))
  {
    if a == [] {
      assert a + b == b;
    } else {
      FoldAppend(op, a[1..], b, env);
      assert (a + b)[1..] == a[1..] + b;
      Associate(op, Exact(a[0], env), Fold(op, a[1..], env), Fold(op, b, env));
    }
  }

  lemma Associate(op: Opcode, a: int, b: int, c: int)
    requires IsCommutative(op)
    ensures Apply(op, a, Apply(op, b, c)) == Apply(op, Apply(op, a, b), c)
    ensures Apply(op, a, Apply(op, b, c)) == Apply(op, b, Apply(op, a, c))
  {
  }

  lemma {:induction false} FoldFrontier(t: Tree, op: Opcode, env: nat -> int)
    requires IsCommutative(op)
    ensures Fold(op, Frontier(t, op), env) == Exact(t, env)
  {
    if InGroup(t, op) {
      FoldFrontier(t.l, op, env);
      FoldFrontier(t.r, op, env);
      FoldAppend(op, Frontier(t.l, op), Frontier(t.r, op), env);
    } else {
      assert [t][1..] == [];
    }
  }

  // A group is as large as it can be.
  lemma {:induction false} FrontierIsMaximal(t: Tree, op: Opcode)
    ensures forall s :: s in Frontier(t, op) ==> s in Subs(t) && !(s.Inner? && s.n.op == op)
    ensures forall n :: n in GroupNodes(t, op) ==> n.op == op
  {
    if t.Inner? && t.n.op == op {
      FrontierIsMaximal(t.l, op);
      FrontierIsMaximal(t.r, op);
    }
  }

  ghost function SumOf(f: seq<Tree>, env: nat -> int): int {
    if f == [] then 0 else Exact(f[0], env) + SumOf(f[1..], env)
  }

  ghost function ProductOf(f: seq<Tree>, env: nat -> int): int {
    if f == [] then 1 else Exact(f[0], env) * ProductOf(f[1..], env)
  }

  lemma {:induction false} FoldIs(op: Opcode, f: seq<Tree>, env: nat -> int)
    ensures op.Add? ==> Fold(op, f, env) == SumOf(f, env)
    ensures op.Mul? ==> Fold(op, f, env) == ProductOf(f, env)
  {
    if f != [] {
      FoldIs(op, f[1..], env);
    }
  }

  // A group of additions is the sum of its operands, and one of multiplications the product, in the width of the tree.
  lemma GroupValue(t: Tree, env: nat -> int, m: nat)
    requires m > 0
    ensures Eval(t, env, m) == SumOf(Frontier(t, Add), env) % m == ProductOf(Frontier(t, Mul), env) % m
  {
    EvalIsExact(t, env, m);
    FoldFrontier(t, Add, env);
    FoldFrontier(t, Mul, env);
    FoldIs(Add, Frontier(t, Add), env);
    FoldIs(Mul, Frontier(t, Mul), env);
  }

  ghost function FlattenOf(): Tree -> Flat {
    t => Flatten(t)
  }

  lemma {:induction false} FlatKidsAreFlat(t: Tree, op: Opcode)
    ensures multiset(Map(FlattenOf(), Frontier(t, op))) == FlatKids(t, op)
  {
    if InGroup(t, op) {
      FlatKidsAreFlat(t.l, op);
      FlatKidsAreFlat(t.r, op);
      MapAppend(FlattenOf(), Frontier(t.l, op), Frontier(t.r, op));
    }
  }

  lemma MapWithout<T, U>(f: T -> U, p: seq<T>, i: nat)
    requires i < |p|
    ensures Map(f, p[..i] + p[i + 1..]) == Map(f, p)[..i] + Map(f, p)[i + 1..]
  {
    MapAppend(f, p[..i], p[i + 1..]);
    assert Map(f, p[..i]) == Map(f, p)[..i];
    assert Map(f, p[i + 1..]) == Map(f, p)[i + 1..];
  }

  // A list with the same images has an element for the first one, and still the same images without it.
  lemma SameImages<T, U>(f: T -> U, s: seq<T>, p: seq<T>) returns (i: nat)
    requires s != [] && multiset(Map(f, s)) == multiset(Map(f, p))
    ensures i < |p| && f(p[i]) == f(s[0])
    ensures multiset(Map(f, s[1..])) == multiset(Map(f, p[..i] + p[i + 1..]))
  {
    var ms, mp := Map(f, s), Map(f, p);
    i := PermHead(ms, mp);
    assert ms[1..] == Map(f, s[1..]);
    MapWithout(f, p, i);
  }

  ghost predicate Within(f: seq<Tree>, size: nat) {
    forall s :: s in f ==> Size(s) < size
  }

  lemma {:induction false} FrontierSizes(t: Tree, op: Opcode)
    ensures forall s :: s in Frontier(t, op) ==> Size(s) <= Size(t)
    ensures InGroup(t, op) ==> Within(Frontier(t, op), Size(t))
  {
    if InGroup(t, op) {
      FrontierSizes(t.l, op);
      FrontierSizes(t.r, op);
    }
  }

  lemma FlatGroups(t: Tree, t': Tree)
    requires t.Inner? && Flatten(t) == Flatten(t')
    ensures t'.Inner? && t'.n.op == t.n.op
    ensures multiset(Map(FlattenOf(), Frontier(t, t.n.op))) == multiset(Map(FlattenOf(), Frontier(t', t.n.op)))
  {
    FlatKidsAreFlat(t, t.n.op);
    FlatKidsAreFlat(t', t.n.op);
  }

  // Trees that differ in the order and bracketing inside groups only have the same value.
  lemma {:induction false} FlatValue(t: Tree, t': Tree, env: nat -> int)
    requires Flatten(t) == Flatten(t') && Arithmetic(t)
    ensures Exact(t, env) == Exact(t', env)
    decreases Size(t), 1, 0
  {
    if t.Inner? {
      var op := t.n.op;
      FlatGroups(t, t');
      FrontierSizes(t, op);
      FrontierArithmetic(t, op);
      FlatFold(op, Frontier(t, op), Frontier(t', op), env, Size(t));
      FoldFrontier(t, op, env);
      FoldFrontier(t', op, env);
    }
  }

  lemma {:induction false} FrontierArithmetic(t: Tree, op: Opcode)
    requires Arithmetic(t)
    ensures forall s :: s in Frontier(t, op) ==> Arithmetic(s)
  {
    if InGroup(t, op) {
      FrontierArithmetic(t.l, op);
      FrontierArithmetic(t.r, op);
    }
  }

  lemma {:induction false} FlatFold(op: Opcode, f: seq<Tree>, f': seq<Tree>, env: nat -> int, size: nat)
    requires IsCommutative(op) && Within(f, size) && forall s :: s in f ==> Arithmetic(s)
    requires multiset(Map(FlattenOf(), f)) == multiset(Map(FlattenOf(), f'))
    ensures Fold(op, f, env) == Fold(op, f', env)
    decreases size, 0, |f|
  {
    if f == [] {
      assert |multiset(Map(FlattenOf(), f'))| == 0;
    } else {
      var i := SameImages(FlattenOf(), f, f');
      FlatFold(op, f[1..], f'[..i] + f'[i + 1..], env, size);
      FlatValue(f[0], f'[i], env);
      FoldPulls(op, f', i, env);
    }
  }

  lemma FoldPulls(op: Opcode, f: seq<Tree>, i: nat, env: nat -> int)
    requires IsCommutative(op) && i < |f|
    ensures Fold(op, f, env) == Apply(op, Exact(f[i], env), Fold(op, f[..i] + f[i + 1..], env))
  {
    FoldAppend(op, f[..i], f[i..], env);
    FoldAppend(op, f[..i], f[i + 1..], env);
    assert f == f[..i] + f[i..];
    assert f[i..][1..] == f[i + 1..];
    Associate(op, Fold(op, f[..i], env), Exact(f[i], env), Fold(op, f[i + 1..], env));
  }

  // In-place rewriting keeps the value modulo the width, for every assignment to the leaves.
  lemma ReductionKeepsValue(t: Tree, t': Tree, env: nat -> int, m: nat)
    requires Flatten(t) == Flatten(t') && Arithmetic(t) && m > 0
    ensures Eval(t, env, m) == Eval(t', env, m)
  {
    FlatValue(t, t', env);
    EvalIsExact(t, env, m);
    EvalIsExact(t', env, m);
  }

  // The leaf nodes of a tree.
  ghost function LeavesM(t: Tree): multiset<Node> {
    match t
    case Leaf(n) => multiset{n}
    case Inner(_, l, r) => LeavesM(l) + LeavesM(r)
  }

  ghost function LeavesMOf(): Tree -> multiset<Node> {
    t => LeavesM(t)
  }

  lemma {:induction false} FrontierLeaves(t: Tree, op: Opcode)
    ensures UnionBy(LeavesMOf(), Frontier(t, op)) == LeavesM(t)
  {
    if InGroup(t, op) {
      FrontierLeaves(t.l, op);
      FrontierLeaves(t.r, op);
      FrontierUnion(LeavesMOf(), t, op);
    } else {
      UnionByCons(LeavesMOf(), t, []);
    }
  }

  // ... and they have the same leaves, as a multiset.
  lemma {:induction false} FlatLeaves(t: Tree, t': Tree)
    requires Flatten(t) == Flatten(t')
    ensures LeavesM(t) == LeavesM(t')
    decreases Size(t), 1, 0
  {
    if t.Inner? {
      var op := t.n.op;
      FlatGroups(t, t');
      FrontierSizes(t, op);
      FlatUnion(Frontier(t, op), Frontier(t', op), Size(t));
      FrontierLeaves(t, op);
      FrontierLeaves(t', op);
    }
  }

  lemma {:induction false} FlatUnion(f: seq<Tree>, f': seq<Tree>, size: nat)
    requires Within(f, size) && multiset(Map(FlattenOf(), f)) == multiset(Map(FlattenOf(), f'))
    ensures UnionBy(LeavesMOf(), f) == UnionBy(LeavesMOf(), f')
    decreases size, 0, |f|
  {
    if f == [] {
      assert |multiset(Map(FlattenOf(), f'))| == 0;
    } else {
      var i := SameImages(FlattenOf(), f, f');
      FlatUnion(f[1..], f'[..i] + f'[i + 1..], size);
      FlatLeaves(f[0], f'[i]);
      UnionPulls(LeavesMOf(), f', i);
    }
  }

  lemma UnionPulls<X>(u: Tree -> multiset<X>, f: seq<Tree>, i: nat)
    requires i < |f|
    ensures UnionBy(u, f) == u(f[i]) + UnionBy(u, f[..i] + f[i + 1..])
  {
    UnionByAppend(u, f[..i], f[i..]);
    UnionByAppend(u, f[..i], f[i + 1..]);
    assert f == f[..i] + f[i..];
    assert f[i..][1..] == f[i + 1..];
  }
}
