// Whole runs: a program over aggregates and the program over its scalars.
module CsroaRuns {
  import opened Cells
  import opened Modular
  import opened CsroaTypes
  import opened CsroaExpand
  import opened CsroaAccess

  type Env = nat -> int

  // Loads and stores through index chains, and any other computation: on the variables of the program, among which
  // are the cells of memory that is not expanded.
  datatype Op =
    | Load(dst: nat, id: nat, chain: seq<Idx>, ty: Ty)
    | Store(id: nat, chain: seq<Idx>, ty: Ty, src: nat)
    | Compute(f: Env -> Env)

  datatype NewOp =
    | NewLoad(dst: nat, access: Access)
    | NewStore(access: Access, src: nat)
    | NewCompute(f: Env -> Env)

  type AggregateMemory = map<(nat, seq<nat>), int>
  type ScalarMemory = map<nat, int>

  function Assign(env: Env, x: nat, v: int): Env {
    (y: nat) => if y == x then v else env(y)
  }

  // The variables that were expanded: separate, non-empty, and small enough for 32-bit indices.
  ghost predicate Bases(types: Types, exp: Expansion, next: nat, bases: set<nat>)
    requires WellFormed(types, exp, next)
  {
    forall id :: id in bases ==>
      Disaggregated(types, exp, next, id) && IsRoot(exp, id) && NonEmpty(types[id]) && Count(types[id]) <= WORD
  }

  ghost predicate Accessible(types: Types, bases: set<nat>, id: nat, chain: seq<Idx>, ty: Ty, env: Env) {
    id in bases && id in types && InBounds(types[id], chain, env) && TypeAt(types[id], PathOf(chain, env)) == ty
  }

  // The run of the original program stays in bounds, with accesses of the right type.
  ghost predicate Defined(ops: seq<Op>, types: Types, bases: set<nat>, env: Env, mem: AggregateMemory) {
    ops == [] || match ops[0]
      case Load(dst, id, chain, ty) =>
        Accessible(types, bases, id, chain, ty, env) &&
        Defined(ops[1..], types, bases, Assign(env, dst, ReadCell(mem, (id, PathOf(chain, env)))), mem)
      case Store(id, chain, ty, src) =>
        Accessible(types, bases, id, chain, ty, env) &&
        Defined(ops[1..], types, bases, env, mem[(id, PathOf(chain, env)) := env(src)])
      case Compute(f) =>
        Defined(ops[1..], types, bases, f(env), mem)
  }

  // The values loaded by the original program, and its final environment and memory.
  ghost function Run(ops: seq<Op>, types: Types, bases: set<nat>, env: Env, mem: AggregateMemory)
    : (seq<int>, Env, AggregateMemory)
    requires Defined(ops, types, bases, env, mem)
  {
    if ops == [] then ([], env, mem) else match ops[0]
      case Load(dst, id, chain, ty) =>
        var v := ReadCell(mem, (id, PathOf(chain, env)));
        var (vs, e, m) := Run(ops[1..], types, bases, Assign(env, dst, v), mem);
        ([v] + vs, e, m)
      case Store(id, chain, ty, src) =>
        Run(ops[1..], types, bases, env, mem[(id, PathOf(chain, env)) := env(src)])
      case Compute(f) =>
        Run(ops[1..], types, bases, f(env), mem)
  }

  // The rewritten program; an access that finds no scalar loads undefined data, here 0.
  function RunScalars(ops: seq<NewOp>, env: Env, mem: ScalarMemory): (seq<int>, Env, ScalarMemory) {
    if ops == [] then ([], env, mem) else match ops[0]
      case NewLoad(dst, access) =>
        var e := Target(access, env);
        var v := if e.Some? then ReadCell(mem, e.value) else 0;
        var (vs, env', m) := RunScalars(ops[1..], Assign(env, dst, v), mem);
        ([v] + vs, env', m)
      case NewStore(access, src) =>
        var e := Target(access, env);
        RunScalars(ops[1..], env, if e.Some? then mem[e.value := env(src)] else mem)
      case NewCompute(f) =>
        RunScalars(ops[1..], f(env), mem)
  }

  // The second program is the first with every access rewritten.
  ghost predicate RewrittenProgram(ops: seq<Op>, news: seq<NewOp>, types: Types, exp: Expansion) {
    |ops| == |news| &&
    forall i :: 0 <= i < |ops| ==> match ops[i]
      case Load(dst, id, chain, ty) =>
        news[i].NewLoad? && news[i].dst == dst && id in types && !news[i].access.Failed? &&
        Rewritten(types, exp, id, chain, ty, news[i].access)
      case Store(id, chain, ty, src) =>
        news[i].NewStore? && news[i].src == src && id in types && !news[i].access.Failed? &&
        Rewritten(types, exp, id, chain, ty, news[i].access)
      case Compute(f) => news[i] == NewCompute(f)
  }

  // Every scalar holds what the aggregate holds at its path.
  ghost predicate Related(types: Types, exp: Expansion, bases: set<nat>, agg: AggregateMemory, scalars: ScalarMemory) {
    forall id, p: seq<nat> :: id in bases && id in types && FullPath(types[id], p) ==>
      Element(exp, id, p).Some? && ReadCell(agg, (id, p)) == ReadCell(scalars, Element(exp, id, p).value)
  }

  lemma StoreKeepsRelated(types: Types, exp: Expansion, next: nat, bases: set<nat>, agg: AggregateMemory,
                          scalars: ScalarMemory, id: nat, p: seq<nat>, v: int)
    requires WellFormed(types, exp, next) && Bases(types, exp, next, bases) && id in bases && id in types
    requires FullPath(types[id], p) && Related(types, exp, bases, agg, scalars)
    ensures Element(exp, id, p).Some?
    ensures Related(types, exp, bases, agg[(id, p) := v], scalars[Element(exp, id, p).value := v])
  {
    var agg', scalars' := agg[(id, p) := v], scalars[Element(exp, id, p).value := v];
    forall id', p': seq<nat> | id' in bases && id' in types && FullPath(types[id'], p')
      ensures Element(exp, id', p').Some?
      ensures ReadCell(agg', (id', p')) == ReadCell(scalars', Element(exp, id', p').value)
    {
      if Element(exp, id', p') == Element(exp, id, p) {
        ElementInjective(types, exp, next, id', p', id, p);
      }
    }
  }

  // The scalar program loads the same values, computes the same and leaves related memory, on every run.
  lemma {:induction false} RunsAgree(ops: seq<Op>, news: seq<NewOp>, types: Types, exp: Expansion, next: nat,
                                     bases: set<nat>, env: Env, agg: AggregateMemory, scalars: ScalarMemory)
    requires WellFormed(types, exp, next) && Bases(types, exp, next, bases)
    requires RewrittenProgram(ops, news, types, exp) && Defined(ops, types, bases, env, agg)
    requires Related(types, exp, bases, agg, scalars)
    ensures var (vs, env1, agg1) := Run(ops, types, bases, env, agg);
      var (ws, env2, scalars2) := RunScalars(news, env, scalars);
      vs == ws && env1 == env2 && Related(types, exp, bases, agg1, scalars2)
    decreases |ops|
  {
    if ops != [] {
      assert RewrittenProgram(ops[1..], news[1..], types, exp);
      match ops[0]
      case Load(dst, id, chain, ty) =>
        AccessIsElement(types, exp, next, id, chain, ty, news[0].access, env);
        var v := ReadCell(agg, (id, PathOf(chain, env)));
        RunsAgree(ops[1..], news[1..], types, exp, next, bases, Assign(env, dst, v), agg, scalars);
      case Store(id, chain, ty, src) =>
        AccessIsElement(types, exp, next, id, chain, ty, news[0].access, env);
        var p := PathOf(chain, env);
        StoreKeepsRelated(types, exp, next, bases, agg, scalars, id, p, env(src));
        RunsAgree(ops[1..], news[1..], types, exp, next, bases, env, agg[(id, p) := env(src)],
                  scalars[Element(exp, id, p).value := env(src)]);
      case Compute(f) =>
        RunsAgree(ops[1..], news[1..], types, exp, next, bases, f(env), agg, scalars);
    }
  }
}
