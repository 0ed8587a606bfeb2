// The whole rewriting: variables are expanded and accesses rewritten.
module CsroaProgram {
  import opened Wrappers
  import opened Collections
  import opened Cells
  import opened CsroaTypes
  import opened CsroaExpand
  import opened CsroaAccess
  import opened CsroaGlobals
  import opened CsroaRuns

  // Accesses go to variables among bases.
  ghost predicate Accesses(ops: seq<Op>, types: Types, bases: set<nat>) {
    forall i :: 0 <= i < |ops| && !ops[i].Compute? ==> ops[i].id in bases && ops[i].id in types
  }

  // The pass stops at an access; the types of the variables and the indices decide it.
  ghost predicate StopsAt(op: Op, types: Types) {
    !op.Compute? && op.id in types && PointerStops(types[op.id], op.chain)
  }

  // Every access of the program is rewritten, unless the pass stops at one.
  method RewriteProgram(ops: seq<Op>, types: Types, exp: Expansion, ghost next: nat, ghost bases: set<nat>)
    returns (news: Option<seq<NewOp>>)
    requires WellFormed(types, exp, next) && Bases(types, exp, next, bases) && Accesses(ops, types, bases)
    ensures news.Some? ==> RewrittenProgram(ops, news.value, types, exp)
    ensures news.None? <==> exists i :: 0 <= i < |ops| && StopsAt(ops[i], types)
  {
    var done: seq<NewOp> := [];
    for i := 0 to |ops|
      invariant RewrittenProgram(ops[..i], done, types, exp)
      invariant forall j :: 0 <= j < i ==> !StopsAt(ops[j], types)
    {
      var op' := RewriteOp(ops[i], types, exp, next, bases);
      if op'.None? {
        return None;
      }
      done := done + [op'.value];
      assert ops[..i + 1] == ops[..i] + [ops[i]];
    }
    assert ops[..|ops|] == ops;
    return Some(done);
  }

  method RewriteOp(op: Op, types: Types, exp: Expansion, ghost next: nat, ghost bases: set<nat>)
    returns (op': Option<NewOp>)
    requires WellFormed(types, exp, next) && Bases(types, exp, next, bases) && Accesses([op], types, bases)
    ensures op'.Some? ==> RewrittenProgram([op], [op'.value], types, exp)
    ensures op'.None? <==> StopsAt(op, types)
  {
    assert [op][0] == op;
    match op
    case Compute(f) =>
      op' := Some(NewCompute(f));
    case Load(dst, id, chain, ty) =>
      var access := ProcessSinglePointer(types, exp, next, id, chain, ty);
      op' := if access.Failed? then None else Some(NewLoad(dst, access));
    case Store(id, chain, ty, src) =>
      var access := ProcessSinglePointer(types, exp, next, id, chain, ty);
      op' := if access.Failed? then None else Some(NewStore(access, src));
  }

  // On every run in bounds from related memories the scalar program loads the same values, ends with the same
  // variables, and leaves related memories.
  ghost predicate Agrees(ops: seq<Op>, news: seq<NewOp>, types: Types, exp: Expansion, bases: set<nat>, env: Env,
                         agg: AggregateMemory, scalars: ScalarMemory) {
    Defined(ops, types, bases, env, agg) && Related(types, exp, bases, agg, scalars) ==>
      var (vs, env1, agg1) := Run(ops, types, bases, env, agg);
      var (ws, env2, scalars2) := RunScalars(news, env, scalars);
      vs == ws && env1 == env2 && Related(types, exp, bases, agg1, scalars2)
  }

  // The variables at three moments: before, after the globals, and after the allocas have been expanded.
  datatype Stage = Stage(types: Types, exp: Expansion, next: nat)

  ghost predicate Sound(s: Stage) {
    WellFormed(s.types, s.exp, s.next)
  }

  ghost predicate Expanded(s: Stage, s': Stage, roots: set<nat>) {
    Sound(s) && Sound(s') && Grown(s.types, s.exp, s.next, s'.types, s'.exp, s'.next, roots) &&
    (forall x :: x in roots ==> Unexpanded(s.types, s.exp, x) && Disaggregated(s'.types, s'.exp, s'.next, x))
  }

  lemma AllAgree(ops: seq<Op>, news: seq<NewOp>, s: Stage, bases: set<nat>)
    requires Sound(s) && Bases(s.types, s.exp, s.next, bases) && RewrittenProgram(ops, news, s.types, s.exp)
    ensures forall env: Env, agg: AggregateMemory, scalars: ScalarMemory ::
      Agrees(ops, news, s.types, s.exp, bases, env, agg, scalars)
  {
    forall env: Env, agg: AggregateMemory, scalars: ScalarMemory
      ensures Agrees(ops, news, s.types, s.exp, bases, env, agg, scalars)
    {
      if Defined(ops, s.types, bases, env, agg) && Related(s.types, s.exp, bases, agg, scalars) {
        RunsAgree(ops, news, s.types, s.exp, s.next, bases, env, agg, scalars);
      }
    }
  }

  // The memory of the original program when it starts: a variable holds its initialiser. What an undefined constant
  // stands for is part of number, and may be anything.
  ghost predicate Starts(types: Types, init: map<nat, Val>, number: Val -> int, bases: set<nat>, agg: AggregateMemory) {
    forall id, p: seq<nat> ::
      id in bases && id in types && id in init && HasShape(init[id], types[id]) && FullPath(types[id], p) ==>
        ReadCell(agg, (id, p)) == number(ValueAt(init[id], types[id], p))
  }

  // The memory of the scalar program, with the variables vars, when it starts: what has no initialiser is undefined.
  ghost predicate StartsScalars(vars: Types, types: Types, init: map<nat, Val>, number: Val -> int,
                                scalars: ScalarMemory) {
    forall x :: x in vars ==> ReadCell(scalars, x) == number(if x in types && x in init then init[x] else Undef)
  }

  // The globals are still expanded after the allocas have been.
  lemma BothExpanded(s0: Stage, s1: Stage, s2: Stage, globals: set<nat>, allocas: set<nat>, x: nat)
    requires Expanded(s0, s1, globals) && Expanded(s1, s2, allocas) && globals !! allocas
    requires (forall y :: y in allocas ==> Unexpanded(s0.types, s0.exp, y)) && x in globals + allocas
    ensures Disaggregated(s2.types, s2.exp, s2.next, x) && IsRoot(s2.exp, x)
    ensures x in s0.types && s2.types[x] == s0.types[x]
  {
    if x in globals {
      DisaggregatedKept(s1.types, s1.exp, s1.next, s2.types, s2.exp, s2.next, allocas, x);
    }
    RootStays(s0.types, s0.exp, s0.next, s1.types, s1.exp, s1.next, globals, x);
    RootStays(s1.types, s1.exp, s1.next, s2.types, s2.exp, s2.next, allocas, x);
  }

  // An expanded global has its initialiser at every scalar.
  lemma GlobalStarts(s0: Stage, init0: map<nat, Val>, s1: Stage, init: map<nat, Val>, s2: Stage, allocas: set<nat>,
                     g: nat, p: seq<nat>, number: Val -> int, scalars: ScalarMemory)
    requires Expanded(s1, s2, allocas) && g !in allocas && Disaggregated(s1.types, s1.exp, s1.next, g)
    requires g in s0.types && g in init0 && s1.types[g] == s0.types[g]
    requires HasShape(init0[g], s0.types[g]) && FullPath(s0.types[g], p)
    requires LeafHolds(s1.types, s1.exp, init, g, p, ValueAt(init0[g], s0.types[g], p))
    requires StartsScalars(s2.types, s1.types, init, number, scalars)
    ensures Element(s2.exp, g, p).Some?
    ensures ReadCell(scalars, Element(s2.exp, g, p).value) == number(ValueAt(init0[g], s0.types[g], p))
  {
    ElementKept(s1.types, s1.exp, s1.next, s2.types, s2.exp, s2.next, allocas, g, p);
  }

  // An expanded alloca is undefined at every scalar.
  lemma AllocaStarts(s1: Stage, init: map<nat, Val>, s2: Stage, allocas: set<nat>, x: nat, p: seq<nat>,
                     number: Val -> int, scalars: ScalarMemory)
    requires Expanded(s1, s2, allocas) && x in allocas && x in init && init[x] == Undef && FullPath(s2.types[x], p)
    requires StartsScalars(s2.types, s1.types, init, number, scalars)
    ensures Element(s2.exp, x, p).Some? && ReadCell(scalars, Element(s2.exp, x, p).value) == number(Undef)
  {
    ElementExists(s2.types, s2.exp, s2.next, x, p);
    if p != [] {
      ElementIsNew(s2.types, s2.exp, s2.next, s1.next, x, p);
    }
  }

  // So the two programs start with related memories.
  lemma ProgramStarts(s0: Stage, init0: map<nat, Val>, s1: Stage, init: map<nat, Val>, s2: Stage,
                      globals: set<nat>, allocas: set<nat>, number: Val -> int, agg: AggregateMemory,
                      scalars: ScalarMemory)
    requires Expanded(s0, s1, globals) && Expanded(s1, s2, allocas) && globals !! allocas
    requires forall x :: x in globals + allocas ==>
      x in s0.types && x in init0 && HasShape(init0[x], s0.types[x]) && x in init && init[x] == init0[x]
    requires forall x :: x in allocas ==> init0[x] == Undef
    requires forall g, p: seq<nat> :: g in globals && FullPath(s0.types[g], p) ==>
      LeafHolds(s1.types, s1.exp, init, g, p, ValueAt(init0[g], s0.types[g], p))
    requires Starts(s0.types, init0, number, globals + allocas, agg)
    requires StartsScalars(s2.types, s1.types, init, number, scalars)
    ensures Related(s2.types, s2.exp, globals + allocas, agg, scalars)
  {
    forall x, p: seq<nat> | x in globals + allocas && x in s2.types && FullPath(s2.types[x], p)
      ensures Element(s2.exp, x, p).Some? && ReadCell(agg, (x, p)) == ReadCell(scalars, Element(s2.exp, x, p).value)
    {
      assert s2.types[x] == s0.types[x];
      if x in globals {
        GlobalStarts(s0, init0, s1, init, s2, allocas, x, p, number, scalars);
      } else {
        AllocaStarts(s1, init, s2, allocas, x, p, number, scalars);
      }
    }
  }

  lemma AllStart(s0: Stage, init0: map<nat, Val>, s1: Stage, init: map<nat, Val>, s2: Stage, globals: set<nat>,
                 allocas: set<nat>)
    requires Expanded(s0, s1, globals) && Expanded(s1, s2, allocas) && globals !! allocas
    requires forall x :: x in globals + allocas ==>
      x in s0.types && x in init0 && HasShape(init0[x], s0.types[x]) && x in init && init[x] == init0[x]
    requires forall x :: x in allocas ==> init0[x] == Undef
    requires forall g, p: seq<nat> :: g in globals && FullPath(s0.types[g], p) ==>
      LeafHolds(s1.types, s1.exp, init, g, p, ValueAt(init0[g], s0.types[g], p))
    ensures forall number: Val -> int, agg: AggregateMemory, scalars: ScalarMemory ::
      Starts(s0.types, init0, number, globals + allocas, agg) &&
        StartsScalars(s2.types, s1.types, init, number, scalars) ==>
        Related(s2.types, s2.exp, globals + allocas, agg, scalars)
  {
    forall number: Val -> int, agg: AggregateMemory, scalars: ScalarMemory |
      Starts(s0.types, init0, number, globals + allocas, agg) &&
        StartsScalars(s2.types, s1.types, init, number, scalars)
      ensures Related(s2.types, s2.exp, globals + allocas, agg, scalars)
    {
      ProgramStarts(s0, init0, s1, init, s2, globals, allocas, number, agg, scalars);
    }
  }

  // The whole program: the globals and allocas are expanded, its accesses are rewritten, and from the initial memories
  // the result agrees with it on every run, whatever stands in place of undefined values.
  method Disaggregate(g: Globals, globals: seq<nat>, allocas: seq<nat>, ops: seq<Op>)
    returns (m: Allocas, news: Option<seq<NewOp>>, ghost bases: set<nat>)
    requires g.Valid() && Distinct(globals) && Distinct(allocas) && Members(globals) !! Members(allocas)
    requires forall x :: x in globals || x in allocas ==>
      Unexpanded(g.types, g.exp, x) && NonEmpty(g.types[x]) && Count(g.types[x]) <= 0x1_0000_0000
    requires forall x :: x in allocas ==> x in g.init && g.init[x] == Undef
    requires forall i :: 0 <= i < |ops| && !ops[i].Compute? ==> ops[i].id in globals || ops[i].id in allocas
    modifies g
    ensures g.Valid() && m.Valid() && bases == Members(globals) + Members(allocas)
    ensures Bases(m.types, m.exp, m.next, bases)
    ensures forall x :: x in old(g.types) ==> x in m.types && m.types[x] == old(g.types)[x]
    ensures news.None? <==> exists i :: 0 <= i < |ops| && StopsAt(ops[i], old(g.types))
    ensures news.Some? ==> forall env: Env, agg: AggregateMemory, scalars: ScalarMemory ::
      Agrees(ops, news.value, m.types, m.exp, bases, env, agg, scalars)
    ensures forall number: Val -> int, agg: AggregateMemory, scalars: ScalarMemory ::
      Starts(old(g.types), old(g.init), number, bases, agg) &&
        StartsScalars(m.types, g.types, g.init, number, scalars) ==>
        Related(m.types, m.exp, bases, agg, scalars)
  {
    bases := Members(globals) + Members(allocas);
    ghost var s0, init0 := Stage(g.types, g.exp, g.next), g.init;
    var worklist := g.ExpandGlobals(globals);
    ghost var s1 := Stage(g.types, g.exp, g.next);
    m := new Allocas.From(g.types, g.exp, g.next);
    forall x | x in allocas ensures Unexpanded(m.types, m.exp, x) {
      GrownUnexpanded(s0.types, s0.exp, s0.next, s1.types, s1.exp, s1.next, Members(globals), x);
    }
    m.ExpandAllocas(allocas);
    ghost var s2 := Stage(m.types, m.exp, m.next);
    forall x | x in bases
      ensures Disaggregated(s2.types, s2.exp, s2.next, x) && IsRoot(s2.exp, x) && s2.types[x] == s0.types[x]
    {
      BothExpanded(s0, s1, s2, Members(globals), Members(allocas), x);
    }
    AllStart(s0, init0, s1, g.init, s2, Members(globals), Members(allocas));
    news := RewriteProgram(ops, m.types, m.exp, m.next, bases);
    if news.Some? {
      AllAgree(ops, news.value, s2, bases);
    }
  }
}
