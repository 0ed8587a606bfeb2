// Chains of address computations with run-time indices: what is emitted to flatten them, and the access it gives.
module CsroaChains {
  import opened Wrappers
  import opened Modular
  import opened CsroaTypes
  import opened CsroaExpand
  import opened CsroaAccess
  import opened CsroaRuns
  import opened CsroaGeps

  // An index operand: a constant or a variable, of a bit width.
  datatype Operand = Operand(i: Idx, bits: nat)
  datatype Address = Address(first: Operand, rest: seq<Operand>)

  // An addition emitted before the access, with the extension or truncation of its left operand.
  datatype Addition = Addition(dst: nat, last: Operand, first: Operand)

  function IndexOf(o: Operand, env: Env): Index {
    Index.Index(IdxValue(o.i, env), o.bits)
  }

  function IndicesOf(os: seq<Operand>, env: Env): (r: seq<Index>)
    ensures |r| == |os| && forall i :: 0 <= i < |r| ==> r[i] == IndexOf(os[i], env)
  {
    seq(|os|, i requires 0 <= i < |os| => IndexOf(os[i], env))
  }

  function GepOf(a: Address, env: Env): Gep {
    Gep(IndexOf(a.first, env), IndicesOf(a.rest, env))
  }

  function GepsOf(geps: seq<Address>, env: Env): (r: seq<Gep>)
    ensures |r| == |geps| && forall i :: 0 <= i < |r| ==> r[i] == GepOf(geps[i], env)
  {
    seq(|geps|, i requires 0 <= i < |geps| => GepOf(geps[i], env))
  }

  // Two constants are added at once; otherwise the sum is a new variable.
  function AddOperands(last: Operand, first: Operand, base: nat): Operand {
    if last.i.Const? && first.i.Const?
    then Operand(Const(AddFirst(Index.Index(last.i.v, last.bits), Index.Index(first.i.v, first.bits)).v), first.bits)
    else Operand(Dyn(base), first.bits)
  }

  function Emits(last: Operand, first: Operand, base: nat): seq<Addition> {
    if last.i.Const? && first.i.Const? then [] else [Addition(base, last, first)]
  }

  // The flattened chain; its sums are named from base on.
  function FlatChain(geps: seq<Address>, base: nat): (c: seq<Operand>)
    ensures c != []
  {
    if geps == [] then [Operand(Const(0), 32)]
    else
      var n := |geps| - 1;
      var c := FlatChain(geps[..n], base);
      c[..|c| - 1] + [AddOperands(c[|c| - 1], geps[n].first, base + n)] + geps[n].rest
  }

  // The additions that it needs.
  function FlatAdds(geps: seq<Address>, base: nat): seq<Addition> {
    if geps == [] then []
    else
      var n := |geps| - 1;
      var c := FlatChain(geps[..n], base);
      FlatAdds(geps[..n], base) + Emits(c[|c| - 1], geps[n].first, base + n)
  }

  method ComputeOperands(geps: seq<Address>, base: nat) returns (chain: seq<Operand>, adds: seq<Addition>)
    ensures chain == FlatChain(geps, base) && adds == FlatAdds(geps, base)
  {
    if geps == [] {
      return [Operand(Const(0), 32)], [];
    }
    var a, n := geps[|geps| - 1], base + |geps| - 1;
    chain, adds := ComputeOperands(geps[..|geps| - 1], base);
    FlatStep(geps, base);
    var last := chain[|chain| - 1];
    chain := chain[..|chain| - 1] + [AddOperands(last, a.first, n)];
    adds := adds + Emits(last, a.first, n);
    ghost var start := chain;
    for i := 0 to |a.rest|
      invariant chain == start + a.rest[..i]
    {
      chain := chain + [a.rest[i]];
      assert a.rest[..i + 1] == a.rest[..i] + [a.rest[i]];
    }
    assert a.rest[..|a.rest|] == a.rest;
  }

  function Execute(adds: seq<Addition>, env: Env): Env {
    if adds == [] then env
    else
      var before, a := Execute(adds[..|adds| - 1], env), adds[|adds| - 1];
      Assign(before, a.dst, AddFirst(IndexOf(a.last, before), IndexOf(a.first, before)).v)
  }

  ghost predicate Older(o: Operand, base: nat) {
    o.i.Dyn? ==> o.i.x < base
  }

  // The operands of the address computations are older than the new names.
  ghost predicate AllOlder(os: seq<Operand>, base: nat) {
    forall i :: 0 <= i < |os| ==> Older(os[i], base)
  }

  ghost predicate AddressesOlder(geps: seq<Address>, base: nat) {
    forall i :: 0 <= i < |geps| ==> Older(geps[i].first, base) && AllOlder(geps[i].rest, base)
  }

  ghost predicate SameBelow(env: Env, env': Env, base: nat) {
    forall x: nat :: x < base ==> env'(x) == env(x)
  }

  lemma {:induction false} SameIndices(os: seq<Operand>, env: Env, env': Env, base: nat)
    requires AllOlder(os, base) && SameBelow(env, env', base)
    ensures IndicesOf(os, env') == IndicesOf(os, env)
  {
    forall i | 0 <= i < |os| ensures IndexOf(os[i], env') == IndexOf(os[i], env) {
      assert Older(os[i], base);
    }
  }

  ghost predicate Constants(os: seq<Operand>) {
    forall i :: 0 <= i < |os| ==> os[i].i.Const?
  }

  // No addition of two constants is emitted, ...
  lemma {:induction false} OnlyNeededAdditions(geps: seq<Address>, base: nat)
    ensures forall a :: a in FlatAdds(geps, base) ==> a.last.i.Dyn? || a.first.i.Dyn?
    decreases |geps|
  {
    if geps != [] {
      OnlyNeededAdditions(geps[..|geps| - 1], base);
    }
  }

  // ... so none at all for constant indices, which stay constants.
  lemma {:induction false} ConstantsStay(geps: seq<Address>, base: nat)
    requires forall i :: 0 <= i < |geps| ==> geps[i].first.i.Const? && Constants(geps[i].rest)
    ensures FlatAdds(geps, base) == [] && Constants(FlatChain(geps, base))
    decreases |geps|
  {
    if geps != [] {
      var n := |geps| - 1;
      assert forall i :: 0 <= i < n ==> geps[..n][i] == geps[i];
      ConstantsStay(geps[..n], base);
      FlatStep(geps, base);
      ConstantStep(FlatChain(geps[..n], base), FlatAdds(geps[..n], base), geps[n], base + n,
                   FlatChain(geps, base), FlatAdds(geps, base));
    }
  }

  lemma ConstantStep(c: seq<Operand>, adds: seq<Addition>, a: Address, n: nat, c': seq<Operand>, adds': seq<Addition>)
    requires OneMore(c, adds, a, n, c', adds') && adds == [] && Constants(c)
    requires a.first.i.Const? && Constants(a.rest)
    ensures adds' == [] && Constants(c')
  {
  }

  // What executing the addition for one more address computation does.
  lemma AdditionValue(adds: seq<Addition>, last: Operand, first: Operand, n: nat, env: Env)
    requires Older(last, n) && Older(first, n)
    ensures var env0, env1 := Execute(adds, env), Execute(adds + Emits(last, first, n), env);
      SameBelow(env0, env1, n) &&
      IndexOf(AddOperands(last, first, n), env1) == AddFirst(IndexOf(last, env0), IndexOf(first, env0))
  {
    var more := Emits(last, first, n);
    if more == [] {
      assert adds + more == adds;
    } else {
      assert (adds + more)[..|adds|] == adds;
    }
  }

  lemma {:induction false} IndicesAppend(a: seq<Operand>, b: seq<Operand>, env: Env)
    ensures IndicesOf(a + b, env) == IndicesOf(a, env) + IndicesOf(b, env)
  {
  }

  // One more address computation: env0 before and env1 after its addition.
  lemma {:induction false} FlattenStep(c: seq<Operand>, sum: Operand, a: Address, n: nat, env0: Env, env1: Env)
    requires c != [] && AllOlder(c, n) && AllOlder(a.rest, n) && SameBelow(env0, env1, n)
    requires IndexOf(sum, env1) == AddFirst(IndexOf(c[|c| - 1], env0), IndexOf(a.first, env0))
    ensures IndicesOf(c[..|c| - 1] + [sum] + a.rest, env1)
         == IndicesOf(c, env0)[..|c| - 1] +
            [AddFirst(IndicesOf(c, env0)[|c| - 1], IndexOf(a.first, env0))] + IndicesOf(a.rest, env0)
  {
    var m := |c| - 1;
    SameIndices(c[..m], env0, env1, n);
    SameIndices(a.rest, env0, env1, n);
    IndicesAppend(c[..m] + [sum], a.rest, env1);
    IndicesAppend(c[..m], [sum], env1);
    assert c == c[..m] + [c[m]];
    IndicesAppend(c[..m], [c[m]], env0);
    assert IndicesOf([sum], env1) == [IndexOf(sum, env1)];
  }

  // The operands of the flattened chain are the given ones and the new names.
  lemma {:induction false} FlatOlder(geps: seq<Address>, base: nat)
    requires AddressesOlder(geps, base)
    ensures AllOlder(FlatChain(geps, base), base + |geps|)
  {
    if geps != [] {
      var n := |geps| - 1;
      FlatOlder(geps[..n], base);
      assert Older(geps[n].first, base) && AllOlder(geps[n].rest, base);
    }
  }

  lemma OlderChain(geps: seq<Address>, n: nat, base: nat)
    requires AddressesOlder(geps, base) && n < |geps|
    ensures AllOlder(FlatChain(geps[..n], base), base + n)
    ensures Older(geps[n].first, base) && AllOlder(geps[n].rest, base)
  {
    FlatOlder(geps[..n], base);
  }

  // The additions leave older variables alone and give the operands the values of the chain.
  ghost predicate Computes(c: seq<Operand>, adds: seq<Addition>, chain: seq<Index>, base: nat, env: Env) {
    SameBelow(env, Execute(adds, env), base) && IndicesOf(c, Execute(adds, env)) == chain
  }

  // After the additions the flattened operands have the values of the flattened chain, and older variables keep theirs.
  lemma {:induction false} FlattenedValues(geps: seq<Address>, base: nat, env: Env)
    requires AddressesOlder(geps, base)
    ensures Computes(FlatChain(geps, base), FlatAdds(geps, base), Chain(GepsOf(geps, env)), base, env)
    decreases |geps|
  {
    if geps != [] {
      var n := |geps| - 1;
      FlattenedValues(geps[..n], base, env);
      OlderChain(geps, n, base);
      FlatStep(geps, base);
      FlattenedOne(FlatChain(geps[..n], base), FlatAdds(geps[..n], base), geps[n], base + n, base, env,
                   FlatChain(geps, base), FlatAdds(geps, base), Chain(GepsOf(geps[..n], env)));
      ChainStep(geps, env);
    }
  }

  // One more address computation, whose sum is named n.
  ghost predicate OneMore(c: seq<Operand>, adds: seq<Addition>, a: Address, n: nat, c': seq<Operand>,
                          adds': seq<Addition>) {
    c != [] && adds' == adds + Emits(c[|c| - 1], a.first, n) &&
    c' == c[..|c| - 1] + [AddOperands(c[|c| - 1], a.first, n)] + a.rest
  }

  lemma FlatStep(geps: seq<Address>, base: nat)
    requires geps != []
    ensures var n := |geps| - 1;
      OneMore(FlatChain(geps[..n], base), FlatAdds(geps[..n], base), geps[n], base + n,
              FlatChain(geps, base), FlatAdds(geps, base))
  {
  }

  lemma ChainStep(geps: seq<Address>, env: Env)
    requires geps != []
    ensures var n := |geps| - 1;
      Chain(GepsOf(geps, env))
          == Added(Chain(GepsOf(geps[..n], env)), IndexOf(geps[n].first, env)) + IndicesOf(geps[n].rest, env)
  {
    assert GepsOf(geps, env)[..|geps| - 1] == GepsOf(geps[..|geps| - 1], env);
  }

  lemma FlattenedOne(c: seq<Operand>, adds: seq<Addition>, a: Address, n: nat, base: nat, env: Env,
                     c': seq<Operand>, adds': seq<Addition>, chain: seq<Index>)
    requires c != [] && AllOlder(c, n) && base <= n && Older(a.first, base) && AllOlder(a.rest, base)
    requires Computes(c, adds, chain, base, env) && OneMore(c, adds, a, n, c', adds')
    ensures chain != [] && Computes(c', adds', Added(chain, IndexOf(a.first, env)) + IndicesOf(a.rest, env), base, env)
  {
    AdditionValue(adds, c[|c| - 1], a.first, n, env);
    FlattenStep(c, AddOperands(c[|c| - 1], a.first, n), a, n, Execute(adds, env), Execute(adds', env));
    SameGep(a, env, Execute(adds, env), base);
  }

  lemma SameGep(a: Address, env: Env, env': Env, base: nat)
    requires Older(a.first, base) && AllOlder(a.rest, base) && SameBelow(env, env', base)
    ensures IndexOf(a.first, env') == IndexOf(a.first, env) && IndicesOf(a.rest, env') == IndicesOf(a.rest, env)
  {
    SameIndices(a.rest, env, env', base);
  }

  // The index path of an access: the first index of the flattened chain is dropped.
  function PathIdxs(c: seq<Operand>): (r: seq<Idx>)
    requires c != []
    ensures |r| == |c| - 1 && forall i :: 0 <= i < |r| ==> r[i] == c[i + 1].i
  {
    seq(|c| - 1, i requires 0 <= i < |c| - 1 => c[i + 1].i)
  }

  ghost predicate SameIdxs(chain: seq<Idx>, vals: seq<Index>, env: Env) {
    |vals| == |chain| && forall i :: 0 <= i < |chain| ==> vals[i].v == IdxValue(chain[i], env)
  }

  // One index adds to the emitted sum what the step into the object adds to the offset, also out of bounds.
  lemma StepIsFlat(q: Place, sum: Expr, chain: seq<Idx>, i: int, env: Env) returns (e: Expr, delta: int)
    requires chain != [] && i == IdxValue(chain[0], env) && Step(q, i).Some? && FlatFrom(sum, q.ty, chain).Some?
    ensures FlatFrom(sum, q.ty, chain) == FlatFrom(Add(sum, e), Step(q, i).value.ty, chain[1..])
    ensures delta == Step(q, i).value.offset - q.offset && Eval32(e, env) == delta % WORD
  {
    delta := Step(q, i).value.offset - q.offset;
    match q.ty
    case Array(_, elem) =>
      e := Mul(Count(elem), Expr.Index(chain[0]));
      ModProduct(Count(elem), i, WORD);
      assert Count(elem) * i == i * Count(elem);
    case Struct(fields) =>
      match chain[0]
      case Const(v) =>
        e := Lit(CountAll(fields[..v]));
      case Dyn(_) =>
        e := Mul(Count(fields[0]), Expr.Index(chain[0]));
        HomogeneousOffset(q.ty.fields, i);
        OffsetIsCount(q.ty, i);
        ModProduct(Count(fields[0]), i, WORD);
        assert Count(fields[0]) * i == i * Count(fields[0]);
  }

  // So the flat index is the distance of the place from the variable, in words.
  lemma {:induction false} WalkIsFlat(q: Place, sum: Expr, chain: seq<Idx>, vals: seq<Index>, env: Env)
    requires SameIdxs(chain, vals, env) && Walk(q, vals).Some? && FlatFrom(sum, q.ty, chain).Some?
    ensures Eval32(FlatFrom(sum, q.ty, chain).value, env)
         == (Eval32(sum, env) + (Walk(q, vals).value.offset - q.offset)) % WORD
    decreases |chain|
  {
    if chain != [] {
      var next := Step(q, vals[0].v).value;
      var e, delta := StepIsFlat(q, sum, chain, vals[0].v, env);
      WalkIsFlat(next, Add(sum, e), chain[1..], vals[1..], env);
      AddMod(sum, e, delta, Walk(q, vals).value.offset - next.offset, env);
    }
  }

  // The place of a scalar, first whole variables further on.
  ghost function Displaced(ty: Ty, first: int, p: seq<nat>): Place
    requires FullPath(ty, p)
  {
    Place(first * Count(ty) + Rank(ty, p), TypeAt(ty, p))
  }

  // In bounds, the address computations name, one after the other, the place of the access displaced by the first index
  // of the chain, which is dropped, if adding their first indices was harmless. It is the place of the access if and
  // only if this index is 0.
  lemma AccessIsPlace(ty: Ty, geps: seq<Address>, base: nat, env: Env, env': Env, p: seq<nat>)
    requires AddressesOlder(geps, base) && Flattenable(Place(0, ty), GepsOf(geps, env)) && NonEmpty(ty)
    requires ApplyAll(Place(0, ty), GepsOf(geps, env)).Some?
    requires env' == Execute(FlatAdds(geps, base), env) && InBounds(ty, PathIdxs(FlatChain(geps, base)), env')
    requires p == PathOf(PathIdxs(FlatChain(geps, base)), env')
    ensures var first := Chain(GepsOf(geps, env))[0].v;
      ApplyAll(Place(0, ty), GepsOf(geps, env)) == Some(Displaced(ty, first, p)) &&
      (Displaced(ty, first, p) == Displaced(ty, 0, p) <==> first == 0)
  {
    var chain := Chain(GepsOf(geps, env));
    FlattenedWalk(ty, geps, base, env, env');
    InBoundsWalk(ty, chain[0].v, PathIdxs(FlatChain(geps, base)), chain[1..], env', p);
  }

  lemma InBoundsWalk(ty: Ty, first: int, chain: seq<Idx>, vals: seq<Index>, env: Env, p: seq<nat>)
    requires InBounds(ty, chain, env) && SameIdxs(chain, vals, env) && p == PathOf(chain, env) && NonEmpty(ty)
    ensures Walk(Place(first * Count(ty), ty), vals) == Some(Displaced(ty, first, p))
    ensures Displaced(ty, first, p) == Displaced(ty, 0, p) <==> first == 0
  {
    PlaceIsRank(ty, first * Count(ty), vals, p);
    RankIsPosition(ty, p);
    NoMultiple(first, Count(ty));
  }

  lemma NoMultiple(first: int, count: nat)
    requires count > 0
    ensures first * count == 0 * count <==> first == 0
  {
    if first * count == 0 {
      SmallMultiple(first, count, 0);
    }
  }

  // An offset before the scalar at rank by that many whole variables is its flat index when that is 0 in words.
  lemma FlatIndexExact(m: int, rank: nat)
    requires rank < WORD
    ensures (rank - m) % WORD == rank <==> m % WORD == 0
  {
    if (rank - m) % WORD == rank {
      UniqueRemainder(m, -((rank - m) / WORD), 0, WORD);
    }
    if m % WORD == 0 {
      UniqueRemainder(rank - m, -(m / WORD), rank, WORD);
    }
  }

  lemma {:induction false} TakenFrom(branches: seq<Branch>, args: seq<Option<nat>>, k: nat) returns (j: nat)
    requires Taken(branches, args, k) != None
    ensures j < |branches| && branches[j].index == k && branches[j].param < |args|
    ensures Taken(branches, args, k) == args[branches[j].param]
  {
    if branches[0].index == k && branches[0].param < |args| {
      j := 0;
    } else {
      j := TakenFrom(branches[1..], args, k);
      j := j + 1;
    }
  }

  // A branch that is taken to the scalar of p is that of its slot.
  lemma TakenIsSlot(types: Types, exp: Expansion, next: nat, id: nat, slots: seq<Slot>, branches: seq<Branch>,
                    args: seq<Option<nat>>, chain: seq<Idx>, ty: Ty, k: nat, p: seq<nat>)
    requires WellFormed(types, exp, next) && IsRoot(exp, id) && id in types && NonEmpty(types[id])
    requires SlotsOf(slots, types[id], []) && BranchesOf(branches, args, slots, |slots|, chain, ty, exp, id)
    requires Taken(branches, args, k) != None && Taken(branches, args, k) == Element(exp, id, p)
    ensures k < |slots| && slots[k].path == p && Candidate(slots[k], chain, ty) && FullPath(types[id], p)
    ensures k == Rank(types[id], p)
  {
    var j := TakenFrom(branches, args, k);
    assert k < |slots| && Candidate(slots[k], chain, ty);
    var q := slots[k].path;
    assert args[j] == Element(exp, id, q);
    ElementInjective(types, exp, next, id, p, id, q);
    SlotPath(slots, types[id], k);
  }

  lemma SlotPath(slots: seq<Slot>, ty: Ty, k: nat)
    requires SlotsOf(slots, ty, []) && NonEmpty(ty) && k < |slots|
    ensures FullPath(ty, slots[k].path) && Rank(ty, slots[k].path) == k && slots[k].ty == TypeAt(ty, slots[k].path)
  {
    PositionIsRank(ty, k);
    assert slots[k].path == [] + Paths(ty)[k] == Paths(ty)[k];
  }

  // The branches lead to the scalar of p exactly at its flat index, if no constant index rules it out.
  lemma SlotTaken(types: Types, exp: Expansion, next: nat, id: nat, slots: seq<Slot>, branches: seq<Branch>,
                  args: seq<Option<nat>>, chain: seq<Idx>, ty: Ty, k: nat, p: seq<nat>)
    requires WellFormed(types, exp, next) && Disaggregated(types, exp, next, id) && IsRoot(exp, id)
    requires NonEmpty(types[id])
    requires SlotsOf(slots, types[id], []) && BranchesOf(branches, args, slots, |slots|, chain, ty, exp, id)
    requires FullPath(types[id], p) && TypeAt(types[id], p) == ty
    ensures Taken(branches, args, k) == Element(exp, id, p) <==>
      k == Rank(types[id], p) && Candidate(Slot(ty, p), chain, ty)
  {
    RankIsPosition(types[id], p);
    assert [] + p == p;
    assert slots[Rank(types[id], p)] == Slot(ty, p);
    ElementExists(types, exp, next, id, p);
    if Taken(branches, args, k) == Element(exp, id, p) {
      TakenIsSlot(types, exp, next, id, slots, branches, args, chain, ty, k, p);
    } else if k == Rank(types[id], p) && Candidate(Slot(ty, p), chain, ty) {
      BranchTaken(slots, branches, args, chain, ty, exp, id, k);
    }
  }

  // A constant path that has an element, and that leads to a scalar, is a full path.
  lemma {:induction false} ConstantIsFull(types: Types, exp: Expansion, next: nat, id: nat, q: seq<nat>, o: int,
                                          vals: seq<Index>)
    requires WellFormed(types, exp, next) && Disaggregated(types, exp, next, id) && Element(exp, id, q).Some?
    requires |vals| == |q| && forall i :: 0 <= i < |q| ==> vals[i].v == q[i]
    requires Walk(Place(o, types[id]), vals).Some? && Walk(Place(o, types[id]), vals).value.ty.Scalar?
    ensures FullPath(types[id], q)
    decreases |q|
  {
    if q != [] {
      assert IsChild(exp, id, q[0], exp[id][q[0]]);
      ConstantIsFull(types, exp, next, exp[id][q[0]], q[1..], Step(Place(o, types[id]), q[0]).value.offset, vals[1..]);
    }
  }

  lemma {:induction false} ScalarAt(ty: Ty, p: seq<nat>)
    requires FullPath(ty, p)
    ensures TypeAt(ty, p).Scalar?
  {
    if p != [] {
      ScalarAt(Kid(ty, p[0]), p[1..]);
    }
  }

  lemma {:induction false} ConstValues(chain: seq<Idx>, env: Env)
    requires AllConst(chain) && ConstPath(chain).Some?
    ensures NonNegative(chain, env) && PathOf(chain, env) == ConstPath(chain).value
  {
    if chain != [] {
      ConstValues(chain[1..], env);
      forall i | 0 <= i < |chain| ensures IdxValue(chain[i], env) >= 0 {
        if i > 0 {
          assert IdxValue(chain[1..][i - 1], env) >= 0;
        }
      }
      ConstPathIsPath(chain, env);
    }
  }

  // An access through constants: it goes to the scalar of p exactly if p is its path.
  lemma DirectExact(types: Types, exp: Expansion, next: nat, id: nat, chain: seq<Idx>, vals: seq<Index>, first: int,
                    env: Env, p: seq<nat>)
    requires WellFormed(types, exp, next) && Disaggregated(types, exp, next, id) && IsRoot(exp, id)
    requires NonEmpty(types[id])
    requires Count(types[id]) <= WORD && AllConst(chain) && SameIdxs(chain, vals, env) && FullPath(types[id], p)
    requires ConstPath(chain).Some? && Element(exp, id, ConstPath(chain).value).Some?
    requires Walk(Place(first * Count(types[id]), types[id]), vals)
        == Some(Place(Rank(types[id], p), TypeAt(types[id], p)))
    ensures Element(exp, id, ConstPath(chain).value) == Element(exp, id, p) <==>
      (first * Count(types[id])) % WORD == 0 && Candidate(Slot(TypeAt(types[id], p), p), chain, TypeAt(types[id], p))
  {
    var ty, q := types[id], ConstPath(chain).value;
    ConstValues(chain, env);
    ScalarAt(ty, p);
    ConstantIsFull(types, exp, next, id, q, first * Count(ty), vals);
    PlaceIsRank(ty, first * Count(ty), vals, q);
    RankIsPosition(ty, p);
    RankIsPosition(ty, q);
    if Element(exp, id, q) == Element(exp, id, p) {
      ElementInjective(types, exp, next, id, q, id, p);
    }
    if (first * Count(ty)) % WORD == 0 {
      var m := first * Count(ty);
      SmallMultiple(m / WORD, WORD, m);
      RankInjective(ty, p, q);
    }
  }

  lemma FlatDistance(q: Place, chain: seq<Idx>, vals: seq<Index>, env: Env, offset: Expr, m: int, to: int)
    requires SameIdxs(chain, vals, env) && Walk(q, vals).Some? && FlatFrom(Lit(0), q.ty, chain) == Some(offset)
    requires q.offset == m && Walk(q, vals).value.offset == to
    ensures Eval32(offset, env) == (to - m) % WORD
  {
    WalkIsFlat(q, Lit(0), chain, vals, env);
    assert Eval32(Lit(0), env) == 0;
    assert 0 + (to - m) == to - m;
  }

  // An access through run-time indices.
  lemma WrapperExact(types: Types, exp: Expansion, next: nat, id: nat, chain: seq<Idx>, vals: seq<Index>, first: int,
                     access: Access, ty: Ty, env: Env, p: seq<nat>)
    requires WellFormed(types, exp, next) && Disaggregated(types, exp, next, id) && IsRoot(exp, id)
    requires NonEmpty(types[id])
    requires Count(types[id]) <= WORD && SameIdxs(chain, vals, env) && FullPath(types[id], p)
    requires TypeAt(types[id], p) == ty
    requires access.Wrapper? && Rewritten(types, exp, id, chain, ty, access)
    requires Walk(Place(first * Count(types[id]), types[id]), vals) == Some(Place(Rank(types[id], p), ty))
    ensures Target(access, env) == Element(exp, id, p) <==>
      (first * Count(types[id])) % WORD == 0 && Candidate(Slot(ty, p), chain, ty)
  {
    var slots :| SlotsOf(slots, types[id], []) &&
                 BranchesOf(access.branches, access.args, slots, |slots|, chain, ty, exp, id);
    var m, k, rank := first * Count(types[id]), Eval32(access.offset, env), Rank(types[id], p);
    FlatDistance(Place(m, types[id]), chain, vals, env, access.offset, m, rank);
    RankIsPosition(types[id], p);
    FlatIndexExact(m, rank);
    SlotTaken(types, exp, next, id, slots, access.branches, access.args, chain, ty, k, p);
  }

  // What the flattened chain walks to, after the step over whole variables.
  lemma FlattenedWalk(ty: Ty, geps: seq<Address>, base: nat, env: Env, env': Env)
    requires AddressesOlder(geps, base) && Flattenable(Place(0, ty), GepsOf(geps, env))
    requires ApplyAll(Place(0, ty), GepsOf(geps, env)).Some? && env' == Execute(FlatAdds(geps, base), env)
    ensures var chain := Chain(GepsOf(geps, env));
      SameIdxs(PathIdxs(FlatChain(geps, base)), chain[1..], env') &&
      Walk(Place(chain[0].v * Count(ty), ty), chain[1..]) == ApplyAll(Place(0, ty), GepsOf(geps, env))
  {
    FlattenedValues(geps, base, env);
    FlatteningKeepsPlace(Place(0, ty), GepsOf(geps, env));
    PathValues(FlatChain(geps, base), Chain(GepsOf(geps, env)), env');
  }

  // The rewritten access goes to the scalar that the address computations name if and only if the index that was
  // dropped steps over no scalar, in words, and no constant index leaves its array on the way.
  lemma AccessThroughGeps(types: Types, exp: Expansion, next: nat, id: nat, geps: seq<Address>, base: nat, ty: Ty,
                          access: Access, env: Env, env': Env, p: seq<nat>)
    requires WellFormed(types, exp, next) && Disaggregated(types, exp, next, id) && IsRoot(exp, id)
    requires NonEmpty(types[id])
    requires Count(types[id]) <= WORD && AddressesOlder(geps, base)
    requires Flattenable(Place(0, types[id]), GepsOf(geps, env))
    requires env' == Execute(FlatAdds(geps, base), env) && FullPath(types[id], p) && TypeAt(types[id], p) == ty
    requires ApplyAll(Place(0, types[id]), GepsOf(geps, env)) == Some(Place(Rank(types[id], p), ty))
    requires Rewritten(types, exp, id, PathIdxs(FlatChain(geps, base)), ty, access) && !access.Failed?
    ensures Target(access, env') == Element(exp, id, p) <==>
      (Chain(GepsOf(geps, env))[0].v * Count(types[id])) % WORD == 0 &&
      Candidate(Slot(ty, p), PathIdxs(FlatChain(geps, base)), ty)
  {
    var chain, idxs := Chain(GepsOf(geps, env)), PathIdxs(FlatChain(geps, base));
    FlattenedWalk(types[id], geps, base, env, env');
    if access.Direct? {
      DirectExact(types, exp, next, id, idxs, chain[1..], chain[0].v, env', p);
    } else {
      WrapperExact(types, exp, next, id, idxs, chain[1..], chain[0].v, access, ty, env', p);
    }
  }

  lemma PathValues(c: seq<Operand>, chain: seq<Index>, env: Env)
    requires c != [] && chain == IndicesOf(c, env)
    ensures chain != [] && SameIdxs(PathIdxs(c), chain[1..], env)
  {
    forall i | 0 <= i < |PathIdxs(c)| ensures chain[1..][i].v == IdxValue(PathIdxs(c)[i], env) {
      assert IndicesOf(c, env)[i + 1] == IndexOf(c[i + 1], env);
    }
  }
}
