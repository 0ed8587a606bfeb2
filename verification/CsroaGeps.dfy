// compute_base_and_idxs: a chain of address computations flattened into one index path.
module CsroaGeps {
  import opened Wrappers
  import opened Modular
  import opened CsroaTypes

  // An index of a given bit width; its value is signed.
  datatype Index = Index(v: int, bits: nat)

  // A getelementptr: its first index steps over whole objects, the others into the object.
  datatype Gep = Gep(first: Index, rest: seq<Index>)

  function Width(bits: nat): (w: nat)
    ensures w >= 2 && w % 2 == 0
  {
    if bits <= 1 then 2 else 2 * Width(bits - 1)
  }

  // The number of values that bits bits have.
  lemma {:induction false} WidthIsPower(a: nat, b: nat)
    requires a > 0 && b > 0
    ensures Width(1) == 2 && Width(a + b) == Width(a) * Width(b)
  {
    if b > 1 {
      WidthIsPower(a, b - 1);
      assert Width(a + b) == 2 * Width(a + (b - 1));
    }
  }

  // The first index of a further getelementptr is added to the last index, in the width of the former.
  function AddFirst(last: Index, first: Index): Index {
    var widened := if last.bits <= first.bits then last.v else Signed(last.v, Width(first.bits));
    Index(Signed(widened + first.v, Width(first.bits)), first.bits)
  }

  // The sum is exact if and only if it fits.
  lemma AddFirstExact(last: Index, first: Index)
    ensures AddFirst(last, first).v == last.v + first.v <==> FitsSigned(last.v + first.v, Width(first.bits))
  {
    var w := Width(first.bits);
    SignedSum(last.v, first.v, w);
    SignedExact(last.v + first.v, w);
  }

  // The index chain of a variable and the given getelementptrs, the one next to the variable first.
  function Chain(geps: seq<Gep>): (c: seq<Index>)
    ensures c != []
  {
    if geps == [] then [Index(0, 32)]
    else
      var c, g := Chain(geps[..|geps| - 1]), geps[|geps| - 1];
      c[..|c| - 1] + [AddFirst(c[|c| - 1], g.first)] + g.rest
  }

  // A pointer operand: an alloca or global variable, an argument, a cast, an address computation, or anything else.
  datatype Pointer =
    | Variable(id: nat)
    | Argument(id: nat)
    | BitCast(of: Pointer)
    | Computed(of: Pointer, g: Gep)
    | Unknown

  function BaseOf(p: Pointer): Option<Pointer> {
    match p
    case Variable(_) => Some(p)
    case Argument(_) => Some(p)
    case BitCast(q) => BaseOf(q)
    case Computed(q, _) => BaseOf(q)
    case Unknown => None
  }

  // Nothing but address computations leads to the base.
  predicate Plain(p: Pointer) {
    match p
    case Variable(_) => true
    case Argument(_) => true
    case BitCast(_) => false
    case Computed(q, _) => Plain(q)
    case Unknown => false
  }

  function Computations(p: Pointer): seq<Gep> {
    if p.Computed? then Computations(p.of) + [p.g] else []
  }

  function Outer(base: Pointer): seq<Index> {
    if base.Argument? then [Index(0, 32)] else []
  }

  // What was computed from the base before the first cast.
  function PlainPart(p: Pointer): Pointer {
    match p
    case BitCast(q) => PlainPart(q)
    case Computed(q, _) => if Plain(q) then p else PlainPart(q)
    case _ => p
  }

  // What is left of a pointer when n casts and address computations are taken off.
  ghost function Below(p: Pointer, n: nat): Option<Pointer> {
    if n == 0 then Some(p) else match p
      case BitCast(q) => Below(q, n - 1)
      case Computed(q, _) => Below(q, n - 1)
      case _ => None
  }

  ghost predicate IsBase(p: Pointer) {
    p.Variable? || p.Argument?
  }

  ghost predicate HasBelow(p: Pointer, q: Pointer) {
    exists n :: Below(p, n) == Some(q)
  }

  lemma BelowStep(p: Pointer, of: Pointer, q: Pointer)
    requires p == BitCast(of) || (p.Computed? && p.of == of)
    ensures HasBelow(p, q) <==> q == p || HasBelow(of, q)
  {
    if n: nat :| Below(of, n) == Some(q) {
      assert Below(p, n + 1) == Some(q);
    }
    if n: nat :| Below(p, n) == Some(q) && n > 0 {
      assert Below(of, n - 1) == Some(q);
    }
    assert Below(p, 0) == Some(p);
  }

  lemma AtBottom(p: Pointer, q: Pointer)
    requires IsBase(p) || p.Unknown?
    ensures HasBelow(p, q) <==> q == p
  {
    assert Below(p, 0) == Some(p);
  }

  // The base is the variable or argument at the bottom; the way to it is plain if there is one and no cast is above it.
  lemma {:induction false} BaseIsBottom(p: Pointer)
    ensures forall b :: BaseOf(p) == Some(b) <==> IsBase(b) && HasBelow(p, b)
    ensures Plain(p) <==> BaseOf(p).Some? && forall q :: HasBelow(p, q) ==> !q.BitCast?
  {
    match p
    case BitCast(of) =>
      BaseIsBottom(of);
      forall q ensures HasBelow(p, q) <==> q == p || HasBelow(of, q) { BelowStep(p, of, q); }
      assert HasBelow(p, p);
    case Computed(of, _) =>
      BaseIsBottom(of);
      forall q ensures HasBelow(p, q) <==> q == p || HasBelow(of, q) { BelowStep(p, of, q); }
    case _ =>
      forall q ensures HasBelow(p, q) <==> q == p { AtBottom(p, q); }
  }

  // What was computed before the first cast is plain, and everything plain below the pointer is part of it.
  lemma {:induction false} PlainPartIsLargest(p: Pointer, q: Pointer)
    ensures HasBelow(p, PlainPart(p)) && (BaseOf(p).Some? ==> Plain(PlainPart(p)))
    ensures HasBelow(p, q) && Plain(q) ==> HasBelow(PlainPart(p), q)
  {
    match p
    case BitCast(of) =>
      PlainPartIsLargest(of, q);
      BelowStep(p, of, q);
      BelowStep(p, of, PlainPart(of));
    case Computed(of, _) =>
      PlainPartIsLargest(of, q);
      BelowStep(p, of, q);
      BelowStep(p, of, PlainPart(of));
      assert Below(p, 0) == Some(p);
    case _ =>
      assert Below(p, 0) == Some(p);
  }

  // compute_base_and_idxs: the base is found behind casts, too, with the path up to the first one, but the answer is no
  // then. An argument counts as an array of which it points to the first element.
  method ComputeBaseAndIdxs(p: Pointer) returns (plain: bool, base: Option<Pointer>, chain: seq<Index>)
    ensures plain == Plain(p) && base == BaseOf(p)
    ensures plain ==> base.Some? && PlainPart(p) == p
    ensures if base.Some? then chain == Outer(base.value) + Chain(Computations(PlainPart(p))) else chain == []
  {
    match p
    case Variable(_) =>
      return true, Some(p), [Index(0, 32)];
    case Argument(_) =>
      return true, Some(p), [Index(0, 32), Index(0, 32)];
    case BitCast(q) =>
      plain, base, chain := ComputeBaseAndIdxs(q);
      plain := false;
    case Computed(q, g) =>
      plain, base, chain := ComputeBaseAndIdxs(q);
      if plain {
        AddBehind(Outer(base.value), Chain(Computations(q)), g);
        ChainNext(Computations(q), g);
        chain := AddComputation(chain, g);
      }
    case Unknown =>
      return false, None, [];
  }

  // One address computation: its first index is added to the last one of the chain, the others are appended.
  method AddComputation(chain0: seq<Index>, g: Gep) returns (chain: seq<Index>)
    requires chain0 != []
    ensures chain == Added(chain0, g.first) + g.rest
  {
    chain := chain0[|chain0| - 1 := AddFirst(chain0[|chain0| - 1], g.first)];
    ghost var start := chain;
    for i := 0 to |g.rest|
      invariant chain == start + g.rest[..i]
    {
      chain := chain + [g.rest[i]];
      assert g.rest[..i + 1] == g.rest[..i] + [g.rest[i]];
    }
    assert g.rest[..|g.rest|] == g.rest;
  }

  lemma ChainNext(geps: seq<Gep>, g: Gep)
    ensures Chain(geps + [g]) == Added(Chain(geps), g.first) + g.rest
  {
    assert (geps + [g])[..|geps + [g]| - 1] == geps;
  }

  lemma AddBehind(outer: seq<Index>, chain: seq<Index>, g: Gep)
    requires chain != []
    ensures Added(outer + chain, g.first) + g.rest == outer + (Added(chain, g.first) + g.rest)
  {
    assert (outer + chain)[..|outer + chain| - 1] == outer + chain[..|chain| - 1];
  }

  // A place inside an object: its offset in scalars and its type.
  datatype Place = Place(offset: int, ty: Ty)

  // Stepping into an element; arrays allow any index, structs only their fields.
  function Step(p: Place, i: int): Option<Place> {
    match p.ty
    case Scalar(_) => None
    case Array(_, elem) => Some(Place(p.offset + i * Count(elem), elem))
    case Struct(fields) =>
      if 0 <= i < |fields| then Some(Place(p.offset + CountAll(fields[..i]), fields[i])) else None
  }

  function Walk(p: Place, idxs: seq<Index>): Option<Place>
    decreases |idxs|
  {
    if idxs == [] then Some(p)
    else match Step(p, idxs[0].v)
      case None => None
      case Some(q) => Walk(q, idxs[1..])
  }

  function ApplyGep(p: Place, g: Gep): Option<Place> {
    Walk(Place(p.offset + g.first.v * Count(p.ty), p.ty), g.rest)
  }

  // One getelementptr after the other.
  function ApplyAll(p: Place, geps: seq<Gep>): Option<Place> {
    if geps == [] then Some(p)
    else match ApplyAll(p, geps[..|geps| - 1])
      case None => None
      case Some(q) => ApplyGep(q, geps[|geps| - 1])
  }

  // The place of a flattened chain: its first index steps over whole variables.
  function PlaceOf(p: Place, chain: seq<Index>): Option<Place>
    requires chain != []
  {
    Walk(Place(p.offset + chain[0].v * Count(p.ty), p.ty), chain[1..])
  }

  // The path from an argument, taken as an array of its objects, leads where the computations lead from its first
  // object.
  lemma ArgumentPlace(ty: Ty, n: nat, base: Pointer, chain: seq<Index>)
    requires base.Argument? && chain != []
    ensures PlaceOf(Place(0, Array(n, ty)), Outer(base) + chain) == PlaceOf(Place(0, ty), chain)
  {
    assert (Outer(base) + chain)[1..] == chain;
  }

  lemma {:induction false} WalkAppend(p: Place, a: seq<Index>, b: seq<Index>)
    ensures Walk(p, a + b) == match Walk(p, a) case None => None case Some(q) => Walk(q, b)
    decreases |a|
  {
    if a == [] {
      assert a + b == b;
    } else {
      assert (a + b)[1..] == a[1..] + b;
      match Step(p, a[0].v)
      case None =>
      case Some(q) => WalkAppend(q, a[1..], b);
    }
  }

  // The element at index j of ty is where element i is, moved by f objects of the type of element i.
  ghost predicate Moved(ty: Ty, i: int, f: int, j: int) {
    match ty
    case Scalar(_) => false
    case Array(_, elem) => (j - (i + f)) * Count(elem) == 0
    case Struct(fields) =>
      0 <= i < |fields| && 0 <= j < |fields| && fields[j] == fields[i] &&
      CountAll(fields[..j]) == CountAll(fields[..i]) + f * Count(fields[i])
  }

  // Adding to the last index of a chain is harmless: the sum steps over whole variables as it should, or it moves
  // through the array or struct that the last index steps into.
  ghost predicate Addable(p: Place, chain: seq<Index>, first: Index)
    requires chain != []
  {
    var n := |chain| - 1;
    var i, j := chain[n].v, AddFirst(chain[n], first).v;
    if n == 0 then (j - (i + first.v)) * Count(p.ty) == 0
    else match PlaceOf(p, chain[..n])
      case None => true
      case Some(q) => Moved(q.ty, i, first.v, j)
  }

  // The cases in which it is, as long as the sum does not overflow: over whole variables, with nothing added, through
  // an array, and between the fields of a struct whose fields all have one type.
  lemma AddableCases(p: Place, chain: seq<Index>, first: Index)
    requires chain != [] && PlaceOf(p, chain).Some? && FitsSigned(chain[|chain| - 1].v + first.v, Width(first.bits))
    ensures |chain| == 1 || first.v == 0 ==> Addable(p, chain, first)
    ensures |chain| > 1 ==> (PlaceOf(p, chain[..|chain| - 1]).Some? &&
      var ty, j := PlaceOf(p, chain[..|chain| - 1]).value.ty, chain[|chain| - 1].v + first.v;
      (ty.Array? ==> Addable(p, chain, first)) &&
      (ty.Struct? && Homogeneous(ty.fields) && 0 <= j < |ty.fields| ==> Addable(p, chain, first)))
  {
    var n := |chain| - 1;
    AddFirstExact(chain[n], first);
    if n > 0 {
      LastStep(p, chain);
      var ty, j := PlaceOf(p, chain[..n]).value.ty, chain[n].v + first.v;
      if ty.Struct? && Homogeneous(ty.fields) && 0 <= j < |ty.fields| {
        HomogeneousMoved(ty, chain[n].v, first.v);
      }
    }
  }

  lemma HomogeneousMoved(ty: Ty, i: int, f: int)
    requires ty.Struct? && Homogeneous(ty.fields) && 0 <= i < |ty.fields| && 0 <= i + f < |ty.fields|
    ensures Moved(ty, i, f, i + f)
  {
    HomogeneousOffset(ty.fields, i);
    HomogeneousOffset(ty.fields, i + f);
    OffsetIsCount(ty, i);
    OffsetIsCount(ty, i + f);
    Distribute(i, f, Count(ty.fields[0]));
  }

  // Every getelementptr of the chain is added where that is harmless.
  ghost predicate Flattenable(p: Place, geps: seq<Gep>) {
    geps == [] ||
    (Flattenable(p, geps[..|geps| - 1]) && Addable(p, Chain(geps[..|geps| - 1]), geps[|geps| - 1].first))
  }

  lemma LastStep(p: Place, chain: seq<Index>)
    requires |chain| > 1
    ensures PlaceOf(p, chain) == match PlaceOf(p, chain[..|chain| - 1])
      case None => None
      case Some(q) => Step(q, chain[|chain| - 1].v)
  {
    var n := |chain| - 1;
    assert chain[1..] == chain[..n][1..] + [chain[n]];
    WalkAppend(Place(p.offset + chain[0].v * Count(p.ty), p.ty), chain[..n][1..], [chain[n]]);
    assert [chain[n]][1..] == [];
  }

  lemma Distribute(a: int, b: int, c: int)
    ensures (a + b) * c == a * c + b * c
  {
  }

  lemma StepMoves(q: Place, i: int, f: int, j: int)
    requires Step(q, i).Some?
    ensures var r := Step(q, i).value;
      Step(q, j) == Some(Place(r.offset + f * Count(r.ty), r.ty)) <==> Moved(q.ty, i, f, j)
  {
    if q.ty.Array? {
      Distribute(i, f, Count(q.ty.elem));
      Distribute(j, -(i + f), Count(q.ty.elem));
    }
  }

  // The chain with the first index of a further getelementptr added.
  function Added(chain: seq<Index>, first: Index): seq<Index>
    requires chain != []
  {
    chain[..|chain| - 1] + [AddFirst(chain[|chain| - 1], first)]
  }

  // Where the first index of a getelementptr moves the place q.
  function Behind(q: Place, first: Index): Place {
    Place(q.offset + first.v * Count(q.ty), q.ty)
  }

  lemma AddMovesWhole(p: Place, chain: seq<Index>, first: Index)
    requires |chain| == 1
    ensures PlaceOf(p, chain) == Some(Place(p.offset + chain[0].v * Count(p.ty), p.ty))
    ensures PlaceOf(p, Added(chain, first)) == Some(Behind(PlaceOf(p, chain).value, first)) <==>
      Addable(p, chain, first)
  {
    var added := Added(chain, first);
    assert added[1..] == [] && chain[1..] == [];
    assert PlaceOf(p, added) == Some(Place(p.offset + added[0].v * Count(p.ty), p.ty));
    WholeMoves(p.offset, chain[0].v, first.v, added[0].v, Count(p.ty));
  }

  lemma WholeMoves(o: int, a: int, f: int, j: int, c: int)
    ensures o + j * c == o + a * c + f * c <==> (j - (a + f)) * c == 0
  {
    Distribute(a, f, c);
    Distribute(j - (a + f), a + f, c);
  }

  // Adding the first index moves the place by whole objects if and only if that is harmless.
  lemma AddMoves(p: Place, chain: seq<Index>, first: Index)
    requires chain != [] && PlaceOf(p, chain).Some?
    ensures PlaceOf(p, Added(chain, first)) == Some(Behind(PlaceOf(p, chain).value, first)) <==>
      Addable(p, chain, first)
  {
    var n := |chain| - 1;
    var added := Added(chain, first);
    var j := AddFirst(chain[n], first).v;
    if n == 0 {
      AddMovesWhole(p, chain, first);
    } else {
      LastStep(p, chain);
      LastStep(p, added);
      assert added[..n] == chain[..n];
      StepMoves(PlaceOf(p, chain[..n]).value, chain[n].v, first.v, j);
    }
  }

  lemma PlaceOfAppend(p: Place, chain: seq<Index>, rest: seq<Index>)
    requires chain != []
    ensures PlaceOf(p, chain + rest) == match PlaceOf(p, chain) case None => None case Some(q) => Walk(q, rest)
  {
    assert (chain + rest)[1..] == chain[1..] + rest;
    WalkAppend(Place(p.offset + chain[0].v * Count(p.ty), p.ty), chain[1..], rest);
  }

  // The flattened chain addresses the same element as the getelementptrs one after the other.
  lemma {:induction false} FlatteningKeepsPlace(p: Place, geps: seq<Gep>)
    requires Flattenable(p, geps)
    ensures ApplyAll(p, geps).Some? ==> PlaceOf(p, Chain(geps)) == ApplyAll(p, geps)
    decreases |geps|
  {
    if geps != [] {
      var earlier, g := geps[..|geps| - 1], geps[|geps| - 1];
      FlatteningKeepsPlace(p, earlier);
      var c := Chain(earlier);
      if ApplyAll(p, earlier).Some? {
        AddMoves(p, c, g.first);
        PlaceOfAppend(p, Added(c, g.first), g.rest);
      }
    }
  }

  // At every step the flattened chain, with the first index added, names the place that the getelementptr starts from.
  ghost predicate EveryStepKeepsPlace(p: Place, geps: seq<Gep>) {
    geps == [] ||
    (EveryStepKeepsPlace(p, geps[..|geps| - 1]) &&
     match ApplyAll(p, geps[..|geps| - 1])
     case None => true
     case Some(q) =>
       var first := geps[|geps| - 1].first;
       PlaceOf(p, Added(Chain(geps[..|geps| - 1]), first)) == Some(Behind(q, first)))
  }

  // The condition is exact, step by step.
  lemma {:induction false} FlattenableIsExact(p: Place, geps: seq<Gep>)
    requires ApplyAll(p, geps).Some?
    ensures Flattenable(p, geps) <==> EveryStepKeepsPlace(p, geps)
    decreases |geps|
  {
    if geps != [] {
      var earlier, g := geps[..|geps| - 1], geps[|geps| - 1];
      FlattenableIsExact(p, earlier);
      if Flattenable(p, earlier) {
        FlatteningKeepsPlace(p, earlier);
        AddMoves(p, Chain(earlier), g.first);
      }
    }
  }

  // A pointer to field i of a struct variable, moved by f objects of the type of the field: the flattened chain names
  // the same place if and only if the sum names a field of the same type with f objects of it in between.
  lemma StructStepExact(ty: Ty, i: Index, f: Index)
    requires ty.Struct? && 0 <= i.v < |ty.fields| && FitsSigned(i.v + f.v, Width(f.bits))
    ensures var geps, j := [Gep(Index(0, i.bits), [i]), Gep(f, [])], i.v + f.v;
      PlaceOf(Place(0, ty), Chain(geps)) == ApplyAll(Place(0, ty), geps) <==>
      0 <= j < |ty.fields| && ty.fields[j] == ty.fields[i.v] &&
      CountAll(ty.fields[..j]) == CountAll(ty.fields[..i.v]) + f.v * Count(ty.fields[i.v])
  {
    var p, g0, g1 := Place(0, ty), Gep(Index(0, i.bits), [i]), Gep(f, []);
    ChainOne(g0);
    ApplyTwo(p, g0, g1);
    assert [g0, g1][..1] == [g0];
    assert Chain([g0, g1]) == Added(Chain([g0]), f);
    PlaceOfOne(p, g0, i);
    AddMoves(p, Chain([g0]), f);
    AddFirstExact(i, f);
    assert Chain([g0])[..1] == [Index(0, i.bits)];
    assert ApplyGep(Step(p, i.v).value, g1) == Some(Behind(Step(p, i.v).value, f));
  }

  lemma ChainOne(g: Gep)
    requires g.first.v == 0
    ensures Chain([g]) == [Index(0, g.first.bits)] + g.rest
  {
    var zero := Index(0, 32);
    assert [g][..0] == [] && Chain([]) == [zero];
    assert FitsSigned(0, Width(g.first.bits));
    AddFirstExact(zero, g.first);
    assert AddFirst(zero, g.first) == Index(0, g.first.bits);
    assert [zero][..0] == [];
  }

  lemma PlaceOfOne(p: Place, g: Gep, i: Index)
    requires g.first.v == 0 && g.rest == [i]
    ensures PlaceOf(p, Chain([g])) == Step(p, i.v) == ApplyGep(p, g)
    ensures PlaceOf(p, Chain([g])[..1]) == Some(p)
  {
    ChainOne(g);
    assert Chain([g])[1..] == [i] && Chain([g])[..1] == [Index(0, g.first.bits)];
    assert Chain([g])[..1][1..] == [];
    assert Place(p.offset + 0 * Count(p.ty), p.ty) == p;
    WalkOne(p, i);
  }

  lemma WalkOne(p: Place, i: Index)
    ensures Walk(p, [i]) == Step(p, i.v)
  {
    assert [i][1..] == [];
  }

  lemma ApplyTwo(p: Place, g0: Gep, g1: Gep)
    ensures ApplyAll(p, [g0, g1]) == match ApplyGep(p, g0) case None => None case Some(q) => ApplyGep(q, g1)
  {
    assert [g0, g1][..1] == [g0] && [g0][..0] == [];
    assert ApplyAll(p, [g0]) == ApplyGep(p, g0);
  }

  // A chain that starts with 0 and ends at a scalar inside the variable has the flat index as its offset.
  lemma {:induction false} PlaceIsRank(ty: Ty, offset: int, idxs: seq<Index>, p: seq<nat>)
    requires FullPath(ty, p) && |p| == |idxs| && forall i :: 0 <= i < |p| ==> idxs[i].v == p[i]
    ensures Walk(Place(offset, ty), idxs) == Some(Place(offset + Rank(ty, p), TypeAt(ty, p)))
    decreases |p|
  {
    if p != [] {
      OffsetIsCount(ty, p[0]);
      PlaceIsRank(Kid(ty, p[0]), offset + Offset(ty, p[0]), idxs[1..], p[1..]);
    }
  }
}
