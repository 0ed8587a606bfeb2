// Rewriting of loads and stores through constant and dynamic index paths.
module CsroaAccess {
  import opened Wrappers
  import opened Modular
  import opened CsroaTypes
  import opened CsroaExpand

  // An index of a path: a constant, or the value of a variable.
  datatype Idx = Const(v: int) | Dyn(x: nat)

  function IdxValue(i: Idx, env: nat -> int): int {
    match i
    case Const(v) => v
    case Dyn(x) => env(x)
  }

  ghost predicate NonNegative(chain: seq<Idx>, env: nat -> int) {
    forall i :: 0 <= i < |chain| ==> IdxValue(chain[i], env) >= 0
  }

  // The path that a chain of indices denotes at run time.
  ghost function PathOf(chain: seq<Idx>, env: nat -> int): (p: seq<nat>)
    requires NonNegative(chain, env)
    ensures |p| == |chain| && forall i :: 0 <= i < |p| ==> p[i] == IdxValue(chain[i], env)
  {
    if chain == [] then [] else [IdxValue(chain[0], env)] + PathOf(chain[1..], env)
  }

  // The chain leads to a scalar of the variable.
  ghost predicate InBounds(ty: Ty, chain: seq<Idx>, env: nat -> int) {
    NonNegative(chain, env) && FullPath(ty, PathOf(chain, env))
  }

  // Index arithmetic emitted before the access, in 32-bit words; wider values are truncated.
  datatype Expr = Lit(v: nat) | Index(i: Idx) | Mul(c: nat, e: Expr) | Add(a: Expr, b: Expr)

  function Eval32(e: Expr, env: nat -> int): (w: nat)
    ensures w < WORD
  {
    match e
    case Lit(v) => v % WORD
    case Index(i) => IdxValue(i, env) % WORD
    case Mul(c, f) => (c * Eval32(f, env)) % WORD
    case Add(a, b) => (Eval32(a, env) + Eval32(b, env)) % WORD
  }

  // The flat index: a running sum and the type that is left; None stands for the error exits.
  function FlatFrom(sum: Expr, ty: Ty, chain: seq<Idx>): Option<Expr>
    decreases |chain|
  {
    if chain == [] then Some(sum)
    else match ty
      case Scalar(_) => FlatFrom(sum, ty, chain[1..])
      case Array(_, elem) => FlatFrom(Add(sum, Mul(Count(elem), Index(chain[0]))), elem, chain[1..])
      case Struct(fields) =>
        match chain[0]
        case Const(v) =>
          if 0 <= v < |fields| then FlatFrom(Add(sum, Lit(CountAll(fields[..v]))), fields[v], chain[1..]) else None
        case Dyn(_) =>
          if Homogeneous(fields)
          then FlatFrom(Add(sum, Mul(Count(fields[0]), Index(chain[0]))), fields[0], chain[1..]) else None
  }

  // The walk through the types ends in an error: at a constant that is no field, or at a run-time index into a struct
  // without fields or with two fields of different types.
  ghost predicate WalkStops(ty: Ty, chain: seq<Idx>)
    decreases |chain|
  {
    chain != [] && match ty
      case Scalar(_) => WalkStops(ty, chain[1..])
      case Array(_, elem) => WalkStops(elem, chain[1..])
      case Struct(fields) =>
        match chain[0]
        case Const(v) => v < 0 || v >= |fields| || WalkStops(fields[v], chain[1..])
        case Dyn(_) =>
          |fields| == 0 || (exists i :: 0 <= i < |fields| && fields[i] != fields[0]) || WalkStops(fields[0], chain[1..])
  }

  lemma {:induction false} FlatFromStops(sum: Expr, ty: Ty, chain: seq<Idx>)
    ensures FlatFrom(sum, ty, chain).None? <==> WalkStops(ty, chain)
    decreases |chain|
  {
    if chain != [] {
      match ty
      case Scalar(_) => FlatFromStops(sum, ty, chain[1..]);
      case Array(_, elem) => FlatFromStops(Add(sum, Mul(Count(elem), Index(chain[0]))), elem, chain[1..]);
      case Struct(fields) =>
        match chain[0]
        case Const(v) =>
          if 0 <= v < |fields| {
            FlatFromStops(Add(sum, Lit(CountAll(fields[..v]))), fields[v], chain[1..]);
          }
        case Dyn(_) =>
          if Homogeneous(fields) {
            FlatFromStops(Add(sum, Mul(Count(fields[0]), Index(chain[0]))), fields[0], chain[1..]);
          }
    }
  }

  method SumOfFields(fields: seq<Ty>, v: int) returns (offset: nat)
    requires 0 <= v <= |fields|
    ensures offset == CountAll(fields[..v])
  {
    offset := 0;
    var i := 0;
    while i < |fields| && i < v
      invariant 0 <= i <= v && offset == CountAll(fields[..i])
    {
      CountAllSnoc(fields, i);
      offset := offset + Count(fields[i]);
      i := i + 1;
    }
  }

  // The loop of process_single_pointer that emits the index arithmetic.
  method EmitFlatIndex(base: Ty, chain: seq<Idx>) returns (r: Option<Expr>)
    ensures r == FlatFrom(Lit(0), base, chain)
    ensures r.None? <==> WalkStops(base, chain)
  {
    FlatFromStops(Lit(0), base, chain);
    var sum, ty := Lit(0), base;
    for i := 0 to |chain|
      invariant FlatFrom(sum, ty, chain[i..]) == FlatFrom(Lit(0), base, chain)
    {
      assert chain[i..][1..] == chain[i + 1..];
      match ty
      case Scalar(_) =>
      case Array(_, elem) =>
        sum, ty := Add(sum, Mul(Count(elem), Index(chain[i]))), elem;
      case Struct(fields) =>
        match chain[i]
        case Const(v) =>
          if v < 0 || v >= |fields| {
            return None;
          }
          var offset := SumOfFields(fields, v);
          sum, ty := Add(sum, Lit(offset)), fields[v];
        case Dyn(_) =>
          if !Homogeneous(fields) {
            return None;
          }
          sum, ty := Add(sum, Mul(Count(fields[0]), Index(chain[i]))), fields[0];
    }
    r := Some(sum);
  }

  lemma AddMod(sum: Expr, e: Expr, offset: int, rest: int, env: nat -> int)
    requires Eval32(e, env) == offset % WORD
    ensures (Eval32(Add(sum, e), env) + rest) % WORD == (Eval32(sum, env) + (offset + rest)) % WORD
  {
    var s, o := Eval32(sum, env), offset % WORD;
    ModSum(s + o, rest, WORD);
    ModSum(offset, s + rest, WORD);
    assert s + o + rest == o + (s + rest);
  }

  // A product of a count and an index is the offset of the element in elements of one type.
  lemma ProductIsOffset(ty: Ty, elem: Ty, idx: Idx, env: nat -> int, i: nat)
    requires IdxValue(idx, env) == i <= NumKids(ty) && Offset(ty, i) == i * Count(elem)
    ensures Eval32(Mul(Count(elem), Index(idx)), env) == Offset(ty, i) % WORD
  {
    ModProduct(Count(elem), i, WORD);
    assert Count(elem) * i == i * Count(elem);
  }

  // One step of the emitted sum adds the scalars before the chosen element.
  lemma StepAdds(sum: Expr, ty: Ty, chain: seq<Idx>, env: nat -> int) returns (e: Expr)
    requires chain != [] && InBounds(ty, chain, env) && !WalkStops(ty, chain)
    ensures var i := PathOf(chain, env)[0];
      FlatFrom(sum, ty, chain) == FlatFrom(Add(sum, e), Kid(ty, i), chain[1..]) &&
      Eval32(e, env) == Offset(ty, i) % WORD && !WalkStops(Kid(ty, i), chain[1..])
  {
    var i := PathOf(chain, env)[0];
    OffsetIsCount(ty, i);
    match ty
    case Array(_, elem) =>
      e := Mul(Count(elem), Index(chain[0]));
      ProductIsOffset(ty, elem, chain[0], env, i);
    case Struct(fields) =>
      match chain[0]
      case Const(v) =>
        e := Lit(CountAll(fields[..v]));
      case Dyn(_) =>
        e := Mul(Count(fields[0]), Index(chain[0]));
        HomogeneousOffset(fields, i);
        ProductIsOffset(ty, fields[0], chain[0], env, i);
  }

  // The emitted arithmetic computes the rank of the path, in words.
  lemma {:induction false} FlatIsRank(sum: Expr, ty: Ty, chain: seq<Idx>, env: nat -> int)
    requires InBounds(ty, chain, env) && !WalkStops(ty, chain)
    ensures FlatFrom(sum, ty, chain).Some?
    ensures Eval32(FlatFrom(sum, ty, chain).value, env) == (Eval32(sum, env) + Rank(ty, PathOf(chain, env))) % WORD
    decreases |chain|
  {
    FlatFromStops(sum, ty, chain);
    var p := PathOf(chain, env);
    if chain != [] {
      var e := StepAdds(sum, ty, chain, env);
      FlatIsRank(Add(sum, e), Kid(ty, p[0]), chain[1..], env);
      AddMod(sum, e, Offset(ty, p[0]), Rank(Kid(ty, p[0]), p[1..]), env);
      assert p[1..] == PathOf(chain[1..], env);
    }
  }

  // One comparison of the if-then-else chain: at this offset, access through this pointer parameter.
  datatype Branch = Branch(index: nat, param: nat)

  datatype Access =
    | Direct(id: nat)
    | Wrapper(offset: Expr, args: seq<Option<nat>>, branches: seq<Branch>)
    | Failed

  predicate AllConst(chain: seq<Idx>) {
    forall i :: 0 <= i < |chain| ==> chain[i].Const?
  }

  // The constants of a chain, when they are not negative.
  function ConstPath(chain: seq<Idx>): Option<seq<nat>>
    requires AllConst(chain)
  {
    if chain == [] then Some([])
    else if chain[0].v < 0 then None
    else match ConstPath(chain[1..])
      case None => None
      case Some(p) => Some([chain[0].v] + p)
  }

  lemma {:induction false} ConstPathIsPath(chain: seq<Idx>, env: nat -> int)
    requires AllConst(chain) && NonNegative(chain, env)
    ensures ConstPath(chain) == Some(PathOf(chain, env))
  {
    if chain != [] {
      ConstPathIsPath(chain[1..], env);
    }
  }

  // A slot can be the target of the chain: it has the accessed type and no constant index differs.
  predicate Candidate(slot: Slot, chain: seq<Idx>, ty: Ty) {
    slot.ty == ty &&
    (|slot.path| == |chain| ==>
      forall i :: 0 <= i < |chain| ==> chain[i].Const? ==> chain[i].v == slot.path[i])
  }

  // No variable is the index at two positions.
  ghost predicate Separate(chain: seq<Idx>) {
    forall i, j :: 0 <= i < j < |chain| && chain[i].Dyn? ==> chain[i] != chain[j]
  }

  // The value of x with which the chain leads along p.
  ghost function ValueFor(chain: seq<Idx>, p: seq<nat>, x: nat): nat
    requires |p| == |chain|
  {
    if chain == [] then 0 else if chain[0] == Dyn(x) then p[0] else ValueFor(chain[1..], p[1..], x)
  }

  lemma {:induction false} ValueForAt(chain: seq<Idx>, p: seq<nat>, i: nat)
    requires |p| == |chain| && Separate(chain) && i < |chain| && chain[i].Dyn?
    ensures ValueFor(chain, p, chain[i].x) == p[i]
  {
    if i > 0 {
      assert chain[0] != chain[i];
      forall j, k | 0 <= j < k < |chain[1..]| && chain[1..][j].Dyn? ensures chain[1..][j] != chain[1..][k] {
        assert chain[j + 1] != chain[k + 1];
      }
      ValueForAt(chain[1..], p[1..], i - 1);
    }
  }

  ghost predicate Leads(chain: seq<Idx>, env: nat -> int, p: seq<nat>) {
    NonNegative(chain, env) && PathOf(chain, env) == p
  }

  // A slot of the right depth gets a branch if and only if it has the accessed type and some values of the run-time
  // indices lead to it.
  lemma CandidateIsReachable(slot: Slot, chain: seq<Idx>, ty: Ty)
    requires |slot.path| == |chain| && Separate(chain)
    ensures Candidate(slot, chain, ty) <==> slot.ty == ty && exists env :: Leads(chain, env, slot.path)
  {
    var p := slot.path;
    if Candidate(slot, chain, ty) {
      var env: nat -> int := (x: nat) => ValueFor(chain, p, x);
      forall i | 0 <= i < |chain| ensures IdxValue(chain[i], env) == p[i] {
        if chain[i].Dyn? {
          ValueForAt(chain, p, i);
        }
      }
      assert Leads(chain, env, p);
    }
    if env :| Leads(chain, env, p) {
      forall i | 0 <= i < |chain| && chain[i].Const? ensures chain[i].v == p[i] {
        assert PathOf(chain, env)[i] == IdxValue(chain[i], env);
      }
    }
  }

  // The branches built from the first n slots: one per candidate, each bound to its own parameter, which
  // carries the scalar of that slot.
  ghost predicate BranchesOf(branches: seq<Branch>, args: seq<Option<nat>>, slots: seq<Slot>, n: nat,
                             chain: seq<Idx>, ty: Ty, exp: Expansion, id: nat)
    requires n <= |slots|
  {
    |branches| <= |args| &&
    (forall j :: 0 <= j < |branches| ==>
      branches[j].param == j && branches[j].index < n && Candidate(slots[branches[j].index], chain, ty) &&
      args[j] == Element(exp, id, slots[branches[j].index].path)) &&
    (forall k :: 0 <= k < n && Candidate(slots[k], chain, ty) ==>
      exists j :: 0 <= j < |branches| && branches[j].index == k)
  }

  function Matching(slots: seq<Slot>, ty: Ty): nat {
    if slots == [] then 0 else (if slots[0].ty == ty then 1 else 0) + Matching(slots[1..], ty)
  }

  lemma {:induction false} MatchingSnoc(slots: seq<Slot>, k: nat, ty: Ty)
    requires k < |slots|
    ensures Matching(slots[..k + 1], ty) == Matching(slots[..k], ty) + (if slots[k].ty == ty then 1 else 0)
  {
    if k > 0 {
      MatchingSnoc(slots[1..], k - 1, ty);
      assert slots[1..][..k] == slots[..k + 1][1..];
      assert slots[1..][..k - 1] == slots[..k][1..];
    } else {
      assert slots[..1][1..] == [];
    }
  }

  ghost function SlotsOfType(slots: seq<Slot>, n: nat, ty: Ty): set<int>
    requires n <= |slots|
  {
    set k | 0 <= k < n && slots[k].ty == ty
  }

  lemma {:induction false} MatchingIsCount(slots: seq<Slot>, n: nat, ty: Ty)
    requires n <= |slots|
    ensures Matching(slots[..n], ty) == |SlotsOfType(slots, n, ty)|
  {
    if n == 0 {
      assert SlotsOfType(slots, 0, ty) == {};
    } else {
      var k := n - 1;
      MatchingIsCount(slots, k, ty);
      MatchingSnoc(slots, k, ty);
      OneMoreSlot(slots, k, n, ty);
    }
  }

  lemma OneMoreSlot(slots: seq<Slot>, k: nat, n: nat, ty: Ty)
    requires n == k + 1 <= |slots|
    ensures |SlotsOfType(slots, n, ty)| == |SlotsOfType(slots, k, ty)| + (if slots[k].ty == ty then 1 else 0)
  {
    var before := SlotsOfType(slots, k, ty);
    assert k !in before;
    assert SlotsOfType(slots, n, ty) == if slots[k].ty == ty then before + {k} else before;
  }

  // One null pointer per slot of the accessed type.
  method NullArguments(slots: seq<Slot>, ty: Ty) returns (args: seq<Option<nat>>)
    ensures |args| == Matching(slots, ty) && forall j :: 0 <= j < |args| ==> args[j] == None
  {
    args := [];
    for k := 0 to |slots|
      invariant |args| == Matching(slots[..k], ty) && forall j :: 0 <= j < |args| ==> args[j] == None
    {
      MatchingSnoc(slots, k, ty);
      if slots[k].ty == ty {
        args := args + [None];
      }
    }
    assert slots[..|slots|] == slots;
  }

  lemma {:induction false} MatchingMonotone(slots: seq<Slot>, k: nat, ty: Ty)
    requires k <= |slots|
    ensures Matching(slots[..k], ty) <= Matching(slots, ty)
    decreases |slots| - k
  {
    if k < |slots| {
      MatchingSnoc(slots, k, ty);
      MatchingMonotone(slots, k + 1, ty);
    } else {
      assert slots[..k] == slots;
    }
  }

  lemma ChainSkips(branches: seq<Branch>, args: seq<Option<nat>>, slots: seq<Slot>, k: nat,
                   chain: seq<Idx>, ty: Ty, exp: Expansion, id: nat)
    requires k < |slots| && BranchesOf(branches, args, slots, k, chain, ty, exp, id)
    requires !Candidate(slots[k], chain, ty)
    ensures BranchesOf(branches, args, slots, k + 1, chain, ty, exp, id)
  {
  }

  lemma ChainGrows(branches: seq<Branch>, args: seq<Option<nat>>, slots: seq<Slot>, k: nat,
                   chain: seq<Idx>, ty: Ty, exp: Expansion, id: nat)
    requires k < |slots| && BranchesOf(branches, args, slots, k, chain, ty, exp, id)
    requires Candidate(slots[k], chain, ty) && |branches| < |args|
    ensures BranchesOf(branches + [Branch(k, |branches|)], args[|branches| := Element(exp, id, slots[k].path)],
                       slots, k + 1, chain, ty, exp, id)
  {
    var branches' := branches + [Branch(k, |branches|)];
    forall i | 0 <= i < k + 1 && Candidate(slots[i], chain, ty)
      ensures exists j :: 0 <= j < |branches'| && branches'[j].index == i
    {
      if i < k {
        var j :| 0 <= j < |branches| && branches[j].index == i;
        assert branches'[j].index == i;
      } else {
        assert branches'[|branches|].index == i;
      }
    }
  }

  // The if-then-else chain, with the operands of the wrapper call set along the way.
  method BuildChain(slots: seq<Slot>, chain: seq<Idx>, ty: Ty, exp: Expansion, id: nat)
    returns (args: seq<Option<nat>>, branches: seq<Branch>)
    ensures BranchesOf(branches, args, slots, |slots|, chain, ty, exp, id)
    ensures |args| == |SlotsOfType(slots, |slots|, ty)|
    ensures forall j :: |branches| <= j < |args| ==> args[j] == None
  {
    args := NullArguments(slots, ty);
    MatchingIsCount(slots, |slots|, ty);
    assert slots[..|slots|] == slots;
    branches := [];
    for k := 0 to |slots|
      invariant |args| == Matching(slots, ty) && |branches| <= Matching(slots[..k], ty)
      invariant forall j :: |branches| <= j < |args| ==> args[j] == None
      invariant BranchesOf(branches, args, slots, k, chain, ty, exp, id)
    {
      MatchingSnoc(slots, k, ty);
      MatchingMonotone(slots, k + 1, ty);
      if !Candidate(slots[k], chain, ty) {
        ChainSkips(branches, args, slots, k, chain, ty, exp, id);
      } else {
        ChainGrows(branches, args, slots, k, chain, ty, exp, id);
        args := args[|branches| := Element(exp, id, slots[k].path)];
        branches := branches + [Branch(k, |branches|)];
      }
    }
  }

  // process_single_pointer on an expanded alloca or global.
  method ProcessSinglePointer(types: Types, exp: Expansion, ghost next: nat, id: nat, chain: seq<Idx>, ty: Ty)
    returns (access: Access)
    requires WellFormed(types, exp, next) && Disaggregated(types, exp, next, id) && NonEmpty(types[id])
    ensures Rewritten(types, exp, id, chain, ty, access)
    ensures access.Failed? <==> PointerStops(types[id], chain)
  {
    if AllConst(chain) {
      ConstStopsExact(types, exp, next, id, chain);
      var p := ConstPath(chain);
      if p.None? {
        return Failed;
      }
      var e := Element(exp, id, p.value);
      return if e.Some? then Direct(e.value) else Failed;
    }
    var slots := ExpandTypes(types, exp, next, id, []);
    var offset := EmitFlatIndex(types[id], chain);
    if offset.None? {
      return Failed;
    }
    var args, branches := BuildChain(slots, chain, ty, exp, id);
    access := Wrapper(offset.value, args, branches);
  }

  // What the access was replaced by.
  ghost predicate Rewritten(types: Types, exp: Expansion, id: nat, chain: seq<Idx>, ty: Ty, access: Access)
    requires id in types
  {
    match access
    case Direct(e) => AllConst(chain) && ConstPath(chain).Some? && Element(exp, id, ConstPath(chain).value) == Some(e)
    case Wrapper(offset, args, branches) =>
      !AllConst(chain) && FlatFrom(Lit(0), types[id], chain) == Some(offset) &&
      exists slots :: SlotsOf(slots, types[id], []) && |args| == |SlotsOfType(slots, |slots|, ty)| &&
        BranchesOf(branches, args, slots, |slots|, chain, ty, exp, id)
    case Failed => PointerStops(types[id], chain)
  }

  // A constant on the way is no element of the type it is an index into.
  ghost predicate ConstStops(ty: Ty, chain: seq<Idx>)
    requires AllConst(chain)
    decreases |chain|
  {
    chain != [] &&
    (chain[0].v < 0 || chain[0].v >= NumKids(ty) || ConstStops(Kid(ty, chain[0].v), chain[1..]))
  }

  // The error exits, from the types and the indices alone.
  ghost predicate PointerStops(ty: Ty, chain: seq<Idx>) {
    if AllConst(chain) then ConstStops(ty, chain) else WalkStops(ty, chain)
  }

  // The elements that an expanded variable has are those of its type.
  lemma {:induction false} ConstStopsExact(types: Types, exp: Expansion, next: nat, id: nat, chain: seq<Idx>)
    requires WellFormed(types, exp, next) && Disaggregated(types, exp, next, id) && AllConst(chain)
    ensures ConstStops(types[id], chain) <==>
      ConstPath(chain).None? || Element(exp, id, ConstPath(chain).value).None?
    decreases |chain|
  {
    if chain != [] {
      var v := chain[0].v;
      if 0 <= v < NumKids(types[id]) {
        assert IsChild(exp, id, v, exp[id][v]);
        ConstStopsExact(types, exp, next, exp[id][v], chain[1..]);
      }
    }
  }

  ghost predicate Mixed(ty: Ty) {
    ty.Struct? && exists i, j :: 0 <= i < |ty.fields| && 0 <= j < |ty.fields| && ty.fields[i] != ty.fields[j]
  }

  // The index at position j is not a constant and the path leads there to a struct of different fields.
  ghost predicate RunTimeField(ty: Ty, chain: seq<Idx>, p: seq<nat>, j: nat) {
    j < |chain| == |p| && chain[j].Dyn? && StaysIn(ty, p[..j]) && Mixed(Along(ty, p[..j]))
  }

  ghost predicate ChoosesField(ty: Ty, chain: seq<Idx>, p: seq<nat>) {
    exists j: nat :: RunTimeField(ty, chain, p, j)
  }

  // The first index in bounds.
  lemma WalkStopsFirst(ty: Ty, chain: seq<Idx>, i: nat)
    requires chain != [] && i < NumKids(ty) && (chain[0].Const? ==> chain[0].v == i)
    ensures WalkStops(ty, chain) <==> (chain[0].Dyn? && Mixed(ty)) || WalkStops(Kid(ty, i), chain[1..])
  {
    match ty
    case Array(_, _) =>
    case Struct(fields) =>
      assert Mixed(ty) <==> exists i :: 0 <= i < |fields| && fields[i] != fields[0];
  }

  lemma RunTimeFieldNext(ty: Ty, chain: seq<Idx>, p: seq<nat>, j: nat)
    requires p != [] && p[0] < NumKids(ty)
    ensures RunTimeField(ty, chain, p, j + 1) <==> |chain| == |p| && RunTimeField(Kid(ty, p[0]), chain[1..], p[1..], j)
  {
    if j < |p| - 1 {
      assert p[..j + 1][1..] == p[1..][..j];
    }
  }

  lemma RunTimeFields(ty: Ty, chain: seq<Idx>, p: seq<nat>)
    requires p != [] && p[0] < NumKids(ty) && |chain| == |p|
    ensures ChoosesField(ty, chain, p) <==>
      (chain[0].Dyn? && Mixed(ty)) || ChoosesField(Kid(ty, p[0]), chain[1..], p[1..])
  {
    assert p[..0] == [];
    assert RunTimeField(ty, chain, p, 0) <==> chain[0].Dyn? && Mixed(ty);
    if j: nat :| RunTimeField(Kid(ty, p[0]), chain[1..], p[1..], j) {
      RunTimeFieldNext(ty, chain, p, j);
    }
    if j: nat :| RunTimeField(ty, chain, p, j) && j > 0 {
      RunTimeFieldNext(ty, chain, p, j - 1);
    }
  }

  // In bounds the walk stops exactly where a run-time index chooses among fields of different types.
  lemma {:induction false} WalkStopsInBounds(ty: Ty, chain: seq<Idx>, env: nat -> int)
    requires InBounds(ty, chain, env)
    ensures WalkStops(ty, chain) <==> ChoosesField(ty, chain, PathOf(chain, env))
    decreases |chain|
  {
    var p := PathOf(chain, env);
    if chain != [] {
      assert p[1..] == PathOf(chain[1..], env);
      WalkStopsInBounds(Kid(ty, p[0]), chain[1..], env);
      RunTimeFields(ty, chain, p);
      WalkStopsFirst(ty, chain, p[0]);
    }
  }

  lemma {:induction false} ConstInBounds(ty: Ty, chain: seq<Idx>, env: nat -> int)
    requires InBounds(ty, chain, env) && AllConst(chain)
    ensures !ConstStops(ty, chain)
    decreases |chain|
  {
    if chain != [] {
      assert PathOf(chain, env)[1..] == PathOf(chain[1..], env);
      ConstInBounds(Kid(ty, chain[0].v), chain[1..], env);
    }
  }

  // So an access in bounds is an error if and only if one of its run-time indices chooses among fields of different
  // types; run-time indices into arrays and into structs of equal fields never are.
  lemma StopsInBounds(ty: Ty, chain: seq<Idx>, env: nat -> int)
    requires InBounds(ty, chain, env)
    ensures PointerStops(ty, chain) <==> ChoosesField(ty, chain, PathOf(chain, env))
  {
    if AllConst(chain) {
      ConstInBounds(ty, chain, env);
    } else {
      WalkStopsInBounds(ty, chain, env);
    }
  }

  // The pointer that the rewritten access goes through: the first branch whose index is the offset.
  function Taken(branches: seq<Branch>, args: seq<Option<nat>>, offset: nat): Option<nat> {
    if branches == [] then None
    else if branches[0].index == offset && branches[0].param < |args| then args[branches[0].param]
    else Taken(branches[1..], args, offset)
  }

  function Target(access: Access, env: nat -> int): Option<nat> {
    match access
    case Direct(e) => Some(e)
    case Wrapper(offset, args, branches) => Taken(branches, args, Eval32(offset, env))
    case Failed => None
  }

  lemma {:induction false} TakenIs(branches: seq<Branch>, args: seq<Option<nat>>, offset: nat, j: nat, e: Option<nat>)
    requires j < |branches| && branches[j].index == offset
    requires forall i :: 0 <= i < |branches| && branches[i].index == offset ==>
      branches[i].param < |args| && args[branches[i].param] == e
    ensures Taken(branches, args, offset) == e
  {
    if !(branches[0].index == offset && branches[0].param < |args|) {
      TakenIs(branches[1..], args, offset, j - 1, e);
    }
  }

  // A rewritten access in bounds goes to the scalar of the path that the original access denotes.
  lemma AccessIsElement(types: Types, exp: Expansion, next: nat, id: nat, chain: seq<Idx>, ty: Ty, access: Access,
                        env: nat -> int)
    requires WellFormed(types, exp, next) && Disaggregated(types, exp, next, id) && NonEmpty(types[id])
    requires Count(types[id]) <= WORD && Rewritten(types, exp, id, chain, ty, access) && !access.Failed?
    requires InBounds(types[id], chain, env) && TypeAt(types[id], PathOf(chain, env)) == ty
    ensures Target(access, env) == Element(exp, id, PathOf(chain, env))
  {
    var p := PathOf(chain, env);
    match access
    case Direct(e) =>
      ConstPathIsPath(chain, env);
    case Wrapper(offset, args, branches) =>
      var slots :| SlotsOf(slots, types[id], []) && BranchesOf(branches, args, slots, |slots|, chain, ty, exp, id);
      OffsetIsRank(types[id], chain, env, offset);
      TargetSlot(types[id], chain, env, slots);
      BranchTaken(slots, branches, args, chain, ty, exp, id, Rank(types[id], p));
  }

  lemma OffsetIsRank(ty: Ty, chain: seq<Idx>, env: nat -> int, offset: Expr)
    requires NonEmpty(ty) && Count(ty) <= WORD && InBounds(ty, chain, env)
    requires FlatFrom(Lit(0), ty, chain) == Some(offset)
    ensures Eval32(offset, env) == Rank(ty, PathOf(chain, env))
  {
    FlatFromStops(Lit(0), ty, chain);
    FlatIsRank(Lit(0), ty, chain, env);
    RankIsPosition(ty, PathOf(chain, env));
  }

  // The slot at the flat index is the one of the path, and the chain does not rule it out.
  lemma TargetSlot(ty: Ty, chain: seq<Idx>, env: nat -> int, slots: seq<Slot>)
    requires NonEmpty(ty) && InBounds(ty, chain, env) && SlotsOf(slots, ty, [])
    ensures var p := PathOf(chain, env);
      Rank(ty, p) < |slots| && slots[Rank(ty, p)] == Slot(TypeAt(ty, p), p) &&
      Candidate(slots[Rank(ty, p)], chain, TypeAt(ty, p))
  {
    var p := PathOf(chain, env);
    RankIsPosition(ty, p);
    assert [] + p == p;
  }

  lemma BranchTaken(slots: seq<Slot>, branches: seq<Branch>, args: seq<Option<nat>>, chain: seq<Idx>, ty: Ty,
                    exp: Expansion, id: nat, k: nat)
    requires BranchesOf(branches, args, slots, |slots|, chain, ty, exp, id)
    requires k < |slots| && Candidate(slots[k], chain, ty)
    ensures Taken(branches, args, k) == Element(exp, id, slots[k].path)
  {
    var j :| 0 <= j < |branches| && branches[j].index == k;
    TakenIs(branches, args, k, j, Element(exp, id, slots[k].path));
  }
}
