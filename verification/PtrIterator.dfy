// runOnLoop: pointer iterators rewritten as one base pointer plus 32-bit indices.
module PtrIterator {
  import opened Wrappers
  import opened Modular

  // Integer values of the loop: constants, variables, the new index of a pointer, and emitted sums.
  datatype Index = Const(v: int) | Var(x: nat) | IndexOf(p: nat) | Sum(a: Index, b: Index)

  function Eval(e: Index, vars: nat -> int, idxs: map<nat, int>): int {
    match e
    case Const(v) => Signed(v, WORD)
    case Var(x) => Signed(vars(x), WORD)
    case IndexOf(p) => if p in idxs then idxs[p] else 0
    case Sum(a, b) => Signed(Eval(a, vars, idxs) + Eval(b, vars, idxs), WORD)
  }

  // operate_on_index: constants are folded and zeros dropped.
  function OperateOnIndex(lhs: Index, rhs: Index): Index {
    match (lhs, rhs)
    case (Const(a), Const(b)) => Const(a + b)
    case (Const(a), _) => if a == 0 then rhs else Sum(lhs, rhs)
    case (_, Const(b)) => if b == 0 then lhs else Sum(lhs, rhs)
    case (_, _) => Sum(rhs, lhs)
  }

  ghost predicate InRange(idxs: map<nat, int>) {
    forall p :: p in idxs ==> FitsSigned(idxs[p], WORD)
  }

  lemma EvalFits(e: Index, vars: nat -> int, idxs: map<nat, int>)
    requires InRange(idxs)
    ensures Signed(Eval(e, vars, idxs), WORD) == Eval(e, vars, idxs)
  {
    match e
    case Const(v) => SignedExact(v, WORD); SignedExact(Signed(v, WORD), WORD);
    case Var(x) => SignedExact(vars(x), WORD); SignedExact(Signed(vars(x), WORD), WORD);
    case IndexOf(p) => SignedExact(if p in idxs then idxs[p] else 0, WORD);
    case Sum(a, b) =>
      var s := Eval(a, vars, idxs) + Eval(b, vars, idxs);
      SignedExact(s, WORD);
      SignedExact(Signed(s, WORD), WORD);
  }

  lemma OperateAdds(lhs: Index, rhs: Index, vars: nat -> int, idxs: map<nat, int>)
    requires InRange(idxs)
    ensures Eval(OperateOnIndex(lhs, rhs), vars, idxs) == Signed(Eval(lhs, vars, idxs) + Eval(rhs, vars, idxs), WORD)
    ensures var e := OperateOnIndex(lhs, rhs);
      e in {lhs, rhs} || e.Const? || (e.Sum? && !(e.a.Const? && e.b.Const?) && e.a != Const(0) && e.b != Const(0))
  {
    EvalFits(lhs, vars, idxs);
    EvalFits(rhs, vars, idxs);
    if lhs.Const? && rhs.Const? {
      SignedSum(lhs.v, Signed(rhs.v, WORD), WORD);
      SignedSum(rhs.v, lhs.v, WORD);
    } else {
      SignedExact(0, WORD);
    }
  }

  // Pointers outside the loop: a value is a single-index address computation on another one, or a root.
  type Outside = map<nat, (nat, Index)>

  // Address computations use earlier values.
  ghost predicate Ordered(ext: Outside) {
    forall v :: v in ext ==> ext[v].0 < v
  }

  // The values that v is computed from, v first.
  function ChainOf(ext: Outside, v: nat): (c: seq<nat>)
    requires Ordered(ext)
    ensures c != [] && c[0] == v
  {
    if v in ext then [v] + ChainOf(ext, ext[v].0) else [v]
  }

  // The address of an outside pointer when roots are at the addresses given by root.
  ghost function Address(ext: Outside, v: nat, root: nat -> int, vars: nat -> int): int
    requires Ordered(ext)
  {
    if v in ext then Address(ext, ext[v].0, root, vars) + Eval(ext[v].1, vars, map[]) else root(v)
  }

  // What of a chain has been met when it was followed k - 1 steps.
  function Upto(chain: seq<nat>, k: nat): seq<nat> {
    if k <= |chain| then chain[..k] else chain
  }

  // c was met from every external.
  ghost predicate SharedUpto(ext: Outside, externals: seq<nat>, k: nat, c: nat)
    requires Ordered(ext)
  {
    forall i :: 0 <= i < |externals| ==> c in Upto(ChainOf(ext, externals[i]), k)
  }

  // All externals are computed from c.
  ghost predicate Shared(ext: Outside, externals: seq<nat>, c: nat)
    requires Ordered(ext)
  {
    forall i :: 0 <= i < |externals| ==> c in ChainOf(ext, externals[i])
  }

  lemma {:induction false} ChainNext(ext: Outside, v: nat, i: nat)
    requires Ordered(ext) && i < |ChainOf(ext, v)|
    ensures ChainOf(ext, v)[i] in ext <==> i + 1 < |ChainOf(ext, v)|
    ensures i + 1 < |ChainOf(ext, v)| ==> ChainOf(ext, v)[i + 1] == ext[ChainOf(ext, v)[i]].0
  {
    if v in ext && i > 0 {
      ChainNext(ext, ext[v].0, i - 1);
    }
  }

  // Along a chain the values decrease.
  lemma {:induction false} ChainDecreases(ext: Outside, v: nat, i: nat, j: nat)
    requires Ordered(ext) && i < j < |ChainOf(ext, v)|
    ensures ChainOf(ext, v)[j] < ChainOf(ext, v)[i]
    decreases j
  {
    ChainNext(ext, v, j - 1);
    if i < j - 1 {
      ChainDecreases(ext, v, i, j - 1);
    }
  }

  // A value met in the last step only is the last one met.
  lemma NewestIsLowest(ext: Outside, v: nat, k: nat, c: nat, d: nat)
    requires Ordered(ext) && k > 0
    requires c in Upto(ChainOf(ext, v), k) && c !in Upto(ChainOf(ext, v), k - 1) && d in Upto(ChainOf(ext, v), k)
    ensures c <= d
  {
    var chain := ChainOf(ext, v);
    var i :| 0 <= i < |Upto(chain, k)| && Upto(chain, k)[i] == c;
    var j :| 0 <= j < |Upto(chain, k)| && Upto(chain, k)[j] == d;
    assert forall x :: 0 <= x < |Upto(chain, k - 1)| ==> Upto(chain, k - 1)[x] == Upto(chain, k)[x];
    if j < i {
      ChainDecreases(ext, v, j, i);
    }
  }

  // At the first step that shares something, it shares one value only, and no lower value is shared later.
  lemma FirstSharedIsUnique(ext: Outside, externals: seq<nat>, k: nat, c: nat, d: nat)
    requires Ordered(ext) && k > 0
    requires SharedUpto(ext, externals, k, c) && SharedUpto(ext, externals, k, d)
    requires !SharedUpto(ext, externals, k - 1, c) && !SharedUpto(ext, externals, k - 1, d)
    ensures c == d
  {
    var i :| 0 <= i < |externals| && c !in Upto(ChainOf(ext, externals[i]), k - 1);
    NewestIsLowest(ext, externals[i], k, c, d);
    var j :| 0 <= j < |externals| && d !in Upto(ChainOf(ext, externals[j]), k - 1);
    NewestIsLowest(ext, externals[j], k, d, c);
  }

  // From a value on, a chain is the chain of that value.
  lemma {:induction false} ChainFrom(ext: Outside, v: nat, i: nat, j: nat)
    requires Ordered(ext) && i <= j < |ChainOf(ext, v)|
    ensures ChainOf(ext, v)[j] in ChainOf(ext, ChainOf(ext, v)[i])
  {
    if i > 0 {
      ChainFrom(ext, ext[v].0, i - 1, j - 1);
    }
  }

  // Every address that all externals are computed from is one that the first address met by all is computed from.
  lemma FirstIsNearest(ext: Outside, externals: seq<nat>, k: nat, c: nat, d: nat)
    requires Ordered(ext) && k > 0 && NoneShared(ext, externals, k - 1)
    requires SharedUpto(ext, externals, k, c) && Shared(ext, externals, d)
    ensures d in ChainOf(ext, c)
  {
    assert !SharedUpto(ext, externals, k - 1, c) && !SharedUpto(ext, externals, k - 1, d);
    var i :| 0 <= i < |externals| && c !in Upto(ChainOf(ext, externals[i]), k - 1);
    var j :| 0 <= j < |externals| && d !in Upto(ChainOf(ext, externals[j]), k - 1);
    BeforeOrBehind(ext, externals[i], k, c, d);
    NotBefore(ext, externals[j], k, c, d);
  }

  lemma BeforeOrBehind(ext: Outside, v: nat, k: nat, c: nat, d: nat)
    requires Ordered(ext) && k > 0 && c in Upto(ChainOf(ext, v), k) && d in ChainOf(ext, v)
    ensures d in ChainOf(ext, c) || c < d
  {
    var chain := ChainOf(ext, v);
    var i :| 0 <= i < |Upto(chain, k)| && Upto(chain, k)[i] == c;
    assert chain[i] == c;
    var j :| 0 <= j < |chain| && chain[j] == d;
    if i <= j {
      ChainFrom(ext, v, i, j);
    } else {
      ChainDecreases(ext, v, j, i);
    }
  }

  lemma NotBefore(ext: Outside, v: nat, k: nat, c: nat, d: nat)
    requires Ordered(ext) && k > 0 && c in Upto(ChainOf(ext, v), k) && d in ChainOf(ext, v)
    requires d !in Upto(ChainOf(ext, v), k - 1)
    ensures d <= c
  {
    var chain := ChainOf(ext, v);
    var i :| 0 <= i < |Upto(chain, k)| && Upto(chain, k)[i] == c;
    var j :| 0 <= j < |chain| && chain[j] == d;
    assert chain[i] == c;
    if i < j {
      ChainDecreases(ext, v, i, j);
    }
  }

  // The search state: how far each external has been followed, and the values met on the way.
  datatype Follow = Follow(at: nat, met: set<nat>)

  ghost predicate Followed(f: Follow, chain: seq<nat>, k: nat) {
    0 < k && chain != [] &&
    f.at == Upto(chain, k)[|Upto(chain, k)| - 1] &&
    forall x :: x in f.met <==> x in Upto(chain, k)
  }

  ghost predicate Following(ext: Outside, externals: seq<nat>, fs: seq<Follow>, k: nat)
    requires Ordered(ext)
  {
    |fs| == |externals| && forall i :: 0 <= i < |fs| ==> Followed(fs[i], ChainOf(ext, externals[i]), k)
  }

  // Follows one external one step further.
  method FollowOne(ext: Outside, ghost v: nat, f: Follow, ghost k: nat) returns (f': Follow, updated: bool)
    requires Ordered(ext) && Followed(f, ChainOf(ext, v), k)
    ensures Followed(f', ChainOf(ext, v), k + 1)
    ensures updated <==> k < |ChainOf(ext, v)|
  {
    ghost var chain := ChainOf(ext, v);
    f', updated := f, f.at in ext;
    ChainNext(ext, v, |Upto(chain, k)| - 1);
    if updated {
      var next := ext[f.at].0;
      f' := Follow(next, f.met + {next});
      assert Upto(chain, k + 1) == Upto(chain, k) + [next];
    } else {
      assert Upto(chain, k + 1) == Upto(chain, k);
    }
  }

  // One round: intersect what was met so far, then follow every external one step.
  method SearchRound(ext: Outside, externals: seq<nat>, fs0: seq<Follow>, ghost k: nat, ghost next: nat)
    returns (fs: seq<Follow>, intersection: set<nat>, updates: nat)
    requires Ordered(ext) && fs0 != [] && Following(ext, externals, fs0, k) && next == k + 1
    ensures Following(ext, externals, fs, next)
    ensures forall c :: c in intersection <==> SharedUpto(ext, externals, k, c)
    ensures updates == 0 <==> forall i :: 0 <= i < |externals| ==> |ChainOf(ext, externals[i])| <= k
  {
    fs, intersection, updates := fs0, fs0[0].met, 0;
    for i := 0 to |fs|
      invariant |fs| == |fs0|
      invariant forall j :: i <= j < |fs| ==> fs[j] == fs0[j]
      invariant forall j :: 0 <= j < i ==> Followed(fs[j], ChainOf(ext, externals[j]), next)
      invariant forall c :: c in intersection <==>
        c in fs0[0].met && forall j :: 0 <= j < i ==> c in Upto(ChainOf(ext, externals[j]), k)
      invariant updates == 0 <==> forall j :: 0 <= j < i ==> |ChainOf(ext, externals[j])| <= k
    {
      intersection := intersection * fs[i].met;
      var f, updated := FollowOne(ext, externals[i], fs[i], k);
      fs := fs[i := f];
      updates := updates + if updated then 1 else 0;
    }
  }

  ghost predicate NoneShared(ext: Outside, externals: seq<nat>, k: nat)
    requires Ordered(ext)
  {
    forall c: nat :: !SharedUpto(ext, externals, k, c)
  }

  // With every chain followed to its end, what is shared so far is all that is shared.
  lemma AllFollowed(ext: Outside, externals: seq<nat>, k: nat)
    requires Ordered(ext) && forall i :: 0 <= i < |externals| ==> |ChainOf(ext, externals[i])| <= k
    ensures forall c: nat :: SharedUpto(ext, externals, k, c) <==> Shared(ext, externals, c)
  {
    forall c: nat ensures SharedUpto(ext, externals, k, c) <==> Shared(ext, externals, c) {
      if SharedUpto(ext, externals, k, c) {
        assert forall i :: 0 <= i < |externals| ==> c in Upto(ChainOf(ext, externals[i]), k);
      }
    }
  }

  ghost predicate Unshared(ext: Outside, externals: seq<nat>)
    requires Ordered(ext)
  {
    forall c: nat :: !Shared(ext, externals, c)
  }

  ghost predicate Nearest(ext: Outside, externals: seq<nat>, c: nat)
    requires Ordered(ext)
  {
    forall d: nat :: Shared(ext, externals, d) ==> d in ChainOf(ext, c)
  }

  // The first round with something in the intersection has one value in it.
  lemma FirstIntersection(ext: Outside, externals: seq<nat>, done: nat, k: nat, intersection: set<nat>)
    requires Ordered(ext) && k == done + 1 && externals != []
    requires NoneShared(ext, externals, done)
    requires forall c :: c in intersection <==> SharedUpto(ext, externals, k, c)
    ensures |intersection| <= 1
    ensures intersection == {} ==> NoneShared(ext, externals, k)
    ensures intersection == {} && (forall i :: 0 <= i < |externals| ==> |ChainOf(ext, externals[i])| <= k) ==>
      Unshared(ext, externals)
    ensures forall c :: c in intersection ==> Shared(ext, externals, c) && Nearest(ext, externals, c)
  {
    if c :| c in intersection {
      forall d: nat | Shared(ext, externals, d) ensures d in ChainOf(ext, c) {
        FirstIsNearest(ext, externals, k, c, d);
      }
      forall d | d in intersection ensures d == c {
        FirstSharedIsUnique(ext, externals, k, c, d);
      }
      assert intersection == {c};
      assert forall i :: 0 <= i < |externals| ==> c in Upto(ChainOf(ext, externals[i]), k);
    } else if forall i :: 0 <= i < |externals| ==> |ChainOf(ext, externals[i])| <= k {
      AllFollowed(ext, externals, k);
    }
  }

  ghost function Longest(ext: Outside, externals: seq<nat>): (n: nat)
    requires Ordered(ext)
    ensures forall i :: 0 <= i < |externals| ==> |ChainOf(ext, externals[i])| <= n
  {
    if externals == [] then 0
    else |ChainOf(ext, externals[0])| + Longest(ext, externals[1..])
  }

  // The search for one address that all externals are computed from: it finds one exactly when there is one, and the
  // nearest, which is computed from all others.
  method CommonExternal(ext: Outside, externals: seq<nat>) returns (common: Option<nat>)
    requires Ordered(ext)
    ensures common.Some? ==> Shared(ext, externals, common.value) && Nearest(ext, externals, common.value)
    ensures common.None? <==> externals == [] || Unshared(ext, externals)
  {
    var fs := seq(|externals|, i requires 0 <= i < |externals| => Follow(externals[i], {externals[i]}));
    common := None;
    var iterate := true;
    ghost var done, k := 0, 1;
    while iterate && fs != []
      invariant k == done + 1 && Following(ext, externals, fs, k)
      invariant iterate ==> common.None? && (externals != [] ==> NoneShared(ext, externals, done))
      invariant common.Some? ==>
        fs != [] && Shared(ext, externals, common.value) && Nearest(ext, externals, common.value)
      invariant !iterate && common.None? ==> externals == [] || Unshared(ext, externals)
      decreases iterate, Longest(ext, externals) + 1 - k
    {
      var intersection, updates;
      ghost var next := k + 1;
      fs, intersection, updates := SearchRound(ext, externals, fs, k, next);
      FirstIntersection(ext, externals, done, k, intersection);
      if |intersection| == 1 {
        var c :| c in intersection;
        common := Some(c);
        iterate := false;
      } else {
        iterate := |intersection| == 0 && updates > 0;
      }
      done, k := k, next;
    }
  }

  // The offset of an external with respect to the common one.
  function OffsetFrom(ext: Outside, v: nat, common: nat, offset: Index): Index
    requires Ordered(ext)
    decreases v
  {
    if v in ext && v != common then OffsetFrom(ext, ext[v].0, common, OperateOnIndex(offset, ext[v].1)) else offset
  }

  method ExternalOffset(ext: Outside, v: nat, common: nat) returns (offset: Index)
    requires Ordered(ext)
    ensures offset == OffsetFrom(ext, v, common, Const(0))
  {
    offset := Const(0);
    var use := v;
    while use in ext && use != common
      invariant OffsetFrom(ext, use, common, offset) == OffsetFrom(ext, v, common, Const(0))
      decreases use
    {
      offset := OperateOnIndex(offset, ext[use].1);
      use := ext[use].0;
    }
  }

  // Where following the computations of v ends: at the common address, or at a root if v is not computed from it.
  ghost function EndOf(ext: Outside, v: nat, common: nat): nat
    requires Ordered(ext)
    decreases v
  {
    if v in ext && v != common then EndOf(ext, ext[v].0, common) else v
  }

  lemma {:induction false} EndIsCommon(ext: Outside, v: nat, common: nat)
    requires Ordered(ext)
    ensures EndOf(ext, v, common) == common <==> common in ChainOf(ext, v)
    decreases v
  {
    if v in ext && v != common {
      EndIsCommon(ext, ext[v].0, common);
      assert ChainOf(ext, v) == [v] + ChainOf(ext, ext[v].0);
    } else {
      assert v == ChainOf(ext, v)[0];
    }
  }

  // The offset is the distance of v from there, in words.
  lemma {:induction false} OffsetIsDistance(ext: Outside, v: nat, common: nat, offset: Index, root: nat -> int,
                                            vars: nat -> int)
    requires Ordered(ext)
    ensures Eval(OffsetFrom(ext, v, common, offset), vars, map[])
         == Signed(Eval(offset, vars, map[]) +
                   (Address(ext, v, root, vars) - Address(ext, EndOf(ext, v, common), root, vars)), WORD)
    decreases v
  {
    if v in ext && v != common {
      var next := OperateOnIndex(offset, ext[v].1);
      OffsetIsDistance(ext, ext[v].0, common, next, root, vars);
      OperateAdds(offset, ext[v].1, vars, map[]);
      SignedSum(Eval(offset, vars, map[]) + Eval(ext[v].1, vars, map[]),
                Address(ext, ext[v].0, root, vars) - Address(ext, EndOf(ext, v, common), root, vars), WORD);
    } else {
      EvalFits(offset, vars, map[]);
    }
  }
}
