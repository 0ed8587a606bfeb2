// Aggregate types, the paths to their scalars, and the rank of a path in the expansion of a type.
module CsroaTypes {

  datatype Ty = Scalar(kind: nat) | Array(n: nat, elem: Ty) | Struct(fields: seq<Ty>)

  function NumKids(ty: Ty): nat {
    match ty
    case Scalar(_) => 0
    case Array(n, _) => n
    case Struct(fields) => |fields|
  }

  function Kid(ty: Ty, i: nat): (kid: Ty)
    requires i < NumKids(ty)
    ensures kid < ty
  {
    match ty
    case Array(_, elem) => elem
    case Struct(fields) => fields[i]
  }

  // CountSublements::count
  function Count(ty: Ty): nat {
    match ty
    case Scalar(_) => 1
    case Array(n, elem) => n * Count(elem)
    case Struct(fields) => CountAll(fields)
  }

  function CountAll(fields: seq<Ty>): nat {
    if fields == [] then 0 else Count(fields[0]) + CountAll(fields[1..])
  }

  // No aggregate anywhere in the type has zero elements.
  predicate NonEmpty(ty: Ty) {
    match ty
    case Scalar(_) => true
    case Array(n, elem) => n > 0 && NonEmpty(elem)
    case Struct(fields) => |fields| > 0 && forall i :: 0 <= i < |fields| ==> NonEmpty(fields[i])
  }

  // The scalars in the first i elements.
  ghost function Offset(ty: Ty, i: nat): nat
    requires i <= NumKids(ty)
    decreases i
  {
    if i == 0 then 0 else Offset(ty, i - 1) + Count(Kid(ty, i - 1))
  }

  lemma {:induction false} CountAllSnoc(fields: seq<Ty>, i: nat)
    requires i < |fields|
    ensures CountAll(fields[..i + 1]) == CountAll(fields[..i]) + Count(fields[i])
  {
    if i > 0 {
      CountAllSnoc(fields[1..], i - 1);
      assert fields[1..][..i] == fields[..i + 1][1..];
      assert fields[1..][..i - 1] == fields[..i][1..];
    } else {
      assert fields[..1] == [fields[0]];
      assert fields[..1][1..] == [];
    }
  }

  lemma {:induction false} OffsetIsCount(ty: Ty, i: nat)
    requires i <= NumKids(ty)
    ensures match ty
      case Scalar(_) => true
      case Array(_, elem) => Offset(ty, i) == i * Count(elem)
      case Struct(fields) => Offset(ty, i) == CountAll(fields[..i])
    decreases i
  {
    if i > 0 {
      OffsetIsCount(ty, i - 1);
      if ty.Struct? {
        CountAllSnoc(ty.fields, i - 1);
      } else {
        assert i * Count(ty.elem) == (i - 1) * Count(ty.elem) + Count(ty.elem);
      }
    }
  }

  lemma CountIsOffset(ty: Ty)
    requires !ty.Scalar?
    ensures Count(ty) == Offset(ty, NumKids(ty))
  {
    OffsetIsCount(ty, NumKids(ty));
    if ty.Struct? {
      assert ty.fields[..|ty.fields|] == ty.fields;
    }
  }

  // A path that stays in bounds and ends at a scalar.
  predicate FullPath(ty: Ty, p: seq<nat>) {
    if p == [] then ty.Scalar? else p[0] < NumKids(ty) && FullPath(Kid(ty, p[0]), p[1..])
  }

  // A path that stays in bounds, wherever it ends.
  predicate StaysIn(ty: Ty, p: seq<nat>) {
    p == [] || (p[0] < NumKids(ty) && StaysIn(Kid(ty, p[0]), p[1..]))
  }

  // The type of what such a path leads to.
  function Along(ty: Ty, p: seq<nat>): Ty
    requires StaysIn(ty, p)
  {
    if p == [] then ty else Along(Kid(ty, p[0]), p[1..])
  }

  // The type a path leads to.
  function TypeAt(ty: Ty, p: seq<nat>): Ty
    requires FullPath(ty, p)
  {
    if p == [] then ty else TypeAt(Kid(ty, p[0]), p[1..])
  }

  function Prefixed(i: nat, ps: seq<seq<nat>>): (r: seq<seq<nat>>)
    ensures |r| == |ps| && forall j :: 0 <= j < |ps| ==> r[j] == [i] + ps[j]
  {
    if ps == [] then [] else [[i] + ps[0]] + Prefixed(i, ps[1..])
  }

  // The depth-first enumeration of expand_types: what has no expansion takes one slot.
  function Paths(ty: Ty): seq<seq<nat>>
    decreases ty, 1
  {
    if NumKids(ty) == 0 then [[]] else PathsUpTo(ty, NumKids(ty))
  }

  function PathsUpTo(ty: Ty, i: nat): seq<seq<nat>>
    requires i <= NumKids(ty)
    decreases ty, 0, i
  {
    if i == 0 then [] else PathsUpTo(ty, i - 1) + Prefixed(i - 1, Paths(Kid(ty, i - 1)))
  }

  // The flat index of a path.
  ghost function Rank(ty: Ty, p: seq<nat>): nat
    requires FullPath(ty, p)
  {
    if p == [] then 0 else Offset(ty, p[0]) + Rank(Kid(ty, p[0]), p[1..])
  }

  lemma KidNonEmpty(ty: Ty, i: nat)
    requires NonEmpty(ty) && i < NumKids(ty)
    ensures NonEmpty(Kid(ty, i))
  {
  }

  lemma NonEmptyKids(ty: Ty)
    requires NumKids(ty) > 0
    ensures NonEmpty(ty) <==> forall j :: 0 <= j < NumKids(ty) ==> NonEmpty(Kid(ty, j))
  {
    if ty.Array? {
      assert Kid(ty, 0) == ty.elem;
    } else {
      assert forall j :: 0 <= j < NumKids(ty) ==> Kid(ty, j) == ty.fields[j];
    }
  }

  lemma {:induction false} PathsCount(ty: Ty)
    requires NonEmpty(ty)
    ensures |Paths(ty)| == Count(ty) && Count(ty) > 0
    decreases ty, 1
  {
    if !ty.Scalar? {
      PathsUpToCount(ty, NumKids(ty));
      CountIsOffset(ty);
    }
  }

  lemma {:induction false} PathsUpToCount(ty: Ty, i: nat)
    requires NonEmpty(ty) && i <= NumKids(ty)
    ensures |PathsUpTo(ty, i)| == Offset(ty, i) && (i > 0 ==> Offset(ty, i) > 0)
    decreases ty, 0, i
  {
    if i > 0 {
      PathsUpToCount(ty, i - 1);
      KidNonEmpty(ty, i - 1);
      PathsCount(Kid(ty, i - 1));
    }
  }

  // Exactly the types without empty aggregates have as many slots as scalars.
  lemma {:induction false} SlotsAreScalars(ty: Ty)
    ensures |Paths(ty)| >= Count(ty)
    ensures |Paths(ty)| == Count(ty) <==> NonEmpty(ty)
    decreases ty, 1
  {
    if NumKids(ty) > 0 {
      SlotsUpTo(ty, NumKids(ty));
      CountIsOffset(ty);
      NonEmptyKids(ty);
    } else if !ty.Scalar? {
      CountIsOffset(ty);
    }
  }

  lemma {:induction false} SlotsUpTo(ty: Ty, i: nat)
    requires i <= NumKids(ty)
    ensures |PathsUpTo(ty, i)| >= Offset(ty, i)
    ensures |PathsUpTo(ty, i)| == Offset(ty, i) <==> forall j :: 0 <= j < i ==> NonEmpty(Kid(ty, j))
    decreases ty, 0, i
  {
    if i > 0 {
      SlotsUpTo(ty, i - 1);
      SlotsAreScalars(Kid(ty, i - 1));
    }
  }

  lemma EarlierPaths(ty: Ty, n: nat, j: nat)
    requires 0 < n <= NumKids(ty) && j < |PathsUpTo(ty, n - 1)|
    ensures j < |PathsUpTo(ty, n)| && PathsUpTo(ty, n)[j] == PathsUpTo(ty, n - 1)[j]
  {
  }

  lemma InSecond<T>(a: seq<T>, b: seq<T>, k: nat)
    requires k < |b|
    ensures |a| + k < |a + b| && (a + b)[|a| + k] == b[k]
  {
  }

  lemma LastPaths(ty: Ty, i: nat, k: nat)
    requires NonEmpty(ty) && i < NumKids(ty) && k < |Paths(Kid(ty, i))|
    ensures Offset(ty, i) + k < |PathsUpTo(ty, i + 1)|
    ensures PathsUpTo(ty, i + 1)[Offset(ty, i) + k] == [i] + Paths(Kid(ty, i))[k]
  {
    PathsUpToCount(ty, i);
    var before, last := PathsUpTo(ty, i), Prefixed(i, Paths(Kid(ty, i)));
    assert PathsUpTo(ty, i + 1) == before + last;
    InSecond(before, last, k);
  }

  lemma {:induction false} PathsUpToAt(ty: Ty, n: nat, i: nat, k: nat)
    requires NonEmpty(ty) && i < n <= NumKids(ty) && k < |Paths(Kid(ty, i))|
    ensures Offset(ty, i) + k < |PathsUpTo(ty, n)|
    ensures PathsUpTo(ty, n)[Offset(ty, i) + k] == [i] + Paths(Kid(ty, i))[k]
    decreases n
  {
    if i < n - 1 {
      PathsUpToAt(ty, n - 1, i, k);
      EarlierPaths(ty, n, Offset(ty, i) + k);
    } else {
      LastPaths(ty, i, k);
    }
  }

  // The flat index is the position of the path in the enumeration ...
  lemma {:induction false} RankIsPosition(ty: Ty, p: seq<nat>)
    requires NonEmpty(ty) && FullPath(ty, p)
    ensures Rank(ty, p) < Count(ty) == |Paths(ty)|
    ensures Paths(ty)[Rank(ty, p)] == p
    decreases p
  {
    PathsCount(ty);
    if p != [] {
      KidNonEmpty(ty, p[0]);
      RankIsPosition(Kid(ty, p[0]), p[1..]);
      PathsCount(Kid(ty, p[0]));
      PathsUpToAt(ty, NumKids(ty), p[0], Rank(Kid(ty, p[0]), p[1..]));
      assert p == [p[0]] + p[1..];
    }
  }

  // ... and every position is the flat index of the full path found there.
  lemma {:induction false} PositionIsRank(ty: Ty, k: nat)
    requires NonEmpty(ty) && k < |Paths(ty)|
    ensures FullPath(ty, Paths(ty)[k]) && Rank(ty, Paths(ty)[k]) == k
    decreases ty
  {
    PathsCount(ty);
    if !ty.Scalar? {
      CountIsOffset(ty);
      var i := ElementOf(ty, NumKids(ty), k);
      KidNonEmpty(ty, i);
      PathsCount(Kid(ty, i));
      PathsUpToAt(ty, NumKids(ty), i, k - Offset(ty, i));
      PositionIsRank(Kid(ty, i), k - Offset(ty, i));
      var q := Paths(Kid(ty, i))[k - Offset(ty, i)];
      assert ([i] + q)[1..] == q;
    }
  }

  // The element that holds the k-th scalar.
  lemma {:induction false} ElementOf(ty: Ty, n: nat, k: nat) returns (i: nat)
    requires n <= NumKids(ty) && k < Offset(ty, n)
    ensures i < n && Offset(ty, i) <= k < Offset(ty, i) + Count(Kid(ty, i))
    decreases n
  {
    if k < Offset(ty, n - 1) {
      i := ElementOf(ty, n - 1, k);
    } else {
      i := n - 1;
    }
  }

  // Different full paths have different flat indices.
  lemma RankInjective(ty: Ty, p: seq<nat>, q: seq<nat>)
    requires NonEmpty(ty) && FullPath(ty, p) && FullPath(ty, q) && Rank(ty, p) == Rank(ty, q)
    ensures p == q
  {
    RankIsPosition(ty, p);
    RankIsPosition(ty, q);
  }

  // A struct that can be indexed at run time: all fields have one type.
  predicate Homogeneous(fields: seq<Ty>) {
    |fields| > 0 && forall i :: 0 <= i < |fields| ==> fields[i] == fields[0]
  }

  lemma {:induction false} HomogeneousOffset(fields: seq<Ty>, i: nat)
    requires Homogeneous(fields) && i <= |fields|
    ensures Offset(Struct(fields), i) == i * Count(fields[0])
    decreases i
  {
    if i > 0 {
      HomogeneousOffset(fields, i - 1);
      assert i * Count(fields[0]) == (i - 1) * Count(fields[0]) + Count(fields[0]);
    }
  }

  lemma {:induction false} FullPathEnds(ty: Ty, p: seq<nat>)
    requires FullPath(ty, p)
    ensures TypeAt(ty, p).Scalar?
    decreases |p|
  {
    if p != [] {
      FullPathEnds(Kid(ty, p[0]), p[1..]);
    }
  }
}
