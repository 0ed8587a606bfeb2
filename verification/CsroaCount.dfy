// get_num_elements: counting scalars with a worklist of types.
module CsroaCount {
  import opened CsroaTypes

  const MAX_NUM_SCALAR_TYPES: nat := 32
  const MAX_TYPE_BYTE_SIZE: nat := 128

  // The number of types the worklist meets below a type, itself included.
  ghost function TypeSize(ty: Ty): nat
    decreases ty, 1
  {
    1 + TypeSizeUpTo(ty, NumKids(ty))
  }

  ghost function TypeSizeUpTo(ty: Ty, i: nat): nat
    requires i <= NumKids(ty)
    decreases ty, 0, i
  {
    if i == 0 then 0 else TypeSizeUpTo(ty, i - 1) + TypeSize(Kid(ty, i - 1))
  }

  ghost function TypeSizes(q: seq<Ty>): nat {
    if q == [] then 0 else TypeSize(q[0]) + TypeSizes(q[1..])
  }

  lemma {:induction false} CountAllAppend(a: seq<Ty>, b: seq<Ty>)
    ensures CountAll(a + b) == CountAll(a) + CountAll(b)
    ensures TypeSizes(a + b) == TypeSizes(a) + TypeSizes(b)
  {
    if a == [] {
      assert a + b == b;
    } else {
      assert (a + b)[1..] == a[1..] + b;
      CountAllAppend(a[1..], b);
    }
  }

  function ElementTypes(ty: Ty, i: nat): (q: seq<Ty>)
    requires i <= NumKids(ty)
    ensures |q| == i
  {
    if i == 0 then [] else ElementTypes(ty, i - 1) + [Kid(ty, i - 1)]
  }

  lemma {:induction false} KidsCount(ty: Ty, i: nat)
    requires i <= NumKids(ty)
    ensures CountAll(ElementTypes(ty, i)) == Offset(ty, i) && TypeSizes(ElementTypes(ty, i)) == TypeSizeUpTo(ty, i)
    decreases i
  {
    if i > 0 {
      KidsCount(ty, i - 1);
      CountAllAppend(ElementTypes(ty, i - 1), [Kid(ty, i - 1)]);
      assert [Kid(ty, i - 1)][1..] == [];
    }
  }

  lemma {:induction false} CopiesCount(ty: Ty, i: nat)
    ensures CountAll(seq(i, _ => ty)) == i * Count(ty)
    decreases i
  {
    if i > 0 {
      CopiesCount(ty, i - 1);
      assert seq(i, _ => ty)[1..] == seq(i - 1, _ => ty);
      assert i * Count(ty) == Count(ty) + (i - 1) * Count(ty);
    }
  }

  // The types a visited type pushes onto the worklist.
  method PushKids(contained: seq<Ty>, ty: Ty) returns (contained': seq<Ty>)
    ensures contained' == contained + ElementTypes(ty, NumKids(ty))
    ensures |contained'| == |contained| + NumKids(ty) && contained <= contained'
    ensures forall e :: 0 <= e < NumKids(ty) ==> contained'[|contained| + e] == Kid(ty, e)
  {
    contained' := contained;
    for e := 0 to NumKids(ty)
      invariant contained' == contained + ElementTypes(ty, e)
      invariant forall i :: 0 <= i < e ==> contained'[|contained| + i] == Kid(ty, i)
    {
      contained' := contained' + [Kid(ty, e)];
    }
  }

  lemma VisitStep(contained: seq<Ty>, i: nat)
    requires i < |contained|
    ensures var ty := contained[i];
      var contained' := contained + ElementTypes(ty, NumKids(ty));
      CountAll(contained'[i + 1..]) + (if ty.Scalar? then 1 else 0) == CountAll(contained[i..]) &&
      TypeSizes(contained'[i + 1..]) < TypeSizes(contained[i..])
  {
    var ty := contained[i];
    var kids := ElementTypes(ty, NumKids(ty));
    assert (contained + kids)[i + 1..] == contained[i + 1..] + kids;
    assert contained[i..] == [ty] + contained[i + 1..];
    CountAllAppend(contained[i + 1..], kids);
    KidsCount(ty, NumKids(ty));
    if !ty.Scalar? {
      CountIsOffset(ty);
    }
  }

  // The worklist terminates and counts the scalars of every copy of the type.
  method GetNumElements(ty: Ty, decayed: nat) returns (count: nat)
    ensures count == decayed * Count(ty)
  {
    var contained: seq<Ty> := seq(decayed, _ => ty);
    CopiesCount(ty, decayed);
    count := 0;
    var i := 0;
    assert contained[0..] == contained;
    while i < |contained|
      invariant i <= |contained| && count + CountAll(contained[i..]) == decayed * Count(ty)
      decreases TypeSizes(contained[i..])
    {
      VisitStep(contained, i);
      var el := contained[i];
      if el.Scalar? {
        count := count + 1;
        assert contained + ElementTypes(el, NumKids(el)) == contained;
      } else {
        contained := PushKids(contained, el);
      }
      i := i + 1;
    }
  }

  predicate Expandable(ty: Ty, size: nat) {
    Count(ty) <= MAX_NUM_SCALAR_TYPES && size <= MAX_TYPE_BYTE_SIZE
  }

  // compute_alloca_expandability_profit, without its profits.
  method IsExpandable(ty: Ty, size: nat) returns (expandable: bool)
    ensures expandable == Expandable(ty, size)
    ensures expandable <==> Count(ty) <= 32 && size <= 128
  {
    var count := GetNumElements(ty, 1);
    expandable := count <= MAX_NUM_SCALAR_TYPES && size <= MAX_TYPE_BYTE_SIZE;
  }

  // What the bound means: as many scalars as slots, and every flat index fits in 5 bits of a word.
  lemma ExpandableIndices(ty: Ty, size: nat, p: seq<nat>)
    requires NonEmpty(ty) && Expandable(ty, size) && FullPath(ty, p)
    ensures |Paths(ty)| == Count(ty) && Rank(ty, p) < 32
    ensures forall q :: q <= p && q != p ==> PartialIndex(ty, q) <= Rank(ty, p)
  {
    RankIsPosition(ty, p);
    forall q | q <= p && q != p
      ensures PartialIndex(ty, q) <= Rank(ty, p)
    {
      PartialBelow(ty, p, q);
    }
  }

  // The running sum after the indices q.
  ghost function PartialIndex(ty: Ty, q: seq<nat>): nat {
    if q == [] || q[0] >= NumKids(ty) then 0 else Offset(ty, q[0]) + PartialIndex(Kid(ty, q[0]), q[1..])
  }

  lemma {:induction false} PartialBelow(ty: Ty, p: seq<nat>, q: seq<nat>)
    requires FullPath(ty, p) && q <= p
    ensures PartialIndex(ty, q) <= Rank(ty, p)
  {
    if q != [] {
      PartialBelow(Kid(ty, p[0]), p[1..], q[1..]);
    }
  }
}
