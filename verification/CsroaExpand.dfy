// Expansion of aggregate variables into trees of variables, one variable per element.
module CsroaExpand {
  import opened Wrappers
  import opened Collections
  import opened CsroaTypes

  type Types = map<nat, Ty>
  type Expansion = map<nat, seq<nat>>

  // The element of parent p at position i.
  ghost predicate IsChild(exp: Expansion, p: nat, i: nat, c: nat) {
    p in exp && i < |exp[p]| && exp[p][i] == c
  }

  ghost predicate IsRoot(exp: Expansion, id: nat) {
    forall p: nat, i: nat :: !IsChild(exp, p, i, id)
  }

  // Variables below next exist; elements are younger than their aggregate, belong to it alone and
  // have the types of its elements.
  ghost predicate WellFormed(types: Types, exp: Expansion, next: nat) {
    (forall x :: x in types ==> x < next) &&
    (forall p :: p in exp ==> p in types && |exp[p]| <= NumKids(types[p])) &&
    (forall p: nat, i: nat, c: nat :: IsChild(exp, p, i, c) ==>
      c in types && p < c && types[c] == Kid(types[p], i)) &&
    (forall p: nat, i: nat, q: nat, j: nat, c: nat ::
      IsChild(exp, p, i, c) && IsChild(exp, q, j, c) ==> p == q && i == j)
  }

  // A variable has all its elements: none for a scalar, which has no entry in the map.
  ghost predicate Complete(types: Types, exp: Expansion, id: nat) {
    id in types &&
    if NumKids(types[id]) == 0 then id !in exp else id in exp && |exp[id]| == NumKids(types[id])
  }

  // get_element_at_idx; None stands for the error exits.
  function Element(exp: Expansion, id: nat, p: seq<nat>): Option<nat>
    decreases |p|
  {
    if p == [] then Some(id)
    else if id !in exp || p[0] >= |exp[id]| then None
    else Element(exp, exp[id][p[0]], p[1..])
  }

  // Everything that a variable was expanded into is complete.
  ghost predicate AllComplete(types: Types, exp: Expansion, from: nat, to: nat) {
    forall x :: from <= x < to ==> Complete(types, exp, x)
  }

  class Allocas {
    var types: Types
    var exp: Expansion
    var next: nat

    ghost predicate Valid()
      reads this
    {
      WellFormed(types, exp, next)
    }

    constructor ()
      ensures Valid() && types == map[] && exp == map[] && next == 0
    {
      types, exp, next := map[], map[], 0;
    }

    // The variables that there are.
    constructor From(types: Types, exp: Expansion, next: nat)
      requires WellFormed(types, exp, next)
      ensures Valid() && this.types == types && this.exp == exp && this.next == next
    {
      this.types, this.exp, this.next := types, exp, next;
    }

    // A new alloca, pushed as the next element of an aggregate.
    method PushElement(id: nat, ty: Ty) returns (c: nat)
      requires Valid() && id in types
      requires var i := if id in exp then |exp[id]| else 0; i < NumKids(types[id]) && ty == Kid(types[id], i)
      modifies this
      ensures Valid() && c == old(next) && next == c + 1 && types == old(types)[c := ty]
      ensures exp == old(exp)[id := (if id in old(exp) then old(exp)[id] else []) + [c]]
    {
      c := next;
      next := next + 1;
      types := types[c := ty];
      exp := exp[id := (if id in exp then exp[id] else []) + [c]];
      PushKeeps(old(types), old(exp), c, id, ty);
    }

    // expand_alloca: the alloca and everything created below it end up complete, the rest is untouched. As many
    // scalars are created as the type has.
    method ExpandAlloca(id: nat)
      requires Valid() && id in types && id !in exp
      modifies this
      ensures Valid() && old(next) <= next
      ensures Complete(types, exp, id) && AllComplete(types, exp, old(next), next)
      ensures Kept(old(types), old(exp), types, exp, old(next), id)
      ensures ElementsFrom(exp, id, old(next))
      ensures ScalarsIn(types, old(next), next) == NewScalars(types[id])
      decreases types[id], 1
    {
      ghost var ty, from := types[id], next;
      for i := 0 to NumKids(types[id])
        invariant Valid() && from <= next && id in types && types[id] == ty
        invariant Expanding(old(types), old(exp), types, exp, from, next, id, i)
      {
        ExpandElement(id, i, old(types), old(exp), from);
      }
      AllCounted(ty);
    }

    // One element: created, and expanded in turn.
    method ExpandElement(id: nat, i: nat, ghost types0: Types, ghost exp0: Expansion, ghost from: nat)
      requires Valid() && id in types && id < from <= next && i < NumKids(types[id])
      requires Expanding(types0, exp0, types, exp, from, next, id, i)
      modifies this
      ensures Valid() && from <= next && id in types && types[id] == old(types)[id]
      ensures Expanding(types0, exp0, types, exp, from, next, id, i + 1)
      decreases types[id], 0
    {
      var ty := types[id];
      ghost var types1, exp1 := types, exp;
      var c := PushElement(id, Kid(ty, i));
      ghost var types2, exp2 := types, exp;
      ExpandAlloca(c);
      OneExpanded(types0, exp0, types1, exp1, types2, exp2, types, exp, from, c, id, next, i);
    }

    // expand_allocas: every listed aggregate, one after the other.
    method ExpandAllocas(ids: seq<nat>)
      requires Valid() && Distinct(ids) && forall x :: x in ids ==> Unexpanded(types, exp, x)
      modifies this
      ensures Valid() && Grown(old(types), old(exp), old(next), types, exp, next, Members(ids))
      ensures forall x :: x in ids ==> Disaggregated(types, exp, next, x) && IsRoot(exp, x)
    {
      assert ids[..0] == [] && forall x :: x in ids ==> x < next;
      for n := 0 to |ids|
        invariant Valid() && Grown(old(types), old(exp), old(next), types, exp, next, Members(ids[..n]))
        invariant forall x :: x in ids[..n] ==> Disaggregated(types, exp, next, x)
      {
        NextRoot(ids, n, old(next));
        ghost var done: set<nat>, id := Members(ids[..n]), ids[n];
        GrownUnexpanded(old(types), old(exp), old(next), types, exp, next, done, id);
        ghost var types0, exp0, next0 := types, exp, next;
        if !types[ids[n]].Scalar? {
          ExpandAlloca(ids[n]);
        }
        RootExpanded(types0, exp0, next0, types, exp, next, ids[..n], id);
        GrownTwice(old(types), old(exp), old(next), types0, exp0, next0, types, exp, next, done, id);
      }
      assert ids[..|ids|] == ids;
      forall x | x in ids ensures IsRoot(exp, x) {
        RootStays(old(types), old(exp), old(next), types, exp, next, Members(ids), x);
      }
    }
  }

  // A variable that was not created by an expansion and has not been expanded.
  ghost predicate Unexpanded(types: Types, exp: Expansion, id: nat) {
    id in types && id !in exp && IsRoot(exp, id)
  }

  // The number of scalar variables from from to to.
  ghost function ScalarsIn(types: Types, from: nat, to: nat): nat {
    if to <= from then 0
    else ScalarsIn(types, from, to - 1) + if to - 1 in types && types[to - 1].Scalar? then 1 else 0
  }

  // The scalars that an expansion creates.
  ghost function NewScalars(ty: Ty): nat {
    if ty.Scalar? then 0 else Count(ty)
  }

  lemma {:induction false} ScalarsSplit(types: Types, a: nat, b: nat, c: nat)
    requires a <= b <= c
    ensures ScalarsIn(types, a, c) == ScalarsIn(types, a, b) + ScalarsIn(types, b, c)
  {
    if b < c {
      ScalarsSplit(types, a, b, c - 1);
    }
  }

  lemma {:induction false} ScalarsKept(types: Types, types': Types, a: nat, b: nat)
    requires forall x :: a <= x < b ==> x in types
    requires forall x :: x in types ==> x in types' && types'[x] == types[x]
    ensures ScalarsIn(types', a, b) == ScalarsIn(types, a, b)
  {
    if a < b {
      ScalarsKept(types, types', a, b - 1);
    }
  }

  // Element i of ty has been created as c and expanded.
  lemma ElementCounted(types0: Types, types: Types, from: nat, c: nat, to: nat, ty: Ty, i: nat)
    requires from <= c < to && i < NumKids(ty) && c in types && types[c] == Kid(ty, i)
    requires forall x :: from <= x < c ==> x in types0
    requires forall x :: x in types0 ==> x in types && types[x] == types0[x]
    requires ScalarsIn(types0, from, c) == Offset(ty, i) && ScalarsIn(types, c + 1, to) == NewScalars(types[c])
    ensures ScalarsIn(types, from, to) == Offset(ty, i + 1)
  {
    ScalarsKept(types0, types, from, c);
    ScalarsSplit(types, from, c + 1, to);
  }

  lemma AllCounted(ty: Ty)
    ensures Offset(ty, NumKids(ty)) == NewScalars(ty)
  {
    if !ty.Scalar? {
      CountIsOffset(ty);
    }
  }

  // What an expansion of the given roots keeps: all types, and the elements of everything else that there was.
  ghost predicate Grown(types0: Types, exp0: Expansion, next0: nat, types: Types, exp: Expansion, next: nat,
                        roots: set<nat>) {
    next0 <= next && (forall x :: x in types0 ==> x in types && types[x] == types0[x]) &&
    (forall x :: x < next0 && x !in roots ==> (x in exp <==> x in exp0)) &&
    (forall x :: x < next0 && x !in roots && x in exp0 ==> x in exp && exp[x] == exp0[x]) &&
    (forall x :: x in roots ==> ElementsFrom(exp, x, next0))
  }

  lemma NextRoot(ids: seq<nat>, n: nat, bound: nat)
    requires n < |ids| && Distinct(ids) && forall x: nat :: x in ids ==> x < bound
    ensures ids[..n + 1] == ids[..n] + [ids[n]] && Members(ids[..n + 1]) == Members(ids[..n]) + {ids[n]}
    ensures ids[n] !in Members(ids[..n]) && forall x: nat :: x in Members(ids[..n]) ==> x < bound
  {
    DistinctAt(ids, n);
    assert forall x: nat :: x in ids[..n] ==> x in ids;
  }

  lemma GrownUnexpanded(types0: Types, exp0: Expansion, next0: nat, types: Types, exp: Expansion, next: nat,
                        roots: set<nat>, x: nat)
    requires WellFormed(types0, exp0, next0) && WellFormed(types, exp, next)
    requires Grown(types0, exp0, next0, types, exp, next, roots) && x !in roots && Unexpanded(types0, exp0, x)
    ensures Unexpanded(types, exp, x)
  {
    RootStays(types0, exp0, next0, types, exp, next, roots, x);
  }

  lemma RootStays(types0: Types, exp0: Expansion, next0: nat, types: Types, exp: Expansion, next: nat,
                  roots: set<nat>, x: nat)
    requires WellFormed(types0, exp0, next0) && WellFormed(types, exp, next)
    requires Grown(types0, exp0, next0, types, exp, next, roots) && x in types0 && IsRoot(exp0, x)
    ensures IsRoot(exp, x)
  {
    forall p: nat, i: nat ensures !IsChild(exp, p, i, x) {
      if IsChild(exp, p, i, x) && p !in roots {
        assert IsChild(exp0, p, i, x);
      }
    }
  }

  lemma {:induction false} DisaggregatedKept(types0: Types, exp0: Expansion, next0: nat, types: Types, exp: Expansion,
                                             next: nat, roots: set<nat>, x: nat)
    requires WellFormed(types0, exp0, next0) && WellFormed(types, exp, next)
    requires Grown(types0, exp0, next0, types, exp, next, roots) && forall r :: r in roots ==> IsRoot(exp0, r)
    requires Disaggregated(types0, exp0, next0, x) && x !in roots
    ensures Disaggregated(types, exp, next, x)
    decreases types0[x]
  {
    assert x < next0;
    forall i | 0 <= i < NumKids(types[x])
      ensures IsChild(exp, x, i, exp[x][i]) && Disaggregated(types, exp, next, exp[x][i])
    {
      assert IsChild(exp0, x, i, exp0[x][i]);
      DisaggregatedKept(types0, exp0, next0, types, exp, next, roots, exp0[x][i]);
    }
  }

  // ... with the same scalars.
  lemma {:induction false} ElementKept(types0: Types, exp0: Expansion, next0: nat, types: Types, exp: Expansion,
                                       next: nat, roots: set<nat>, x: nat, p: seq<nat>)
    requires WellFormed(types0, exp0, next0) && WellFormed(types, exp, next)
    requires Grown(types0, exp0, next0, types, exp, next, roots) && forall r :: r in roots ==> IsRoot(exp0, r)
    requires Disaggregated(types0, exp0, next0, x) && x !in roots && FullPath(types0[x], p)
    ensures Element(exp, x, p) == Element(exp0, x, p)
    decreases |p|
  {
    if p != [] {
      assert x < next0 && IsChild(exp0, x, p[0], exp0[x][p[0]]);
      ElementKept(types0, exp0, next0, types, exp, next, roots, exp0[x][p[0]], p[1..]);
    }
  }

  // The scalars of an expanded root are new, unless it is a scalar itself.
  lemma {:induction false} ElementIsNew(types: Types, exp: Expansion, next: nat, from: nat, x: nat, p: seq<nat>)
    requires WellFormed(types, exp, next) && ElementsFrom(exp, x, from) && p != [] && Element(exp, x, p).Some?
    ensures Element(exp, x, p).value >= from
    decreases |p|
  {
    var c := exp[x][p[0]];
    if |p| > 1 {
      forall i | c in exp && 0 <= i < |exp[c]| ensures exp[c][i] >= from {
        assert IsChild(exp, c, i, exp[c][i]);
      }
      ElementIsNew(types, exp, next, from, c, p[1..]);
    }
  }

  lemma GrownTwice(types0: Types, exp0: Expansion, next0: nat, types1: Types, exp1: Expansion, next1: nat,
                   types: Types, exp: Expansion, next: nat, roots: set<nat>, id: nat)
    requires Grown(types0, exp0, next0, types1, exp1, next1, roots)
    requires Grown(types1, exp1, next1, types, exp, next, {id})
    requires forall x: nat :: x in roots ==> x < next0
    ensures Grown(types0, exp0, next0, types, exp, next, roots + {id})
    ensures id >= next0 ==> Grown(types0, exp0, next0, types, exp, next, roots)
  {
    forall x: nat | x in roots + {id} ensures ElementsFrom(exp, x, next0) {
    }
  }

  // One more root is expanded, after those in done.
  lemma RootExpanded(types0: Types, exp0: Expansion, next0: nat, types: Types, exp: Expansion, next: nat,
                     done: seq<nat>, id: nat)
    requires WellFormed(types0, exp0, next0) && WellFormed(types, exp, next) && next0 <= next
    requires Unexpanded(types0, exp0, id) && id !in done
    requires forall x :: x in done ==> Disaggregated(types0, exp0, next0, x)
    requires if types0[id].Scalar? then (types, exp, next) == (types0, exp0, next0)
             else Kept(types0, exp0, types, exp, next0, id) && Complete(types, exp, id) &&
                  AllComplete(types, exp, next0, next) && ElementsFrom(exp, id, next0)
    ensures Grown(types0, exp0, next0, types, exp, next, {id})
    ensures forall x :: x in done + [id] ==> Disaggregated(types, exp, next, x)
  {
    forall x | x in done ensures Disaggregated(types, exp, next, x) {
      DisaggregatedKept(types0, exp0, next0, types, exp, next, {id}, x);
    }
    if !types0[id].Scalar? {
      ExpandedIsDisaggregated(types, exp, next, id, next0);
    }
  }

  // The elements of id were created after the variables below from.
  ghost predicate ElementsFrom(exp: Expansion, id: nat, from: nat) {
    id in exp ==> forall i :: 0 <= i < |exp[id]| ==> exp[id][i] >= from
  }

  // The first i elements of id have been created and expanded.
  ghost predicate Expanding(types0: Types, exp0: Expansion, types: Types, exp: Expansion, from: nat, next: nat,
                            id: nat, i: nat) {
    AllComplete(types, exp, from, next) && (if i == 0 then id !in exp else id in exp && |exp[id]| == i) &&
    ElementsFrom(exp, id, from) && Kept(types0, exp0, types, exp, from, id) &&
    id in types && i <= NumKids(types[id]) && ScalarsIn(types, from, next) == Offset(types[id], i)
  }

  lemma OneExpanded(types0: Types, exp0: Expansion, types1: Types, exp1: Expansion, types2: Types, exp2: Expansion,
                    types: Types, exp: Expansion, from: nat, c: nat, id: nat, next: nat, i: nat)
    requires Expanding(types0, exp0, types1, exp1, from, c, id, i) && WellFormed(types1, exp1, c)
    requires id < from <= c < next && i < NumKids(types1[id])
    requires types2 == types1[c := Kid(types1[id], i)]
    requires exp2 == exp1[id := (if id in exp1 then exp1[id] else []) + [c]]
    requires Complete(types, exp, c) && AllComplete(types, exp, c + 1, next) && Kept(types2, exp2, types, exp, c + 1, c)
    requires ScalarsIn(types, c + 1, next) == NewScalars(types[c])
    ensures Expanding(types0, exp0, types, exp, from, next, id, i + 1)
  {
    ElementExpanded(types1, exp1, types2, exp2, types, exp, from, c, id, next);
    KeptTwice(types0, exp0, types1, exp1, types2, exp2, types, exp, from, c, id);
    OneCounted(types1, exp1, types2, types, from, c, next, types1[id], i);
  }

  lemma OneCounted(types1: Types, exp1: Expansion, types2: Types, types: Types, from: nat, c: nat, to: nat, ty: Ty,
                   i: nat)
    requires AllComplete(types1, exp1, from, c) && from <= c < to && i < NumKids(ty) && c !in types1
    requires types2 == types1[c := Kid(ty, i)] && forall x :: x in types2 ==> x in types && types[x] == types2[x]
    requires ScalarsIn(types1, from, c) == Offset(ty, i) && ScalarsIn(types, c + 1, to) == NewScalars(types[c])
    ensures ScalarsIn(types, from, to) == Offset(ty, i + 1)
  {
    forall x | from <= x < c ensures x in types1 {
      assert Complete(types1, exp1, x);
    }
    assert c in types2;
    forall x | x in types1 ensures x in types && types[x] == types1[x] {
      assert x in types2;
    }
    ElementCounted(types1, types, from, c, to, ty, i);
  }

  // Variables stay, and only id among those below bound gets new elements.
  ghost predicate Kept(types: Types, exp: Expansion, types': Types, exp': Expansion, bound: nat, id: nat) {
    (forall x :: x in types ==> x in types' && types'[x] == types[x]) &&
    (forall x :: 0 <= x < bound && x != id ==> (x in exp <==> x in exp')) &&
    (forall x :: 0 <= x < bound && x != id && x in exp ==> x in exp' && exp'[x] == exp[x])
  }

  lemma ElementExpanded(types0: Types, exp0: Expansion, types1: Types, exp1: Expansion, types2: Types, exp2: Expansion,
                        from: nat, c: nat, id: nat, to: nat)
    requires AllComplete(types0, exp0, from, c) && id < from <= c
    requires Kept(types0, exp0, types1, exp1, c, id) && Kept(types1, exp1, types2, exp2, c + 1, c)
    requires Complete(types2, exp2, c) && AllComplete(types2, exp2, c + 1, to)
    ensures AllComplete(types2, exp2, from, to)
    ensures id in exp1 ==> id in exp2 && exp2[id] == exp1[id]
  {
    forall x | from <= x < to
      ensures Complete(types2, exp2, x)
    {
      if x < c {
        assert Complete(types0, exp0, x);
      }
    }
  }

  lemma KeptTwice(types: Types, exp: Expansion, types0: Types, exp0: Expansion, types1: Types, exp1: Expansion,
                  types2: Types, exp2: Expansion, bound: nat, c: nat, id: nat)
    requires Kept(types, exp, types0, exp0, bound, id) && bound <= c
    requires Kept(types0, exp0, types1, exp1, c, id) && Kept(types1, exp1, types2, exp2, c + 1, c)
    ensures Kept(types, exp, types2, exp2, bound, id)
  {
  }

  lemma PushKeeps(types: Types, exp: Expansion, next: nat, id: nat, ty: Ty)
    requires WellFormed(types, exp, next) && id in types
    requires var i := if id in exp then |exp[id]| else 0; i < NumKids(types[id]) && ty == Kid(types[id], i)
    ensures WellFormed(types[next := ty], exp[id := (if id in exp then exp[id] else []) + [next]], next + 1)
    ensures next !in exp
  {
    var types', exp' := types[next := ty], exp[id := (if id in exp then exp[id] else []) + [next]];
    forall p: nat, i: nat, c: nat | IsChild(exp', p, i, c)
      ensures if IsChild(exp, p, i, c) then c < next
              else p == id && c == next && i == if id in exp then |exp[id]| else 0
    {
      assert IsChild(exp, p, i, c) ==> c in types;
    }
  }

  // A variable that is expanded down to scalars.
  ghost predicate Disaggregated(types: Types, exp: Expansion, next: nat, id: nat)
    requires WellFormed(types, exp, next)
    decreases if id in types then 1 else 0, if id in types then types[id] else Scalar(0)
  {
    Complete(types, exp, id) &&
    forall i :: 0 <= i < NumKids(types[id]) ==>
      IsChild(exp, id, i, exp[id][i]) && Disaggregated(types, exp, next, exp[id][i])
  }

  // expand_alloca leaves its alloca expanded down to scalars.
  lemma {:induction false} ExpandedIsDisaggregated(types: Types, exp: Expansion, next: nat, id: nat, from: nat)
    requires WellFormed(types, exp, next) && Complete(types, exp, id) && AllComplete(types, exp, from, next)
    requires ElementsFrom(exp, id, from)
    ensures Disaggregated(types, exp, next, id)
    decreases types[id]
  {
    forall i | 0 <= i < NumKids(types[id])
      ensures IsChild(exp, id, i, exp[id][i]) && Disaggregated(types, exp, next, exp[id][i])
    {
      var c := exp[id][i];
      assert IsChild(exp, id, i, c);
      assert c in types && types[c] == Kid(types[id], i);
      if c in exp {
        forall j | 0 <= j < |exp[c]|
          ensures exp[c][j] >= from
        {
          assert IsChild(exp, c, j, exp[c][j]);
        }
      }
      ExpandedIsDisaggregated(types, exp, next, c, from);
    }
  }

  // Every full path of an expanded variable leads to a scalar variable of the right type.
  lemma {:induction false} ElementExists(types: Types, exp: Expansion, next: nat, id: nat, p: seq<nat>)
    requires WellFormed(types, exp, next) && Disaggregated(types, exp, next, id) && FullPath(types[id], p)
    ensures Element(exp, id, p).Some? && Element(exp, id, p).value in types
    ensures types[Element(exp, id, p).value] == TypeAt(types[id], p)
    decreases |p|
  {
    if p != [] {
      assert IsChild(exp, id, p[0], exp[id][p[0]]);
      ElementExists(types, exp, next, exp[id][p[0]], p[1..]);
    }
  }

  lemma {:induction false} ElementLast(exp: Expansion, id: nat, p: seq<nat>)
    requires p != [] && Element(exp, id, p).Some?
    ensures var q, i := p[..|p| - 1], p[|p| - 1];
      Element(exp, id, q).Some? && IsChild(exp, Element(exp, id, q).value, i, Element(exp, id, p).value)
    decreases |p|
  {
    if |p| > 1 {
      ElementLast(exp, exp[id][p[0]], p[1..]);
      assert p[1..][..|p| - 2] == p[..|p| - 1][1..];
    }
  }

  // Different variables or different paths never share a scalar.
  lemma {:induction false} ElementInjective(types: Types, exp: Expansion, next: nat, id: nat, p: seq<nat>, id': nat,
                                            p': seq<nat>)
    requires WellFormed(types, exp, next) && IsRoot(exp, id) && IsRoot(exp, id')
    requires Element(exp, id, p).Some? && Element(exp, id, p) == Element(exp, id', p')
    ensures id == id' && p == p'
    decreases |p|
  {
    if p != [] {
      ElementLast(exp, id, p);
    }
    if p' != [] {
      ElementLast(exp, id', p');
    }
    if p != [] && p' != [] {
      var q, q' := p[..|p| - 1], p'[..|p'| - 1];
      ElementInjective(types, exp, next, id, q, id', q');
      assert p == q + [p[|p| - 1]] && p' == q' + [p'[|p'| - 1]];
    }
  }

  // A slot of expand_types: a scalar type and the path to it.
  datatype Slot = Slot(ty: Ty, path: seq<nat>)

  ghost predicate SlotsFor(slots: seq<Slot>, ty: Ty, paths: seq<seq<nat>>, chain: seq<nat>) {
    |slots| == |paths| &&
    forall k :: 0 <= k < |slots| ==>
      FullPath(ty, paths[k]) && slots[k] == Slot(TypeAt(ty, paths[k]), chain + paths[k])
  }

  // One slot per scalar, in the order of the enumeration.
  ghost predicate SlotsOf(slots: seq<Slot>, ty: Ty, chain: seq<nat>) {
    SlotsFor(slots, ty, Paths(ty), chain)
  }

  lemma SlotsAppend(a: seq<Slot>, b: seq<Slot>, ty: Ty, pa: seq<seq<nat>>, pb: seq<seq<nat>>, chain: seq<nat>)
    requires SlotsFor(a, ty, pa, chain) && SlotsFor(b, ty, pb, chain)
    ensures SlotsFor(a + b, ty, pa + pb, chain)
  {
  }

  lemma SlotsPrefixed(more: seq<Slot>, ty: Ty, i: nat, chain: seq<nat>)
    requires i < NumKids(ty) && SlotsOf(more, Kid(ty, i), chain + [i])
    ensures SlotsFor(more, ty, Prefixed(i, Paths(Kid(ty, i))), chain)
  {
    var last := Prefixed(i, Paths(Kid(ty, i)));
    forall k | 0 <= k < |more|
      ensures FullPath(ty, last[k]) && more[k] == Slot(TypeAt(ty, last[k]), chain + last[k])
    {
      var q := Paths(Kid(ty, i))[k];
      assert last[k] == [i] + q && last[k][1..] == q;
      assert chain + [i] + q == chain + ([i] + q);
    }
  }

  // expand_types: depth first, one slot per scalar.
  method ExpandTypes(types: Types, exp: Expansion, ghost next: nat, id: nat, chain: seq<nat>) returns (slots: seq<Slot>)
    requires WellFormed(types, exp, next) && Disaggregated(types, exp, next, id) && NonEmpty(types[id])
    ensures SlotsOf(slots, types[id], chain)
    decreases types[id]
  {
    if id in exp && exp[id] != [] {
      slots := [];
      for i := 0 to |exp[id]|
        invariant SlotsFor(slots, types[id], PathsUpTo(types[id], i), chain)
      {
        assert IsChild(exp, id, i, exp[id][i]);
        KidNonEmpty(types[id], i);
        var more := ExpandTypes(types, exp, next, exp[id][i], chain + [i]);
        SlotsPrefixed(more, types[id], i, chain);
        SlotsAppend(slots, more, types[id], PathsUpTo(types[id], i), Prefixed(i, Paths(Kid(types[id], i))), chain);
        slots := slots + more;
      }
    } else {
      assert chain + [] == chain;
      slots := [Slot(types[id], chain)];
    }
  }
}
