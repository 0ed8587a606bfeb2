// expand_globals: expansion of global variables with a worklist that grows behind the current index.
module CsroaGlobals {
  import opened Collections
  import opened CsroaTypes
  import opened CsroaExpand
  import opened CsroaCount

  // Constant initialisers; a zero or undefined aggregate has elements of the same kind.
  datatype Val = Num(v: int) | Zero | Undef | Agg(elems: seq<Val>)

  ghost predicate HasShape(v: Val, ty: Ty) {
    match v
    case Num(_) => ty.Scalar?
    case Zero => true
    case Undef => true
    case Agg(elems) =>
      !ty.Scalar? && |elems| == NumKids(ty) && forall i :: 0 <= i < |elems| ==> HasShape(elems[i], Kid(ty, i))
  }

  // getAggregateElement
  function ElementOfValue(v: Val, i: nat): Val
    requires v.Agg? ==> i < |v.elems|
  {
    if v.Agg? then v.elems[i] else v
  }

  // The constant that an initialiser holds at a path, from its shape alone: of an aggregate, the element at each index
  // in turn; zero at every path of zero, and undefined at every path of an undefined value.
  ghost function ValueAt(v: Val, ty: Ty, p: seq<nat>): Val
    requires HasShape(v, ty) && FullPath(ty, p)
    decreases |p|
  {
    match v
    case Num(_) => v
    case Zero => Zero
    case Undef => Undef
    case Agg(elems) => ValueAt(elems[p[0]], Kid(ty, p[0]), p[1..])
  }

  // Initialisers fit their types, and elements are initialised with the elements of the initialiser.
  ghost predicate Initialised(types: Types, exp: Expansion, init: map<nat, Val>) {
    (forall x :: x in types ==> x in init && HasShape(init[x], types[x])) &&
    (forall p: nat, i: nat, c: nat ::
      (IsChild(exp, p, i, c) && p in types && c in types && i < NumKids(types[p])) ==>
        (p in init && c in init && HasShape(init[p], types[p]) && init[c] == ElementOfValue(init[p], i)))
  }

  ghost function TypesOf(q: seq<nat>, types: Types): seq<Ty>
    requires forall x :: x in q ==> x in types
  {
    if q == [] then [] else [types[q[0]]] + TypesOf(q[1..], types)
  }

  // The new global c is the next element of g.
  ghost predicate Pushed(g: nat, types0: Types, exp0: Expansion, init0: map<nat, Val>, c: nat,
                         types: Types, exp: Expansion, init: map<nat, Val>) {
    var i := if g in exp0 then |exp0[g]| else 0;
    g in types0 && g in init0 && HasShape(init0[g], types0[g]) && i < NumKids(types0[g]) &&
    types == types0[c := Kid(types0[g], i)] && init == init0[c := ElementOfValue(init0[g], i)] &&
    exp == exp0[g := (if g in exp0 then exp0[g] else []) + [c]]
  }

  class Globals {
    var types: Types
    var exp: Expansion
    var init: map<nat, Val>
    var next: nat

    ghost predicate Valid()
      reads this
    {
      WellFormed(types, exp, next) && Initialised(types, exp, init)
    }

    // A new global in front of g, initialised with the element of g's initialiser.
    method PushElement(g: nat) returns (c: nat)
      requires Valid() && g in types
      requires (if g in exp then |exp[g]| else 0) < NumKids(types[g])
      modifies this
      ensures Valid() && c == old(next) && next == c + 1
      ensures Pushed(g, old(types), old(exp), old(init), c, types, exp, init)
    {
      c := next;
      var i := if g in exp then |exp[g]| else 0;
      var ty := Kid(types[g], i);
      next := next + 1;
      types := types[c := ty];
      init := init[c := ElementOfValue(init[g], i)];
      exp := exp[g := (if g in exp then exp[g] else []) + [c]];
      PushKeeps(old(types), old(exp), c, g, ty);
      PushInitialises(old(types), old(exp), old(init), c, g, i);
    }

    // expand_globals: afterwards every listed global and everything created from it is complete, so that the listed
    // globals are expanded down to scalars, and each scalar has the constant at its path of the original initialiser.
    method ExpandGlobals(initial: seq<nat>) returns (worklist: seq<nat>)
      requires Valid() && Distinct(initial) && forall x :: x in initial ==> x in types && x !in exp
      modifies this
      ensures Valid() && Grown(old(types), old(exp), old(next), types, exp, next, Members(initial))
      ensures TypesKept(old(types), old(init), types, init)
      ensures forall x :: x in initial || old(next) <= x < next ==> Complete(types, exp, x)
      ensures forall x :: x in initial ==> Disaggregated(types, exp, next, x)
      ensures forall g, p: seq<nat> :: g in initial && FullPath(old(types)[g], p) ==>
        LeafHolds(types, exp, init, g, p, ValueAt(old(init)[g], old(types)[g], p))
    {
      worklist := initial;
      ghost var start := Start(types, exp, init, next, worklist, 0);
      var i := 0;
      while i < |worklist|
        invariant Valid() && Work(types, exp, worklist, i) && Growing(start, types, exp, init, next, worklist)
        decreases TypeSizes(TypesOf(worklist[i..], types))
      {
        ghost var was := Start(types, exp, init, next, worklist, i);
        worklist := ExpandOne(worklist, i);
        GrowingOne(start, was, types, exp, init, next, worklist);
        i := i + 1;
      }
      GrowingDone(start, types, exp, init, next, worklist);
      assert old(Valid());
      AllLeavesHold(old(types), old(init), types, exp, init, old(next), next, initial);
    }

    // One iteration: the elements of the global at index i are created and inserted right behind it.
    method ExpandOne(worklist0: seq<nat>, i: nat) returns (worklist: seq<nat>)
      requires Valid() && Work(types, exp, worklist0, i) && i < |worklist0|
      modifies this
      ensures Valid() && old(next) <= next && Work(types, exp, worklist, i + 1)
      ensures forall x :: x in worklist <==> x in worklist0 || old(next) <= x < next
      ensures TypesKept(old(types), old(init), types, init)
      ensures Grown(old(types), old(exp), old(next), types, exp, next, {worklist0[i]})
      ensures TypeSizes(TypesOf(worklist[i + 1..], types)) < TypeSizes(TypesOf(worklist0[i..], old(types)))
    {
      var n := NumKids(types[worklist0[i]]);
      worklist := worklist0;
      ghost var young: seq<nat> := [];
      ghost var start := Start(types, exp, init, next, worklist0, i);
      ProgressStart(start);
      for e := 0 to n
        invariant Valid() && |young| == e
        invariant Progress(start, types, exp, init, next, worklist, young)
      {
        var c;
        worklist, c := InsertElement(worklist, i, start, young);
        young := [c] + young;
      }
      ProgressDone(start, types, exp, init, next, worklist, young);
    }

    method InsertElement(worklist0: seq<nat>, i: nat, ghost start: Start, ghost young: seq<nat>)
      returns (worklist: seq<nat>, c: nat)
      requires Valid() && start.i == i && Progress(start, types, exp, init, next, worklist0, young)
      requires |young| < NumKids(start.types[start.worklist[i]])
      modifies this
      ensures Valid() && Progress(start, types, exp, init, next, worklist, [c] + young)
    {
      ghost var was := Start(types, exp, init, next, worklist0, i);
      ProgressReady(start, was, young);
      assert worklist0[i] == start.worklist[start.i];
      c := PushElement(worklist0[i]);
      worklist := worklist0[..i + 1] + [c] + worklist0[i + 1..];
      PushProgress(start, was, young, types, exp, init);
    }
  }

  // While the globals of s.worklist are expanded: they and what was created from them are in the worklist.
  ghost predicate Growing(s: Start, types: Types, exp: Expansion, init: map<nat, Val>, next: nat, worklist: seq<nat>) {
    Grown(s.types, s.exp, s.next, types, exp, next, Members(s.worklist)) && TypesKept(s.types, s.init, types, init) &&
    (forall x :: x in s.worklist ==> x < s.next) &&
    (forall x :: x in worklist <==> x in s.worklist || s.next <= x < next)
  }

  lemma GrowingOne(s: Start, now: Start, types: Types, exp: Expansion, init: map<nat, Val>, next: nat,
                   worklist: seq<nat>)
    requires Growing(s, now.types, now.exp, now.init, now.next, now.worklist) && now.i < |now.worklist|
    requires WellFormed(s.types, s.exp, s.next) && now.worklist[now.i] !in now.exp
    requires Grown(now.types, now.exp, now.next, types, exp, next, {now.worklist[now.i]})
    requires TypesKept(now.types, now.init, types, init)
    requires forall x :: x in worklist <==> x in now.worklist || now.next <= x < next
    ensures Growing(s, types, exp, init, next, worklist)
  {
    var g := now.worklist[now.i];
    assert g in now.worklist;
    GrownTwice(s.types, s.exp, s.next, now.types, now.exp, now.next, types, exp, next, Members(s.worklist), g);
    assert g < s.next ==> Members(s.worklist) + {g} == Members(s.worklist);
  }

  lemma GrowingDone(s: Start, types: Types, exp: Expansion, init: map<nat, Val>, next: nat, worklist: seq<nat>)
    requires Growing(s, types, exp, init, next, worklist) && Work(types, exp, worklist, |worklist|)
    ensures forall x :: x in s.worklist || s.next <= x < next ==> Complete(types, exp, x)
  {
    forall x | x in s.worklist || s.next <= x < next
      ensures Complete(types, exp, x)
    {
      var j :| 0 <= j < |worklist| && worklist[j] == x;
    }
  }

  // The path p of g leads to a scalar global that is initialised with v.
  ghost predicate LeafHolds(types: Types, exp: Expansion, init: map<nat, Val>, g: nat, p: seq<nat>, v: Val) {
    Element(exp, g, p).Some? && Element(exp, g, p).value in types && types[Element(exp, g, p).value].Scalar? &&
    Element(exp, g, p).value in init && init[Element(exp, g, p).value] == v
  }

  lemma AllLeavesHold(types0: Types, init0: map<nat, Val>, types: Types, exp: Expansion, init: map<nat, Val>,
                      from: nat, next: nat, initial: seq<nat>)
    requires WellFormed(types, exp, next) && Initialised(types, exp, init) && TypesKept(types0, init0, types, init)
    requires forall x :: x in initial ==> x in types0 && x in init0 && ElementsFrom(exp, x, from)
    requires forall x :: x in initial || from <= x < next ==> Complete(types, exp, x)
    ensures forall g :: g in initial ==> Disaggregated(types, exp, next, g)
    ensures forall g, p: seq<nat> :: g in initial && HasShape(init0[g], types0[g]) && FullPath(types0[g], p) ==>
      LeafHolds(types, exp, init, g, p, ValueAt(init0[g], types0[g], p))
  {
    forall g | g in initial
      ensures Disaggregated(types, exp, next, g)
    {
      ExpandedIsDisaggregated(types, exp, next, g, from);
    }
    forall g, p: seq<nat> | g in initial && HasShape(init0[g], types0[g]) && FullPath(types0[g], p)
      ensures LeafHolds(types, exp, init, g, p, ValueAt(init0[g], types0[g], p))
    {
      FullPathEnds(types[g], p);
      LeafInitialiser(types, exp, init, next, g, p);
      ElementExists(types, exp, next, g, p);
    }
  }

  // The state before the elements of the global at index i are created.
  datatype Start = Start(types: Types, exp: Expansion, init: map<nat, Val>, next: nat, worklist: seq<nat>, i: nat)

  ghost predicate Started(s: Start) {
    WellFormed(s.types, s.exp, s.next) && s.i < |s.worklist| && Work(s.types, s.exp, s.worklist, s.i)
  }

  // The state after the elements young, youngest first, have been created.
  ghost predicate Progress(s: Start, types: Types, exp: Expansion, init: map<nat, Val>, next: nat,
                           worklist: seq<nat>, young: seq<nat>) {
    Started(s) && next == s.next + |young| && |young| <= NumKids(s.types[s.worklist[s.i]]) &&
    Inserted(s, types, exp, next, worklist, young) && TypesKept(s.types, s.init, types, init) &&
    AllIn(young, types) && TypeSizes(TypesOf(young, types)) == TypeSizeUpTo(s.types[s.worklist[s.i]], |young|)
  }

  lemma ProgressStart(s: Start)
    requires Started(s)
    ensures Progress(s, s.types, s.exp, s.init, s.next, s.worklist, [])
  {
    assert s.worklist[..s.i + 1] + [] + s.worklist[s.i + 1..] == s.worklist;
  }

  // The global whose elements are created has as many elements as there are young ones.
  lemma ProgressReady(s: Start, now: Start, young: seq<nat>)
    requires now.i == s.i && Progress(s, now.types, now.exp, now.init, now.next, now.worklist, young)
    ensures now.i < |now.worklist| && now.worklist[now.i] == s.worklist[s.i]
    ensures var g := now.worklist[now.i];
      g in now.types && now.types[g] == s.types[g] && (if g in now.exp then |now.exp[g]| else 0) == |young|
  {
  }

  lemma KeptStep(s: Start, now: Start, young: seq<nat>, types: Types, init: map<nat, Val>)
    requires now.i == s.i && Progress(s, now.types, now.exp, now.init, now.next, now.worklist, young)
    requires WellFormed(now.types, now.exp, now.next)
    requires now.next in types && forall x :: x in now.types && x != now.next ==> x in types && types[x] == now.types[x]
    requires forall x :: x in now.init && x != now.next ==> x in init && init[x] == now.init[x]
    ensures TypesKept(s.types, s.init, types, init)
    ensures forall x :: x in now.types ==> x != now.next && x in types && types[x] == now.types[x]
  {
    assert now.next !in now.types;
  }

  lemma ProgressStep(s: Start, now: Start, young: seq<nat>, types: Types, exp: Expansion, init: map<nat, Val>)
    requires now.i == s.i && Progress(s, now.types, now.exp, now.init, now.next, now.worklist, young)
    requires |young| < NumKids(s.types[s.worklist[s.i]])
    requires WellFormed(now.types, now.exp, now.next) && now.worklist[now.i] == s.worklist[s.i]
    requires var g := s.worklist[s.i];
      types == now.types[now.next := Kid(s.types[g], |young|)] &&
      exp == now.exp[g := (if g in now.exp then now.exp[g] else []) + [now.next]]
    requires forall x :: x in now.init && x != now.next ==> x in init && init[x] == now.init[x]
    ensures Progress(s, types, exp, init, now.next + 1,
                     now.worklist[..s.i + 1] + [now.next] + now.worklist[s.i + 1..], [now.next] + young)
  {
    KeptStep(s, now, young, types, init);
    InsertStep(s, now.types, now.exp, now.next, now.worklist, young, types, exp);
    YoungWeight(young, now.types, types, now.next, s.types[s.worklist[s.i]], |young|);
  }

  // The state after one more element has been pushed.
  lemma PushProgress(s: Start, now: Start, young: seq<nat>, types: Types, exp: Expansion, init: map<nat, Val>)
    requires now.i == s.i && Progress(s, now.types, now.exp, now.init, now.next, now.worklist, young)
    requires |young| < NumKids(s.types[s.worklist[s.i]]) && WellFormed(now.types, now.exp, now.next)
    requires now.i < |now.worklist|
    requires Pushed(now.worklist[now.i], now.types, now.exp, now.init, now.next, types, exp, init)
    ensures Progress(s, types, exp, init, now.next + 1,
                     now.worklist[..s.i + 1] + [now.next] + now.worklist[s.i + 1..], [now.next] + young)
  {
    ProgressReady(s, now, young);
    ProgressStep(s, now, young, types, exp, init);
  }

  lemma ProgressGrown(s: Start, types: Types, exp: Expansion, init: map<nat, Val>, next: nat,
                      worklist: seq<nat>, young: seq<nat>)
    requires Progress(s, types, exp, init, next, worklist, young)
    ensures Grown(s.types, s.exp, s.next, types, exp, next, {s.worklist[s.i]})
  {
  }

  lemma ProgressDone(s: Start, types: Types, exp: Expansion, init: map<nat, Val>, next: nat,
                     worklist: seq<nat>, young: seq<nat>)
    requires Progress(s, types, exp, init, next, worklist, young) && |young| == NumKids(s.types[s.worklist[s.i]])
    ensures Work(types, exp, worklist, s.i + 1)
    ensures forall x :: x in worklist <==> x in s.worklist || s.next <= x < next
    ensures Grown(s.types, s.exp, s.next, types, exp, next, {s.worklist[s.i]})
    ensures TypesKept(s.types, s.init, types, init)
    ensures AllIn(worklist[s.i + 1..], types) && AllIn(s.worklist[s.i..], s.types)
    ensures TypeSizes(TypesOf(worklist[s.i + 1..], types)) < TypeSizes(TypesOf(s.worklist[s.i..], s.types))
  {
    ProgressGrown(s, types, exp, init, next, worklist, young);
    InsertDone(s, types, exp, next, worklist, young);
    InsertWeight(s.types, types, s.worklist, s.i, worklist, young);
  }

  ghost predicate AllIn(q: seq<nat>, types: Types) {
    forall x :: x in q ==> x in types
  }

  // Types and initialisers of existing globals do not change.
  ghost predicate TypesKept(types: Types, init: map<nat, Val>, types': Types, init': map<nat, Val>)
  {
    forall x :: x in types ==>
      x in types' && types'[x] == types[x] && (x in init ==> x in init' && init'[x] == init[x])
  }

  lemma {:induction false} TypesOfKept(q: seq<nat>, types: Types, types': Types)
    requires AllIn(q, types) && forall x :: x in types ==> x in types' && types'[x] == types[x]
    ensures AllIn(q, types') && TypesOf(q, types') == TypesOf(q, types)
  {
    if q != [] {
      TypesOfKept(q[1..], types, types');
    }
  }

  lemma {:induction false} TypesOfAppend(a: seq<nat>, b: seq<nat>, types: Types)
    requires AllIn(a, types) && AllIn(b, types)
    ensures AllIn(a + b, types) && TypesOf(a + b, types) == TypesOf(a, types) + TypesOf(b, types)
  {
    if a == [] {
      assert a + b == b;
    } else {
      assert (a + b)[1..] == a[1..] + b;
      TypesOfAppend(a[1..], b, types);
    }
  }

  // Indices below i are done, those from i on are waiting.
  ghost predicate Work(types: Types, exp: Expansion, worklist: seq<nat>, i: nat) {
    i <= |worklist| && Distinct(worklist) && (forall x :: x in worklist ==> x in types) &&
    (forall j :: 0 <= j < i ==> Complete(types, exp, worklist[j])) &&
    (forall j :: i <= j < |worklist| ==> worklist[j] !in exp)
  }

  // The worklist with the new elements, youngest first, behind index i.
  ghost predicate Inserted(s: Start, types: Types, exp: Expansion, next: nat, worklist: seq<nat>, young: seq<nat>)
    requires s.i < |s.worklist|
  {
    var g := s.worklist[s.i];
    worklist == s.worklist[..s.i + 1] + young + s.worklist[s.i + 1..] &&
    Distinct(young) && (forall x :: x in young <==> s.next <= x < next) &&
    (forall x :: x in young ==> x in types && x !in exp) && OnlyElements(s.exp, exp, g, |young|, s.next)
  }

  // Only g has been given elements: n of them, all new.
  ghost predicate OnlyElements(exp0: Expansion, exp: Expansion, g: nat, n: nat, from: nat) {
    if n == 0 then exp == exp0
    else g in exp && |exp[g]| == n && exp == exp0[g := exp[g]] && ElementsFrom(exp, g, from)
  }

  lemma OneElement(exp0: Expansion, exp: Expansion, g: nat, n: nat, from: nat, c: nat)
    requires OnlyElements(exp0, exp, g, n, from) && g !in exp0 && from <= c
    ensures OnlyElements(exp0, exp[g := (if g in exp then exp[g] else []) + [c]], g, n + 1, from)
  {
  }

  // Inserting the element next behind index i.
  lemma InsertStep(s: Start, types: Types, exp: Expansion, next: nat, worklist: seq<nat>, young: seq<nat>,
                   types': Types, exp': Expansion)
    requires s.i < |s.worklist| && Inserted(s, types, exp, next, worklist, young)
    requires s.worklist[s.i] !in s.exp && s.worklist[s.i] < s.next <= next && next !in exp
    requires next in types' && forall x :: x in types ==> x in types' && types'[x] == types[x]
    requires exp' == exp[s.worklist[s.i] := (if s.worklist[s.i] in exp then exp[s.worklist[s.i]] else []) + [next]]
    ensures s.i + 1 <= |worklist|
    ensures Inserted(s, types', exp', next + 1, worklist[..s.i + 1] + [next] + worklist[s.i + 1..], [next] + young)
  {
    assert worklist[..s.i + 1] == s.worklist[..s.i + 1];
    assert worklist[s.i + 1..] == young + s.worklist[s.i + 1..];
    DistinctCons(next, young);
    InsertedAt(s.worklist, s.i, next, young);
    OneElement(s.exp, exp, s.worklist[s.i], |young|, s.next, next);
  }

  lemma InsertedAt(w: seq<nat>, i: nat, c: nat, young: seq<nat>)
    requires i < |w|
    ensures w[..i + 1] + [c] + (young + w[i + 1..]) == w[..i + 1] + ([c] + young) + w[i + 1..]
    ensures forall x :: x in [c] + young <==> x == c || x in young
  {
  }

  lemma YoungWeight(young: seq<nat>, types: Types, types': Types, c: nat, ty: Ty, e: nat)
    requires e < NumKids(ty) && AllIn(young, types) && TypeSizes(TypesOf(young, types)) == TypeSizeUpTo(ty, e)
    requires forall x :: x in types ==> x in types' && types'[x] == types[x]
    requires c in types' && types'[c] == Kid(ty, e)
    ensures AllIn([c] + young, types') && TypeSizes(TypesOf([c] + young, types')) == TypeSizeUpTo(ty, e + 1)
  {
    TypesOfKept(young, types, types');
    assert ([c] + young)[1..] == young;
  }

  lemma DistinctInsert(a: seq<nat>, young: seq<nat>, b: seq<nat>)
    requires Distinct(a + b) && Distinct(young)
    requires forall x :: x in young ==> x !in a && x !in b
    ensures Distinct(a + young + b)
  {
    var w := a + young + b;
    forall j, k | 0 <= j < k < |w|
      ensures w[j] != w[k]
    {
      WhichPart(a, young, b, j);
      WhichPart(a, young, b, k);
    }
  }

  lemma WhichPart(a: seq<nat>, young: seq<nat>, b: seq<nat>, j: nat)
    requires j < |a + young + b|
    ensures var x := (a + young + b)[j];
      if j < |a| then x == (a + b)[j] && x in a
      else if j < |a| + |young| then x == young[j - |a|] && x in young
      else x == (a + b)[j - |young|] && x in b
  {
    if j < |a| {
    } else if j < |a| + |young| {
    } else {
      assert (a + young + b)[j] == b[j - |a| - |young|];
    }
  }

  lemma InsertWeight(types0: Types, types: Types, worklist0: seq<nat>, i: nat, worklist: seq<nat>, young: seq<nat>)
    requires i < |worklist0| && AllIn(worklist0, types0) && worklist == worklist0[..i + 1] + young + worklist0[i + 1..]
    requires (forall x :: x in types0 ==> x in types && types[x] == types0[x])
    requires |young| == NumKids(types0[worklist0[i]])
    requires AllIn(young, types) && TypeSizes(TypesOf(young, types)) == TypeSizeUpTo(types0[worklist0[i]], |young|)
    ensures AllIn(worklist[i + 1..], types) && AllIn(worklist0[i..], types0)
    ensures TypeSizes(TypesOf(worklist[i + 1..], types)) < TypeSizes(TypesOf(worklist0[i..], types0))
  {
    var rest := worklist0[i + 1..];
    assert worklist[i + 1..] == young + rest;
    TypesOfKept(rest, types0, types);
    TypesOfAppend(young, rest, types);
    CountAllAppend(TypesOf(young, types), TypesOf(rest, types));
    assert worklist0[i..][1..] == rest;
  }

  // The worklist after all elements of the global at index i have been inserted.
  lemma InsertDone(s: Start, types: Types, exp: Expansion, next: nat, worklist: seq<nat>, young: seq<nat>)
    requires Started(s) && Inserted(s, types, exp, next, worklist, young)
    requires (forall x :: x in s.types ==> x in types && types[x] == s.types[x])
    requires |young| == NumKids(s.types[s.worklist[s.i]])
    ensures Work(types, exp, worklist, s.i + 1)
    ensures forall x :: x in worklist <==> x in s.worklist || s.next <= x < next
  {
    var a, b := s.worklist[..s.i + 1], s.worklist[s.i + 1..];
    assert s.worklist == a + b;
    forall x | x in young
      ensures x !in a && x !in b
    {
      assert forall y :: y in s.worklist ==> y < s.next;
    }
    DistinctInsert(a, young, b);
    forall j | s.i + 1 <= j < |worklist|
      ensures worklist[j] !in exp
    {
      if j < s.i + 1 + |young| {
        assert worklist[j] == young[j - s.i - 1];
      } else {
        assert worklist[j] == s.worklist[j - |young|];
      }
    }
    forall j | 0 <= j < s.i + 1
      ensures Complete(types, exp, worklist[j])
    {
      assert worklist[j] == s.worklist[j];
    }
  }

  lemma PushInitialises(types: Types, exp: Expansion, init: map<nat, Val>, next: nat, g: nat, i: nat)
    requires WellFormed(types, exp, next) && Initialised(types, exp, init) && g in types
    requires i == (if g in exp then |exp[g]| else 0) && i < NumKids(types[g])
    ensures Initialised(types[next := Kid(types[g], i)], exp[g := (if g in exp then exp[g] else []) + [next]],
                        init[next := ElementOfValue(init[g], i)])
  {
    var exp' := exp[g := (if g in exp then exp[g] else []) + [next]];
    forall p: nat, j: nat, c: nat | IsChild(exp', p, j, c)
      ensures (IsChild(exp, p, j, c) && c < next && p < next) || (p == g && c == next && j == i)
    {
      assert IsChild(exp, p, j, c) ==> c in types;
    }
  }

  lemma ValueBelow(v: Val, ty: Ty, p: seq<nat>)
    requires HasShape(v, ty) && FullPath(ty, p) && p != []
    ensures HasShape(ElementOfValue(v, p[0]), Kid(ty, p[0]))
    ensures ValueAt(v, ty, p) == ValueAt(ElementOfValue(v, p[0]), Kid(ty, p[0]), p[1..])
  {
  }

  // Each leaf below a complete expansion is initialised with the element at its path.
  lemma {:induction false} LeafInitialiser(types: Types, exp: Expansion, init: map<nat, Val>, next: nat, g: nat,
                                           p: seq<nat>)
    requires WellFormed(types, exp, next) && Initialised(types, exp, init)
    requires Disaggregated(types, exp, next, g) && FullPath(types[g], p)
    ensures Element(exp, g, p).Some? && Element(exp, g, p).value in init
    ensures init[Element(exp, g, p).value] == ValueAt(init[g], types[g], p)
    decreases |p|
  {
    if p != [] {
      assert IsChild(exp, g, p[0], exp[g][p[0]]);
      LeafInitialiser(types, exp, init, next, exp[g][p[0]], p[1..]);
      ValueBelow(init[g], types[g], p);
    }
  }
}
