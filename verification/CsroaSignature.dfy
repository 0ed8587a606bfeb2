// expand_signatures_and_call_sites: the parameters of an expanded function and the operands of its calls.
module CsroaSignature {
  import opened Wrappers
  import opened CsroaTypes
  import E = CsroaExpand

  // The type of a parameter; only pointers are expanded.
  datatype ArgTy = Ptr(pointee: Ty) | Plain(kind: nat)

  // An argument: whether it is expandable, and the first of its decayed dimensions, or 0.
  datatype Arg = Arg(ty: ArgTy, expandable: bool, decay: nat)

  function NumArgKids(ty: Ty, decay: nat): nat {
    if decay > 0 then decay else NumKids(ty)
  }

  // What the pointer to the i-th element is expanded as; a decayed dimension repeats the pointee.
  function ArgKid(ty: Ty, decay: nat, i: nat): Ty
    requires i < NumArgKids(ty, decay)
  {
    if decay > 0 then ty else Kid(ty, i)
  }

  // The type of its parameter: a pointer to an array becomes a pointer to the element.
  function SlotType(kid: Ty): ArgTy {
    Ptr(if kid.Array? then kid.elem else kid)
  }

  // The parameters that follow the one for a pointer to ty, in pre-order.
  function Params(ty: Ty, decay: nat): seq<ArgTy>
    decreases ty, if decay > 0 then 1 else 0, 1
  {
    ParamsUpTo(ty, decay, NumArgKids(ty, decay))
  }

  function ParamsUpTo(ty: Ty, decay: nat, i: nat): seq<ArgTy>
    requires i <= NumArgKids(ty, decay)
    decreases ty, if decay > 0 then 1 else 0, 0, i
  {
    if i == 0 then []
    else ParamsUpTo(ty, decay, i - 1) + [SlotType(ArgKid(ty, decay, i - 1))] + Params(ArgKid(ty, decay, i - 1), 0)
  }

  // What a parameter is to be expanded into.
  datatype Want = Want(ty: Ty, decay: nat)

  // Recorded elements come later, belong to one parameter, and are what the element asks for.
  ghost predicate WellFormed(mock: seq<ArgTy>, want: seq<Want>, children: map<nat, seq<nat>>) {
    |want| == |mock| &&
    (forall p :: p in children ==> p < |mock| && |children[p]| <= NumArgKids(want[p].ty, want[p].decay)) &&
    (forall p: nat, i: nat, c: nat :: E.IsChild(children, p, i, c) ==>
      p < c < |mock| && want[c] == Want(ArgKid(want[p].ty, want[p].decay, i), 0) && mock[c] == SlotType(want[c].ty)) &&
    (forall p: nat, i: nat, q: nat, j: nat, c: nat ::
      E.IsChild(children, p, i, c) && E.IsChild(children, q, j, c) ==> p == q && i == j)
  }

  // A parameter has all the elements it asks for.
  ghost predicate Done(want: seq<Want>, children: map<nat, seq<nat>>, s: nat)
    requires s < |want|
  {
    var n := NumArgKids(want[s].ty, want[s].decay);
    if n == 0 then s !in children else s in children && |children[s]| == n
  }

  ghost predicate AllDone(want: seq<Want>, children: map<nat, seq<nat>>, from: nat) {
    forall s :: from <= s < |want| ==> Done(want, children, s)
  }

  ghost predicate Same(children: map<nat, seq<nat>>, children': map<nat, seq<nat>>, hi: nat, but: nat) {
    forall x :: 0 <= x < hi && x != but ==>
      (x in children <==> x in children') && (x in children ==> children'[x] == children[x])
  }

  // One more element of the parameter at slot.
  function Pushed(children: map<nat, seq<nat>>, slot: nat, kid: nat): map<nat, seq<nat>> {
    children[slot := (if slot in children then children[slot] else []) + [kid]]
  }

  // All recorded elements stay.
  ghost predicate Grows(children: map<nat, seq<nat>>, children': map<nat, seq<nat>>) {
    forall p: nat, i: nat, c: nat :: E.IsChild(children, p, i, c) ==> E.IsChild(children', p, i, c)
  }

  // The parameters from from to to are elements of parameters from lo on.
  ghost predicate HasParent(children: map<nat, seq<nat>>, lo: nat, c: nat) {
    exists p: nat, i: nat :: E.IsChild(children, p, i, c) && lo <= p
  }

  ghost predicate Owned(children: map<nat, seq<nat>>, lo: nat, from: nat, to: nat) {
    forall c :: from <= c < to ==> HasParent(children, lo, c)
  }

  lemma OwnedGrows(children: map<nat, seq<nat>>, children': map<nat, seq<nat>>, lo: nat, from: nat, to: nat, end: nat,
                   lo': nat)
    requires Grows(children, children') && Owned(children, lo, from, to) && lo <= lo' && Owned(children', lo', to, end)
    ensures Owned(children', lo, from, end)
  {
    forall c | from <= c < end ensures HasParent(children', lo, c) {
      if c < to {
        assert HasParent(children, lo, c);
        var p: nat, i: nat :| E.IsChild(children, p, i, c) && lo <= p;
        assert E.IsChild(children', p, i, c);
      } else {
        assert HasParent(children', lo', c);
      }
    }
  }

  lemma PushKeeps(mock: seq<ArgTy>, want: seq<Want>, children: map<nat, seq<nat>>, slot: nat, kid: Ty)
    requires WellFormed(mock, want, children) && slot < |mock|
    requires var n := if slot in children then |children[slot]| else 0;
      n < NumArgKids(want[slot].ty, want[slot].decay) && kid == ArgKid(want[slot].ty, want[slot].decay, n)
    ensures WellFormed(mock + [SlotType(kid)], want + [Want(kid, 0)], Pushed(children, slot, |mock|))
    ensures |mock| !in children
  {
    var children' := Pushed(children, slot, |mock|);
    forall p: nat, i: nat, c: nat | E.IsChild(children', p, i, c)
      ensures if E.IsChild(children, p, i, c) then c < |mock|
              else p == slot && c == |mock| && i == if slot in children then |children[slot]| else 0
    {
    }
  }

  class Signature {
    // newMockFunctionArgs and mock_exp_args_map
    var mock: seq<ArgTy>
    var children: map<nat, seq<nat>>
    ghost var want: seq<Want>

    ghost predicate Valid()
      reads this
    {
      WellFormed(mock, want, children)
    }

    constructor ()
      ensures Valid() && mock == [] && children == map[] && want == []
    {
      mock, children, want := [], map[], [];
    }

    // One more element of the parameter at slot: a new parameter and a null operand of the same type.
    method PushElement(slot: nat, kid: Ty, ops: seq<ArgTy>) returns (ops': seq<ArgTy>)
      requires Valid() && slot < |mock|
      requires var n := if slot in children then |children[slot]| else 0;
        n < NumArgKids(want[slot].ty, want[slot].decay) && kid == ArgKid(want[slot].ty, want[slot].decay, n)
      modifies this
      ensures Valid() && mock == old(mock) + [SlotType(kid)] && ops' == ops + [SlotType(kid)]
      ensures want == old(want) + [Want(kid, 0)] && children == Pushed(old(children), slot, |old(mock)|)
      ensures |old(mock)| !in children
      ensures Grows(old(children), children) && HasParent(children, slot, |old(mock)|)
    {
      ghost var n := if slot in children then |children[slot]| else 0;
      PushKeeps(mock, want, children, slot, kid);
      children := Pushed(children, slot, |mock|);
      mock := mock + [SlotType(kid)];
      ops' := ops + [SlotType(kid)];
      want := want + [Want(kid, 0)];
      assert E.IsChild(children, slot, n, |old(mock)|);
    }

    // One argument of the original function: its own slot, then its expansion.
    method AddArgument(a: Arg) returns (ops: seq<ArgTy>)
      requires Valid() && AllDone(want, children, 0)
      modifies this
      ensures Valid() && AllDone(want, children, 0)
      ensures mock == old(mock) + [a.ty] + Expansion(a) && ops == Expansion(a)
      ensures old(want) <= want && Same(old(children), children, |old(mock)|, |old(mock)|)
      ensures Segment(a, |old(mock)|, ops, mock, want, children)
    {
      var slot := |mock|;
      ghost var want0, children0 := want, children;
      mock := mock + [a.ty];
      want := want + [Wanted(a)];
      ops := [];
      assert forall p: nat, i: nat, c: nat :: E.IsChild(children, p, i, c) ==> c < slot;
      if a.expandable && a.ty.Ptr? {
        ops := ExpandArg(a.ty.pointee, a.decay, slot, ops);
      }
      ArgumentDone(want0, children0, want, children, slot);
      NewSegment(a, slot, ops, old(mock), mock, want, children);
    }

    // exp_arg for a pointer to ty
    method ExpandArg(ty: Ty, decay: nat, slot: nat, ops: seq<ArgTy>) returns (ops': seq<ArgTy>)
      requires Valid() && slot == |mock| - 1 && want[slot] == Want(ty, decay) && slot !in children
      modifies this
      ensures Valid() && mock == old(mock) + Params(ty, decay) && ops' == ops + Params(ty, decay)
      ensures old(want) <= want && AllDone(want, children, slot) && Same(old(children), children, slot, slot)
      ensures Grows(old(children), children) && Owned(children, slot, |old(mock)|, |mock|)
      decreases ty, if decay > 0 then 1 else 0, 0
    {
      ops' := ops;
      for i := 0 to NumArgKids(ty, decay)
        invariant Valid() && mock == old(mock) + ParamsUpTo(ty, decay, i) && ops' == ops + ParamsUpTo(ty, decay, i)
        invariant old(want) <= want && AllDone(want, children, slot + 1) && Same(old(children), children, slot, slot)
        invariant if i == 0 then slot !in children else slot in children && |children[slot]| == i
        invariant Grows(old(children), children) && Owned(children, slot, |old(mock)|, |mock|)
      {
        Regroup(old(mock), ParamsUpTo(ty, decay, i), SlotType(ArgKid(ty, decay, i)), Params(ArgKid(ty, decay, i), 0));
        Regroup(ops, ParamsUpTo(ty, decay, i), SlotType(ArgKid(ty, decay, i)), Params(ArgKid(ty, decay, i), 0));
        ghost var children0, to := children, |mock|;
        ops' := ExpandElement(ArgKid(ty, decay, i), slot, ops');
        OwnedGrows(children0, children, slot, |old(mock)|, to, |mock|, slot);
      }
    }

    // The next element of the parameter at slot, with everything below it.
    method ExpandElement(kid: Ty, slot: nat, ops: seq<ArgTy>) returns (ops': seq<ArgTy>)
      requires Valid() && slot < |mock| && AllDone(want, children, slot + 1)
      requires var n := if slot in children then |children[slot]| else 0;
        n < NumArgKids(want[slot].ty, want[slot].decay) && kid == ArgKid(want[slot].ty, want[slot].decay, n)
      modifies this
      ensures Valid() && mock == old(mock) + [SlotType(kid)] + Params(kid, 0)
      ensures ops' == ops + [SlotType(kid)] + Params(kid, 0)
      ensures old(want) <= want && AllDone(want, children, slot + 1) && Same(old(children), children, slot, slot)
      ensures slot in children && |children[slot]| == (if slot in old(children) then |old(children)[slot]| else 0) + 1
      ensures Grows(old(children), children) && Owned(children, slot, |old(mock)|, |mock|)
      decreases kid, 0, 1
    {
      ops' := PushElement(slot, kid, ops);
      ghost var want1, children1, c := want, children, |mock| - 1;
      ops' := ExpandArg(kid, 0, |mock| - 1, ops');
      OwnedGrows(children1, children, slot, c, c + 1, |mock|, c);
      ElementDone(old(want), old(children), want1, children1, want, children, slot);
    }
  }

  lemma Regroup(a: seq<ArgTy>, b: seq<ArgTy>, x: ArgTy, c: seq<ArgTy>)
    ensures ((a + b) + [x]) + c == a + (b + [x] + c)
  {
  }

  lemma ArgumentDone(want0: seq<Want>, children0: map<nat, seq<nat>>, want: seq<Want>, children: map<nat, seq<nat>>,
                     slot: nat)
    requires slot == |want0| && AllDone(want0, children0, 0) && want0 <= want
    requires Same(children0, children, slot, slot) && AllDone(want, children, slot)
    ensures AllDone(want, children, 0)
  {
    forall s | 0 <= s < |want|
      ensures Done(want, children, s)
    {
      if s < slot {
        assert Done(want0, children0, s);
      }
    }
  }

  lemma ElementDone(want0: seq<Want>, children0: map<nat, seq<nat>>, want1: seq<Want>, children1: map<nat, seq<nat>>,
                    want2: seq<Want>, children2: map<nat, seq<nat>>, slot: nat)
    requires slot < |want0| && AllDone(want0, children0, slot + 1)
    requires |want1| == |want0| + 1 && want0 <= want1 <= want2 && Same(children0, children1, |want0|, slot)
    requires AllDone(want2, children2, |want0|) && Same(children1, children2, |want0|, |want0|)
    ensures AllDone(want2, children2, slot + 1)
    ensures Same(children0, children2, slot, slot)
    ensures slot in children1 ==> slot in children2 && children2[slot] == children1[slot]
  {
    forall s | slot + 1 <= s < |want2|
      ensures Done(want2, children2, s)
    {
      if s < |want0| {
        assert Done(want0, children0, s);
      }
    }
  }

  ghost predicate Expands(a: Arg) {
    a.expandable && a.ty.Ptr?
  }

  // What the slot of an argument asks for: the pointee and its decay when it is an expandable pointer, else nothing.
  ghost function Wanted(a: Arg): Want {
    if Expands(a) then Want(a.ty.pointee, a.decay) else Want(Scalar(0), 0)
  }

  // The slot of the argument a and the parameters behind it, which have the types of the null operands: elements of the
  // slot, of their elements, and so on.
  ghost predicate Segment(a: Arg, slot: nat, nulls: seq<ArgTy>, mock: seq<ArgTy>, want: seq<Want>,
                          children: map<nat, seq<nat>>) {
    var end := slot + 1 + |nulls|;
    end <= |mock| == |want| && mock[slot] == a.ty && want[slot] == Wanted(a) &&
    (forall k :: 0 <= k < |nulls| ==> mock[slot + 1 + k] == nulls[k]) && Owned(children, slot, slot + 1, end) &&
    (forall p: nat, i: nat, c: nat :: E.IsChild(children, p, i, c) && slot <= p < end ==> c < end)
  }

  lemma NewSegment(a: Arg, slot: nat, nulls: seq<ArgTy>, before: seq<ArgTy>, mock: seq<ArgTy>, want: seq<Want>,
                   children: map<nat, seq<nat>>)
    requires WellFormed(mock, want, children) && slot == |before| && mock == before + [a.ty] + nulls
    requires want[slot] == Wanted(a) && Owned(children, slot, slot + 1, |mock|)
    ensures Segment(a, slot, nulls, mock, want, children)
  {
  }

  // The objects below the pointer a: the copies of the pointee when it decays, and everything inside.
  ghost predicate ObjectPath(a: Arg, p: seq<nat>)
    requires a.ty.Ptr?
  {
    p != [] &&
    if a.decay > 0 then p[0] < a.decay && StaysIn(a.ty.pointee, p[1..]) else StaysIn(a.ty.pointee, p)
  }

  ghost function ObjectAt(a: Arg, p: seq<nat>): Ty
    requires a.ty.Ptr? && ObjectPath(a, p)
  {
    if a.decay > 0 then Along(a.ty.pointee, p[1..]) else Along(a.ty.pointee, p)
  }

  // The parameter of an object points to it, or to its elements if it is an array, and so does its null operand.
  ghost predicate HasParameter(a: Arg, slot: nat, nulls: seq<ArgTy>, mock: seq<ArgTy>, children: map<nat, seq<nat>>,
                               p: seq<nat>)
    requires a.ty.Ptr? && ObjectPath(a, p)
  {
    var e, ty := E.Element(children, slot, p), ObjectAt(a, p);
    e.Some? && slot < e.value <= slot + |nulls| && e.value < |mock| &&
    mock[e.value] == nulls[e.value - slot - 1] == Ptr(if ty.Array? then ty.elem else ty)
  }

  ghost predicate IsObject(a: Arg, slot: nat, children: map<nat, seq<nat>>, c: nat)
    requires a.ty.Ptr?
  {
    exists p :: ObjectPath(a, p) && E.Element(children, slot, p) == Some(c)
  }

  // An expandable pointer adds one parameter per object, any other argument none.
  ghost predicate OnePerObject(a: Arg, slot: nat, nulls: seq<ArgTy>, mock: seq<ArgTy>, children: map<nat, seq<nat>>) {
    if a.expandable && a.ty.Ptr? then
      (forall p :: ObjectPath(a, p) ==> HasParameter(a, slot, nulls, mock, children, p)) &&
      (forall c :: slot < c <= slot + |nulls| ==> IsObject(a, slot, children, c))
    else nulls == []
  }

  // From a parameter that is to be expanded, a path that stays in its type leads to the parameter of the object there.
  lemma {:induction false} PathLeads(mock: seq<ArgTy>, want: seq<Want>, children: map<nat, seq<nat>>, s: nat,
                                     p: seq<nat>)
    requires WellFormed(mock, want, children) && AllDone(want, children, 0)
    requires s < |mock| && want[s].decay == 0 && StaysIn(want[s].ty, p)
    ensures E.Element(children, s, p).Some? && s <= E.Element(children, s, p).value < |mock|
    ensures want[E.Element(children, s, p).value] == Want(Along(want[s].ty, p), 0)
    ensures p != [] ==> mock[E.Element(children, s, p).value] == SlotType(Along(want[s].ty, p))
    decreases |p|
  {
    if p != [] {
      assert Done(want, children, s);
      var c := children[s][p[0]];
      assert E.IsChild(children, s, p[0], c);
      PathLeads(mock, want, children, c, p[1..]);
      assert p[1..] == [] ==> p == [p[0]];
    }
  }

  // ... and inside the segment of its slot.
  lemma {:induction false} PathStays(children: map<nat, seq<nat>>, slot: nat, end: nat, s: nat, p: seq<nat>)
    requires forall q: nat, i: nat, c: nat :: E.IsChild(children, q, i, c) && slot <= q < end ==> q < c < end
    requires slot <= s < end && E.Element(children, s, p).Some?
    ensures s <= E.Element(children, s, p).value < end && (p != [] ==> s < E.Element(children, s, p).value)
    decreases |p|
  {
    if p != [] {
      assert E.IsChild(children, s, p[0], children[s][p[0]]);
      PathStays(children, slot, end, children[s][p[0]], p[1..]);
    }
  }

  lemma {:induction false} StaysInLonger(ty: Ty, q: seq<nat>, i: nat)
    requires StaysIn(ty, q) && i < NumKids(Along(ty, q))
    ensures StaysIn(ty, q + [i])
    decreases |q|
  {
    if q != [] {
      StaysInLonger(Kid(ty, q[0]), q[1..], i);
      assert (q + [i])[1..] == q[1..] + [i];
    }
  }

  lemma {:induction false} ElementLonger(children: map<nat, seq<nat>>, s: nat, q: seq<nat>, i: nat, c: nat)
    requires E.Element(children, s, q).Some? && E.IsChild(children, E.Element(children, s, q).value, i, c)
    ensures E.Element(children, s, q + [i]) == Some(c)
    decreases |q|
  {
    if q != [] {
      ElementLonger(children, children[s][q[0]], q[1..], i, c);
      assert (q + [i])[1..] == q[1..] + [i];
    }
  }

  lemma ObjectLeads(a: Arg, slot: nat, nulls: seq<ArgTy>, mock: seq<ArgTy>, want: seq<Want>,
                    children: map<nat, seq<nat>>, p: seq<nat>)
    requires WellFormed(mock, want, children) && AllDone(want, children, 0)
    requires Segment(a, slot, nulls, mock, want, children) && Expands(a) && ObjectPath(a, p)
    ensures HasParameter(a, slot, nulls, mock, children, p)
    ensures want[E.Element(children, slot, p).value] == Want(ObjectAt(a, p), 0)
  {
    assert Done(want, children, slot);
    if a.decay > 0 {
      var c := children[slot][p[0]];
      assert E.IsChild(children, slot, p[0], c);
      PathLeads(mock, want, children, c, p[1..]);
    } else {
      PathLeads(mock, want, children, slot, p);
    }
    PathStays(children, slot, slot + 1 + |nulls|, slot, p);
    var k := E.Element(children, slot, p).value - slot - 1;
    assert mock[slot + 1 + k] == nulls[k];
  }

  // Every parameter of the segment is that of an object.
  lemma {:induction false} IsFromObject(a: Arg, slot: nat, nulls: seq<ArgTy>, mock: seq<ArgTy>, want: seq<Want>,
                                        children: map<nat, seq<nat>>, c: nat)
    requires WellFormed(mock, want, children) && AllDone(want, children, 0)
    requires Segment(a, slot, nulls, mock, want, children) && slot < c <= slot + |nulls|
    ensures Expands(a) && IsObject(a, slot, children, c)
    decreases c
  {
    assert HasParent(children, slot, c);
    var p: nat, i: nat :| E.IsChild(children, p, i, c) && slot <= p;
    if p == slot {
      assert E.Element(children, slot, [i]) == Some(c);
      assert ObjectPath(a, [i]);
    } else {
      IsFromObject(a, slot, nulls, mock, want, children, p);
      var q :| ObjectPath(a, q) && E.Element(children, slot, q) == Some(p);
      ObjectLeads(a, slot, nulls, mock, want, children, q);
      ElementLonger(children, slot, q, i, c);
      ObjectLonger(a, q, i);
    }
  }

  lemma ObjectLonger(a: Arg, q: seq<nat>, i: nat)
    requires a.ty.Ptr? && ObjectPath(a, q) && i < NumKids(ObjectAt(a, q))
    ensures ObjectPath(a, q + [i])
  {
    if a.decay > 0 {
      StaysInLonger(a.ty.pointee, q[1..], i);
      assert (q + [i])[1..] == q[1..] + [i];
    } else {
      StaysInLonger(a.ty.pointee, q, i);
    }
  }

  lemma SegmentObjects(a: Arg, slot: nat, nulls: seq<ArgTy>, mock: seq<ArgTy>, want: seq<Want>,
                       children: map<nat, seq<nat>>)
    requires WellFormed(mock, want, children) && AllDone(want, children, 0)
    requires Segment(a, slot, nulls, mock, want, children)
    ensures OnePerObject(a, slot, nulls, mock, children)
  {
    forall c | slot < c <= slot + |nulls| ensures Expands(a) && IsObject(a, slot, children, c) {
      IsFromObject(a, slot, nulls, mock, want, children, c);
    }
    if Expands(a) {
      forall p | ObjectPath(a, p) ensures HasParameter(a, slot, nulls, mock, children, p) {
        ObjectLeads(a, slot, nulls, mock, want, children, p);
      }
    } else if nulls != [] {
      IsFromObject(a, slot, nulls, mock, want, children, slot + 1);
    }
  }

  // Different objects have different parameters.
  lemma {:induction false} ObjectsApart(mock: seq<ArgTy>, want: seq<Want>, children: map<nat, seq<nat>>, s: nat,
                                        p: seq<nat>, q: seq<nat>)
    requires WellFormed(mock, want, children)
    requires E.Element(children, s, p).Some? && E.Element(children, s, p) == E.Element(children, s, q)
    ensures p == q
    decreases |p| + |q|
  {
    ElementLater(mock, want, children, s, p);
    ElementLater(mock, want, children, s, q);
    if p != [] && q != [] {
      var p', q' := p[..|p| - 1], q[..|q| - 1];
      E.ElementLast(children, s, p);
      E.ElementLast(children, s, q);
      ObjectsApart(mock, want, children, s, p', q');
      assert p == p' + [p[|p| - 1]] && q == q' + [q[|q| - 1]];
    }
  }

  lemma {:induction false} ElementLater(mock: seq<ArgTy>, want: seq<Want>, children: map<nat, seq<nat>>, s: nat,
                                        p: seq<nat>)
    requires WellFormed(mock, want, children) && E.Element(children, s, p).Some?
    ensures s <= E.Element(children, s, p).value && (p != [] ==> s < E.Element(children, s, p).value)
    decreases |p|
  {
    if p != [] {
      assert E.IsChild(children, s, p[0], children[s][p[0]]);
      ElementLater(mock, want, children, children[s][p[0]], p[1..]);
    }
  }

  // Arguments behind a segment leave it as it is.
  lemma SegmentKept(a: Arg, slot: nat, nulls: seq<ArgTy>, mock0: seq<ArgTy>, want0: seq<Want>,
                    children0: map<nat, seq<nat>>, mock: seq<ArgTy>, want: seq<Want>, children: map<nat, seq<nat>>)
    requires WellFormed(mock0, want0, children0) && Segment(a, slot, nulls, mock0, want0, children0)
    requires mock0 <= mock && want0 <= want && |want| == |mock| && Same(children0, children, |mock0|, |mock0|)
    ensures Segment(a, slot, nulls, mock, want, children)
  {
    var end := slot + 1 + |nulls|;
    forall c | slot + 1 <= c < end ensures HasParent(children, slot, c) {
      assert HasParent(children0, slot, c);
      var p: nat, i: nat :| E.IsChild(children0, p, i, c) && slot <= p;
      assert E.IsChild(children, p, i, c);
    }
    forall p: nat, i: nat, c: nat | E.IsChild(children, p, i, c) && slot <= p < end ensures c < end {
      assert E.IsChild(children0, p, i, c);
    }
  }

  // What an argument adds to the parameters: its own slot, and its expansion.
  function Expansion(a: Arg): seq<ArgTy> {
    if a.expandable && a.ty.Ptr? then Params(a.ty.pointee, a.decay) else []
  }

  function Parameters(args: seq<Arg>): seq<ArgTy> {
    if args == [] then [] else Parameters(args[..|args| - 1]) + [args[|args| - 1].ty] + Expansion(args[|args| - 1])
  }

  // The slot of the i-th original argument.
  function SlotOf(args: seq<Arg>, i: nat): nat
    requires i < |args|
  {
    |Parameters(args[..i])|
  }

  // The parameters of the expanded function, the slot of each original argument, and the null operands
  // that its call sites insert behind the original operand.
  method ExpandSignature(args: seq<Arg>) returns (sig: Signature, idxs: seq<nat>, nulls: seq<seq<ArgTy>>)
    ensures sig.Valid() && sig.mock == Parameters(args) && AllDone(sig.want, sig.children, 0)
    ensures |idxs| == |nulls| == |args|
    ensures forall i :: 0 <= i < |args| ==> idxs[i] == SlotOf(args, i) && nulls[i] == Expansion(args[i])
    ensures Behind(idxs, nulls, |sig.mock|) && AllExpanded(args, idxs, nulls, sig.mock, sig.children)
    ensures Segments(args, idxs, nulls, sig.mock, sig.want, sig.children)
  {
    sig := new Signature();
    idxs, nulls := [], [];
    var i := 0;
    while i < |args|
      invariant fresh(sig) && sig.Valid() && AllDone(sig.want, sig.children, 0)
      invariant i <= |args| && Expanding(args, i, idxs, nulls, sig.mock, sig.want, sig.children)
    {
      ghost var mock0, want0, children0 := sig.mock, sig.want, sig.children;
      ghost var idxs0, nulls0 := idxs, nulls;
      idxs := idxs + [|sig.mock|];
      var ops := sig.AddArgument(args[i]);
      nulls := nulls + [ops];
      ghost var next := i + 1;
      ExpandingNext(args, i, next, idxs0, nulls0, ops, mock0, want0, children0, sig.mock, sig.want, sig.children);
      i := i + 1;
    }
    assert args[..|args|] == args;
    SegmentsObjects(args, idxs, nulls, sig.mock, sig.want, sig.children);
  }

  // The slots and the null operands of the first arguments.
  ghost predicate Slots(args: seq<Arg>, idxs: seq<nat>, nulls: seq<seq<ArgTy>>) {
    |nulls| == |idxs| <= |args| &&
    forall j :: 0 <= j < |idxs| ==> idxs[j] == SlotOf(args, j) && nulls[j] == Expansion(args[j])
  }

  lemma SlotsNext(args: seq<Arg>, idxs: seq<nat>, nulls: seq<seq<ArgTy>>, slot: nat, ops: seq<ArgTy>)
    requires Slots(args, idxs, nulls) && |idxs| < |args|
    requires slot == SlotOf(args, |idxs|) && ops == Expansion(args[|idxs|])
    ensures Slots(args, idxs + [slot], nulls + [ops])
  {
  }

  // What the first n arguments have become.
  ghost predicate Expanding(args: seq<Arg>, n: nat, idxs: seq<nat>, nulls: seq<seq<ArgTy>>, mock: seq<ArgTy>,
                            want: seq<Want>, children: map<nat, seq<nat>>)
    requires n <= |args|
  {
    mock == Parameters(args[..n]) && |idxs| == |nulls| == n &&
    Slots(args, idxs, nulls) && Behind(idxs, nulls, |mock|) && Segments(args[..n], idxs, nulls, mock, want, children)
  }

  lemma ExpandingNext(args: seq<Arg>, i: nat, next: nat, idxs: seq<nat>, nulls: seq<seq<ArgTy>>, ops: seq<ArgTy>,
                      mock0: seq<ArgTy>, want0: seq<Want>, children0: map<nat, seq<nat>>, mock: seq<ArgTy>,
                      want: seq<Want>, children: map<nat, seq<nat>>)
    requires i < |args| && next == i + 1 && Expanding(args, i, idxs, nulls, mock0, want0, children0)
    requires WellFormed(mock0, want0, children0) && mock0 <= mock && want0 <= want
    requires Same(children0, children, |mock0|, |mock0|) && ops == Expansion(args[i])
    requires Segment(args[i], |mock0|, ops, mock, want, children) && mock == mock0 + [args[i].ty] + ops
    ensures Expanding(args, next, idxs + [|mock0|], nulls + [ops], mock, want, children)
  {
    var before, a := args[..i], args[i];
    assert args[..next] == before + [a];
    assert (before + [a])[..|before + [a]| - 1] == before;
    SlotsNext(args, idxs, nulls, |mock0|, ops);
    BehindNext(idxs, nulls, |mock0|, ops, |mock|);
    SegmentsNext(before, a, idxs, nulls, ops, mock0, want0, children0, mock, want, children);
  }

  // One segment behind the other, from the first parameter to the last.
  ghost predicate Behind(idxs: seq<nat>, nulls: seq<seq<ArgTy>>, size: nat) {
    |nulls| == |idxs| && (if idxs == [] then size == 0 else idxs[0] == 0) &&
    forall i :: 0 <= i < |idxs| ==> idxs[i] + 1 + |nulls[i]| == if i + 1 < |idxs| then idxs[i + 1] else size
  }

  // Every argument keeps its type at its slot, and the parameters behind it are those of its objects.
  ghost predicate AllExpanded(args: seq<Arg>, idxs: seq<nat>, nulls: seq<seq<ArgTy>>, mock: seq<ArgTy>,
                              children: map<nat, seq<nat>>) {
    |idxs| == |nulls| == |args| && forall i :: 0 <= i < |args| ==>
      idxs[i] < |mock| && mock[idxs[i]] == args[i].ty && OnePerObject(args[i], idxs[i], nulls[i], mock, children)
  }

  ghost predicate Segments(args: seq<Arg>, idxs: seq<nat>, nulls: seq<seq<ArgTy>>, mock: seq<ArgTy>, want: seq<Want>,
                           children: map<nat, seq<nat>>) {
    |idxs| == |nulls| == |args| &&
    forall i :: 0 <= i < |args| ==> Segment(args[i], idxs[i], nulls[i], mock, want, children)
  }

  lemma SegmentsObjects(args: seq<Arg>, idxs: seq<nat>, nulls: seq<seq<ArgTy>>, mock: seq<ArgTy>, want: seq<Want>,
                        children: map<nat, seq<nat>>)
    requires WellFormed(mock, want, children) && AllDone(want, children, 0)
    requires Segments(args, idxs, nulls, mock, want, children)
    ensures AllExpanded(args, idxs, nulls, mock, children)
  {
    forall i | 0 <= i < |args| ensures OnePerObject(args[i], idxs[i], nulls[i], mock, children) {
      SegmentObjects(args[i], idxs[i], nulls[i], mock, want, children);
    }
  }

  lemma BehindNext(idxs: seq<nat>, nulls: seq<seq<ArgTy>>, size: nat, ops: seq<ArgTy>, size': nat)
    requires Behind(idxs, nulls, size) && size' == size + 1 + |ops|
    ensures Behind(idxs + [size], nulls + [ops], size')
  {
    var idxs', nulls' := idxs + [size], nulls + [ops];
    assert idxs'[|idxs|] == size && nulls'[|idxs|] == ops;
    forall i | 0 <= i < |idxs'|
      ensures idxs'[i] + 1 + |nulls'[i]| == if i + 1 < |idxs'| then idxs'[i + 1] else size'
    {
      if i < |idxs| {
        assert idxs'[i] == idxs[i] && nulls'[i] == nulls[i];
        assert idxs[i] + 1 + |nulls[i]| == if i + 1 < |idxs| then idxs[i + 1] else size;
        assert i + 1 < |idxs| ==> idxs'[i + 1] == idxs[i + 1];
      }
    }
  }

  lemma SegmentsNext(args: seq<Arg>, a: Arg, idxs: seq<nat>, nulls: seq<seq<ArgTy>>, ops: seq<ArgTy>,
                     mock0: seq<ArgTy>, want0: seq<Want>, children0: map<nat, seq<nat>>, mock: seq<ArgTy>,
                     want: seq<Want>, children: map<nat, seq<nat>>)
    requires WellFormed(mock0, want0, children0) && Segments(args, idxs, nulls, mock0, want0, children0)
    requires mock0 <= mock && want0 <= want && Same(children0, children, |mock0|, |mock0|)
    requires Segment(a, |mock0|, ops, mock, want, children)
    ensures Segments(args + [a], idxs + [|mock0|], nulls + [ops], mock, want, children)
  {
    var args', idxs', nulls' := args + [a], idxs + [|mock0|], nulls + [ops];
    forall i | 0 <= i < |args'|
      ensures Segment(args'[i], idxs'[i], nulls'[i], mock, want, children)
    {
      if i < |args| {
        SegmentKept(args[i], idxs[i], nulls[i], mock0, want0, children0, mock, want, children);
      }
    }
  }

  // The operands of a rewritten call, by type: each original operand, then its null operands.
  method CallOperands(args: seq<Arg>, nulls: seq<seq<ArgTy>>) returns (ops: seq<ArgTy>)
    requires |nulls| == |args| && forall i :: 0 <= i < |args| ==> nulls[i] == Expansion(args[i])
    ensures ops == Parameters(args)
  {
    ops := [];
    for i := 0 to |args|
      invariant ops == Parameters(args[..i])
    {
      assert args[..i + 1][..i] == args[..i];
      ops := ops + [args[i].ty] + nulls[i];
    }
    assert args[..|args|] == args;
  }

  // Each original argument keeps its type at its own slot.
  lemma {:induction false} SlotKeepsArgument(args: seq<Arg>, i: nat)
    requires i < |args|
    ensures SlotOf(args, i) < |Parameters(args)| && Parameters(args)[SlotOf(args, i)] == args[i].ty
    ensures forall j :: 0 <= j < i ==> SlotOf(args, j) < SlotOf(args, i)
    decreases |args|
  {
    var n := |args| - 1;
    if i < n {
      SlotKeepsArgument(args[..n], i);
      assert args[..n][..i] == args[..i];
    }
    forall j | 0 <= j < i
      ensures SlotOf(args, j) < SlotOf(args, i)
    {
      SlotKeepsArgument(args[..i], j);
      assert args[..i][..j] == args[..j];
    }
  }
}
