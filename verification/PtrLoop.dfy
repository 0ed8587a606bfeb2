// runOnLoop: the loop with rewritten phis and address computations follows the original loop on every run.
module PtrLoop {
  import opened Wrappers
  import opened Collections
  import opened Modular
  import opened PtrIterator

  // The places where a pointer is used: by an address computation, by a phi for one predecessor, by a comparison.
  datatype Slot = GepPtr(g: nat) | PhiIn(p: nat, pred: nat) | CmpArg(c: nat, first: bool)

  // The phis that are replaced, with the blocks they are entered from; the single indices of the address computations
  // of the loop; operands, which are values of the loop (uses) or from outside it (outside); and those from outside
  // whose offset is known. Values of the loop that are neither replaced phis nor address computations are other phis,
  // loads and results of calls.
  datatype Loop = Loop(phis: map<nat, set<nat>>, steps: map<nat, Index>, uses: map<Slot, nat>, outside: map<Slot, nat>,
                       found: set<Slot>)

  // Address computations have one operand, which is earlier if it is another one.
  ghost predicate StepsFit(l: Loop) {
    (forall g :: g in l.steps ==> g !in l.phis && (l.steps[g].Const? || l.steps[g].Var?)) &&
    (forall u :: u in l.uses && u.GepPtr? ==> u.g in l.steps && (l.uses[u] in l.steps ==> l.uses[u] < u.g)) &&
    (forall g :: g in l.steps && GepPtr(g) !in l.outside ==> GepPtr(g) in l.uses)
  }

  // Phis have one operand for each block they are entered from.
  ghost predicate PhisFit(l: Loop) {
    (forall p, pred :: p in l.phis && pred in l.phis[p] && PhiIn(p, pred) !in l.outside ==> PhiIn(p, pred) in l.uses) &&
    (forall u :: u in l.uses && u.PhiIn? ==> u.p in l.phis && u.pred in l.phis[u.p])
  }

  ghost predicate WellFormed(l: Loop) {
    StepsFit(l) && PhisFit(l) &&
    (forall u :: u in l.uses ==> u !in l.outside) &&
    (forall u :: u in l.found ==> u in l.outside && !u.GepPtr?)
  }

  // v is a replaced phi, or computed in the loop from one.
  ghost predicate Derived(l: Loop, v: nat)
    requires WellFormed(l)
    decreases if v in l.phis then 0 else v + 1
  {
    v in l.phis ||
    (GepPtr(v) in l.uses && (l.uses[GepPtr(v)] in l.phis || l.uses[GepPtr(v)] in l.steps) &&
      Derived(l, l.uses[GepPtr(v)]))
  }

  // The new index that replaces the use u.
  function NewIndex(l: Loop, u: Slot): Index
    requires u in l.uses && (u.GepPtr? ==> u.g in l.steps)
  {
    var i := IndexOf(l.uses[u]);
    if u.GepPtr? then OperateOnIndex(i, l.steps[u.g]) else i
  }

  method PushUses(l: Loop, pending0: seq<Slot>, v: nat) returns (pending: seq<Slot>)
    requires Distinct(pending0) && forall u :: u in pending0 ==> u in l.uses && l.uses[u] != v
    ensures |pending0| <= |pending| && pending[..|pending0|] == pending0
    ensures Distinct(pending)
    ensures forall u :: u in pending <==> u in pending0 || (u in l.uses && l.uses[u] == v)
  {
    pending := pending0;
    var left := set u | u in l.uses && l.uses[u] == v;
    while left != {}
      invariant forall u :: u in left ==> u in l.uses && l.uses[u] == v && u !in pending
      invariant |pending0| <= |pending| && pending[..|pending0|] == pending0
      invariant Distinct(pending)
      invariant forall u :: u in pending || u in left <==> u in pending0 || (u in l.uses && l.uses[u] == v)
    {
      var u :| u in left;
      assert pending[..|pending0|] == (pending + [u])[..|pending0|];
      pending := pending + [u];
      left := left - {u};
    }
  }

  // The values whose uses have been pushed while the first i uses are done.
  ghost predicate Pushed(l: Loop, pending: seq<Slot>, i: nat, v: nat) {
    v in l.phis || (i <= |pending| && GepPtr(v) in pending[..i])
  }

  ghost predicate Progress(l: Loop, pending: seq<Slot>, i: nat) {
    i <= |pending| && Distinct(pending) &&
    forall u :: u in pending <==> u in l.uses && Pushed(l, pending, i, l.uses[u])
  }

  // All uses of the phis.
  method FirstUses(l: Loop) returns (pending: seq<Slot>)
    requires WellFormed(l)
    ensures Progress(l, pending, 0)
  {
    pending := [];
    var left := l.phis.Keys;
    while left != {}
      invariant left <= l.phis.Keys
      invariant Distinct(pending)
      invariant forall u :: u in pending <==> u in l.uses && l.uses[u] in l.phis.Keys - left
    {
      var p :| p in left;
      pending := PushUses(l, pending, p);
      left := left - {p};
    }
  }

  lemma PushedOnce(l: Loop, pending: seq<Slot>, i: nat)
    requires WellFormed(l) && Progress(l, pending, i) && i < |pending| && pending[i].GepPtr?
    ensures !Pushed(l, pending, i, pending[i].g)
    ensures forall u :: u in pending ==> l.uses[u] != pending[i].g
  {
    assert pending[i] in l.uses;
    DistinctAt(pending, i);
  }

  // One use is taken from the worklist.
  method Advance(l: Loop, pending0: seq<Slot>, i: nat) returns (pending: seq<Slot>)
    requires WellFormed(l) && Progress(l, pending0, i) && i < |pending0|
    ensures Progress(l, pending, i + 1)
    ensures pending[..i + 1] == pending0[..i] + [pending0[i]]
  {
    var u := pending0[i];
    pending := pending0;
    if u.GepPtr? {
      PushedOnce(l, pending, i);
      pending := PushUses(l, pending, u.g);
    }
    StillFirst(pending0, pending, i);
    PushedNext(l, pending0, pending, i);
  }

  lemma StillFirst<T>(s: seq<T>, s': seq<T>, i: nat)
    requires |s| <= |s'| && s'[..|s|] == s && i < |s|
    ensures s'[..i + 1] == s[..i] + [s[i]]
  {
    assert s'[..i + 1] == s'[..|s|][..i + 1];
  }

  lemma PushedNext(l: Loop, pending0: seq<Slot>, pending: seq<Slot>, i: nat)
    requires i < |pending0| <= |pending| && pending[..i + 1] == pending0[..i] + [pending0[i]]
    ensures forall v :: Pushed(l, pending, i + 1, v) <==> Pushed(l, pending0, i, v) || pending0[i] == GepPtr(v)
  {
    forall v ensures Pushed(l, pending, i + 1, v) <==> Pushed(l, pending0, i, v) || pending0[i] == GepPtr(v) {
      assert GepPtr(v) in pending[..i + 1] <==> GepPtr(v) in pending0[..i] || GepPtr(v) == pending0[i];
    }
  }

  // At the end every derived value had its uses pushed.
  lemma {:induction false} AllPushed(l: Loop, pending: seq<Slot>, v: nat)
    requires WellFormed(l) && Progress(l, pending, |pending|)
    ensures Pushed(l, pending, |pending|, v) <==> Derived(l, v)
    decreases if v in l.phis then 0 else v + 1
  {
    assert pending[..|pending|] == pending;
    if v !in l.phis && GepPtr(v) in l.uses && (l.uses[GepPtr(v)] in l.phis || l.uses[GepPtr(v)] in l.steps) {
      AllPushed(l, pending, l.uses[GepPtr(v)]);
    }
  }

  // The worklist of uses: each use of a derived value gets its new index, and nothing else does.
  method RewriteUses(l: Loop) returns (res: map<Slot, Index>)
    requires WellFormed(l)
    ensures forall u :: u in res <==> u in l.uses && Derived(l, l.uses[u])
    ensures forall u :: u in res ==> res[u] == NewIndex(l, u)
  {
    var pending := FirstUses(l);
    res := map[];
    var i := 0;
    while i < |pending|
      invariant Progress(l, pending, i)
      invariant forall u :: u in res <==> u in pending[..i]
      invariant forall u :: u in res ==> u in l.uses && res[u] == NewIndex(l, u)
      decreases l.uses.Keys - res.Keys
    {
      var u := pending[i];
      DistinctAt(pending, i);
      assert u in l.uses.Keys - res.Keys;
      pending := Advance(l, pending, i);
      res := res[u := NewIndex(l, u)];
      i := i + 1;
    }
    assert pending[..|pending|] == pending;
    forall v: nat ensures Pushed(l, pending, |pending|, v) <==> Derived(l, v) {
      AllPushed(l, pending, v);
    }
  }

  // The offsets of the operands from outside the loop that were found.
  method ExternalOffsets(ext: Outside, l: Loop, common: nat) returns (offs: map<Slot, Index>)
    requires Ordered(ext) && WellFormed(l)
    ensures offs.Keys == l.found
    ensures forall u :: u in offs ==> offs[u] == OffsetFrom(ext, l.outside[u], common, Const(0))
  {
    offs := map[];
    var left := l.found;
    while left != {}
      invariant left <= l.found && offs.Keys == l.found - left
      invariant forall u :: u in offs ==> offs[u] == OffsetFrom(ext, l.outside[u], common, Const(0))
    {
      var u :| u in left;
      var offset := ExternalOffset(ext, l.outside[u], common);
      offs := offs[u := offset];
      left := left - {u};
    }
  }

  // What the loop finds around it: the outside computations, addresses of the roots and variables before the loop.
  datatype Around = Around(ext: Outside, common: nat, root: nat -> int, vars: nat -> int)

  // A run of the loop: a block with replaced phis is entered, an address computation is executed, another value of
  // the loop is computed, variables change.
  datatype Event = Enter(phis: set<nat>, pred: nat) | Exec(g: nat) | Arrive(v: nat, x: int) | Change(vars: nat -> int)

  // For the address computations of the loop, ends says where following them ends, and dists what the rewritten loop
  // has for the distance from there.
  datatype State = State(vars: nat -> int, ptrs: map<nat, int>, ends: map<nat, int>)
  datatype NewState = NewState(vars: nat -> int, idxs: map<nat, int>, dists: map<nat, int>)

  ghost function AddressOf(a: Around, v: nat): int
    requires Ordered(a.ext)
  {
    Address(a.ext, v, a.root, a.vars)
  }

  ghost predicate Available(l: Loop, s: State, u: Slot) {
    u in l.outside || (u in l.uses && l.uses[u] in s.ptrs)
  }

  // The pointer at a use.
  ghost function PtrAt(a: Around, l: Loop, s: State, u: Slot): int
    requires Ordered(a.ext) && Available(l, s, u)
  {
    if u in l.outside then AddressOf(a, l.outside[u]) else s.ptrs[l.uses[u]]
  }

  // Following the computations of a pointer ends at the common address, at a root, or at another value of the loop.
  ghost function EndAt(a: Around, l: Loop, s: State, u: Slot): int
    requires Ordered(a.ext) && Available(l, s, u)
  {
    if u in l.outside then AddressOf(a, EndOf(a.ext, l.outside[u], a.common))
    else if l.uses[u] in l.phis then Base(a)
    else if l.uses[u] in s.ends then s.ends[l.uses[u]]
    else s.ptrs[l.uses[u]]
  }

  ghost predicate Enabled(l: Loop, s: State, e: Event) {
    match e
    case Enter(phis, pred) =>
      forall p :: p in phis ==> p in l.phis && pred in l.phis[p] && Available(l, s, PhiIn(p, pred))
    case Exec(g) => g in l.steps && Available(l, s, GepPtr(g))
    case Arrive(v, x) => v !in l.phis && v !in l.steps
    case Change(vars) => true
  }

  // The original loop; all phis of a block take their values at once.
  ghost function Step(a: Around, l: Loop, s: State, e: Event): State
    requires Ordered(a.ext) && Enabled(l, s, e)
  {
    match e
    case Enter(phis, pred) =>
      s.(ptrs := map p | p in s.ptrs.Keys + phis ::
        if p in phis then PtrAt(a, l, s, PhiIn(p, pred)) else s.ptrs[p])
    case Exec(g) =>
      s.(ptrs := s.ptrs[g := PtrAt(a, l, s, GepPtr(g)) + Eval(l.steps[g], s.vars, map[])],
         ends := s.ends[g := EndAt(a, l, s, GepPtr(g))])
    case Arrive(v, x) => s.(ptrs := s.ptrs[v := x])
    case Change(vars) => s.(vars := vars)
  }

  // The index at a rewritten use; none when the use was left undefined.
  ghost function IdxAt(a: Around, offs: map<Slot, Index>, res: map<Slot, Index>, s: NewState, u: Slot): Option<int> {
    if u in offs then Some(Eval(offs[u], a.vars, map[]))
    else if u in res then Some(Eval(res[u], s.vars, s.idxs))
    else None
  }

  // The offset of a pointer that is found by following its computations.
  ghost function DistAt(a: Around, l: Loop, s: NewState, u: Slot): int
    requires Ordered(a.ext) && (u in l.outside || u in l.uses)
  {
    if u in l.outside then Eval(OffsetFrom(a.ext, l.outside[u], a.common, Const(0)), a.vars, map[])
    else if l.uses[u] in l.phis then (if l.uses[u] in s.idxs then s.idxs[l.uses[u]] else 0)
    else if l.uses[u] in s.dists then s.dists[l.uses[u]]
    else 0
  }

  // ... and one step further.
  ghost function NewDist(a: Around, l: Loop, s: NewState, g: nat): int
    requires Ordered(a.ext) && g in l.steps && (GepPtr(g) in l.outside || GepPtr(g) in l.uses)
  {
    Signed(DistAt(a, l, s, GepPtr(g)) + Eval(l.steps[g], s.vars, map[]), WORD)
  }

  // The rewritten loop.
  ghost function NewStep(a: Around, l: Loop, offs: map<Slot, Index>, res: map<Slot, Index>, s: NewState,
                         e: Event): NewState
    requires Ordered(a.ext)
  {
    match e
    case Enter(phis, pred) =>
      s.(idxs := map p |
        p in s.idxs.Keys + phis && (p in phis ==> IdxAt(a, offs, res, s, PhiIn(p, pred)).Some?) ::
        if p in phis then IdxAt(a, offs, res, s, PhiIn(p, pred)).value else s.idxs[p])
    case Exec(g) =>
      if g in l.steps && (GepPtr(g) in l.outside || GepPtr(g) in l.uses) then
        s.(idxs := if GepPtr(g) in res then s.idxs[g := Eval(res[GepPtr(g)], s.vars, s.idxs)] else s.idxs,
           dists := s.dists[g := NewDist(a, l, s, g)])
      else s
    case Arrive(v, x) => s
    case Change(vars) => s.(vars := vars)
  }

  ghost predicate EnabledRun(a: Around, l: Loop, s: State, es: seq<Event>)
    requires Ordered(a.ext)
    decreases |es|
  {
    es == [] || (Enabled(l, s, es[0]) && EnabledRun(a, l, Step(a, l, s, es[0]), es[1..]))
  }

  ghost function Run(a: Around, l: Loop, s: State, es: seq<Event>): State
    requires Ordered(a.ext) && EnabledRun(a, l, s, es)
    decreases |es|
  {
    if es == [] then s else Run(a, l, Step(a, l, s, es[0]), es[1..])
  }

  ghost function NewRun(a: Around, l: Loop, offs: map<Slot, Index>, res: map<Slot, Index>, s: NewState,
                        es: seq<Event>): NewState
    requires Ordered(a.ext)
    decreases |es|
  {
    if es == [] then s else NewRun(a, l, offs, res, NewStep(a, l, offs, res, s, es[0]), es[1..])
  }

  // The pointers that get an index.
  ghost function DerivedValues(l: Loop): (d: set<nat>)
    requires WellFormed(l)
    ensures forall v :: v in d <==> Derived(l, v)
  {
    set v | v in l.phis.Keys + l.steps.Keys && Derived(l, v)
  }

  ghost function Base(a: Around): int
    requires Ordered(a.ext)
  {
    AddressOf(a, a.common)
  }

  // What RewriteUses and ExternalOffsets establish, with all externals computed from the common address.
  ghost predicate Rewriting(ext: Outside, common: nat, l: Loop, offs: map<Slot, Index>, res: map<Slot, Index>) {
    WellFormed(l) && Ordered(ext) &&
    (forall u :: u in res <==> u in l.uses && Derived(l, l.uses[u])) &&
    (forall u :: u in res ==> res[u] == NewIndex(l, u)) &&
    offs.Keys == l.found &&
    (forall u :: u in offs ==> offs[u] == OffsetFrom(ext, l.outside[u], common, Const(0))) &&
    (forall u :: u in offs ==> common in ChainOf(ext, l.outside[u]))
  }

  ghost predicate Rewritten(a: Around, l: Loop, offs: map<Slot, Index>, res: map<Slot, Index>) {
    Rewriting(a.ext, a.common, l, offs, res)
  }

  // Each pointer in d has an index, which is its distance from the base in 32 bits.
  ghost predicate Tracks(base: int, d: set<nat>, s: State, t: NewState) {
    s.vars == t.vars &&
    (forall v :: v in t.idxs <==> v in s.ptrs && v in d) &&
    (forall v :: v in t.idxs ==> t.idxs[v] == Signed(s.ptrs[v] - base, WORD))
  }

  // Every operand of a replaced phi is an external that was found, or derived from a replaced phi.
  ghost predicate AllReplaced(l: Loop)
    requires WellFormed(l)
  {
    forall u: Slot :: u.PhiIn? && u.p in l.phis && u.pred in l.phis[u.p] ==> Replaced(l, u)
  }

  ghost predicate Replaced(l: Loop, u: Slot)
    requires WellFormed(l)
  {
    u in l.found || (u in l.uses && Derived(l, l.uses[u]))
  }

  lemma IdxAtUse(a: Around, l: Loop, offs: map<Slot, Index>, res: map<Slot, Index>, s: State, t: NewState, u: Slot)
    requires Rewritten(a, l, offs, res) && Tracks(Base(a), DerivedValues(l), s, t) && Available(l, s, u)
    requires !u.GepPtr? && Replaced(l, u)
    ensures IdxAt(a, offs, res, t, u) == Some(Signed(PtrAt(a, l, s, u) - Base(a), WORD))
  {
    if u in l.found {
      OffsetIsDistance(a.ext, l.outside[u], a.common, Const(0), a.root, a.vars);
      EndIsCommon(a.ext, l.outside[u], a.common);
      SignedExact(0, WORD);
    }
  }

  // Adding a step to an index that is the distance x gives the distance after the step.
  lemma SteppedIndex(v: nat, step: Index, vars: nat -> int, idxs: map<nat, int>, x: int)
    requires InRange(idxs) && v in idxs && idxs[v] == Signed(x, WORD) && (step.Const? || step.Var?)
    ensures Eval(OperateOnIndex(IndexOf(v), step), vars, idxs) == Signed(x + Eval(step, vars, map[]), WORD)
  {
    OperateAdds(IndexOf(v), step, vars, idxs);
    SignedSum(x, Eval(step, vars, map[]), WORD);
  }

  lemma TracksInRange(base: int, d: set<nat>, s: State, t: NewState)
    requires Tracks(base, d, s, t)
    ensures InRange(t.idxs)
  {
    forall x | x in t.idxs ensures FitsSigned(t.idxs[x], WORD) {
      SignedExact(s.ptrs[x] - base, WORD);
    }
  }

  lemma ComputeTracks(base: int, d: set<nat>, s: State, t: NewState, g: nat, v: nat, step: Index, x: int, j: int)
    requires Tracks(base, d, s, t) && g in d && v in d && v in s.ptrs && (step.Const? || step.Var?)
    requires x == s.ptrs[v] + Eval(step, s.vars, map[]) && j == Eval(OperateOnIndex(IndexOf(v), step), t.vars, t.idxs)
    ensures Tracks(base, d, s.(ptrs := s.ptrs[g := x]), t.(idxs := t.idxs[g := j]))
  {
    TracksInRange(base, d, s, t);
    var was, delta := s.ptrs[v] - base, Eval(step, s.vars, map[]);
    SteppedIndex(v, step, t.vars, t.idxs, was);
    assert was + delta == x - base;
  }

  lemma AssignTracks(base: int, d: set<nat>, s: State, t: NewState, phis: set<nat>, xs: map<nat, int>,
                     js: map<nat, int>)
    requires Tracks(base, d, s, t) && phis <= d
    requires xs.Keys == s.ptrs.Keys + phis && js.Keys == t.idxs.Keys + phis
    requires forall p :: p in phis ==> js[p] == Signed(xs[p] - base, WORD)
    requires forall p :: p in s.ptrs && p !in phis ==> xs[p] == s.ptrs[p]
    requires forall p :: p in t.idxs && p !in phis ==> js[p] == t.idxs[p]
    ensures Tracks(base, d, s.(ptrs := xs), t.(idxs := js))
  {
  }

  // What executing a replaced address computation does to what is tracked.
  lemma ExecReplaced(a: Around, l: Loop, offs: map<Slot, Index>, res: map<Slot, Index>, s: State, t: NewState, g: nat,
                     x: int, j: int)
    requires Ordered(a.ext) && Enabled(l, s, Exec(g)) && GepPtr(g) in res && GepPtr(g) !in l.outside
    requires x == s.ptrs[l.uses[GepPtr(g)]] + Eval(l.steps[g], s.vars, map[])
    requires j == Eval(res[GepPtr(g)], t.vars, t.idxs)
    ensures Step(a, l, s, Exec(g)).ptrs == s.ptrs[g := x] && Step(a, l, s, Exec(g)).vars == s.vars
    ensures NewStep(a, l, offs, res, t, Exec(g)).idxs == t.idxs[g := j]
    ensures NewStep(a, l, offs, res, t, Exec(g)).vars == t.vars
  {
  }

  lemma ExecTracks(a: Around, l: Loop, offs: map<Slot, Index>, res: map<Slot, Index>, base: int, d: set<nat>,
                   s: State, t: NewState, g: nat)
    requires Ordered(a.ext) && Tracks(base, d, s, t) && Enabled(l, s, Exec(g))
    requires g in d <==> GepPtr(g) in res
    requires GepPtr(g) in res ==>
      GepPtr(g) in l.uses && GepPtr(g) !in l.outside && l.uses[GepPtr(g)] in d &&
        (l.steps[g].Const? || l.steps[g].Var?) &&
      res[GepPtr(g)] == OperateOnIndex(IndexOf(l.uses[GepPtr(g)]), l.steps[g])
    ensures Tracks(base, d, Step(a, l, s, Exec(g)), NewStep(a, l, offs, res, t, Exec(g)))
  {
    if GepPtr(g) in res {
      var v, step := l.uses[GepPtr(g)], l.steps[g];
      var x, j := s.ptrs[v] + Eval(step, s.vars, map[]), Eval(OperateOnIndex(IndexOf(v), step), t.vars, t.idxs);
      ComputeTracks(base, d, s, t, g, v, step, x, j);
      ExecReplaced(a, l, offs, res, s, t, g, x, j);
    }
  }

  // The value that a phi of the rewritten loop takes.
  ghost predicate Matches(a: Around, l: Loop, offs: map<Slot, Index>, res: map<Slot, Index>, base: int, s: State,
                          t: NewState, u: Slot)
    requires Ordered(a.ext)
  {
    Available(l, s, u) && IdxAt(a, offs, res, t, u) == Some(Signed(PtrAt(a, l, s, u) - base, WORD))
  }

  lemma EnterTracks(a: Around, l: Loop, offs: map<Slot, Index>, res: map<Slot, Index>, base: int, d: set<nat>,
                    s: State, t: NewState, phis: set<nat>, pred: nat)
    requires Ordered(a.ext) && Enabled(l, s, Enter(phis, pred)) && Tracks(base, d, s, t) && phis <= d
    requires forall p :: p in phis ==> Matches(a, l, offs, res, base, s, t, PhiIn(p, pred))
    ensures Tracks(base, d, Step(a, l, s, Enter(phis, pred)), NewStep(a, l, offs, res, t, Enter(phis, pred)))
  {
    AssignTracks(base, d, s, t, phis,
                 Step(a, l, s, Enter(phis, pred)).ptrs, NewStep(a, l, offs, res, t, Enter(phis, pred)).idxs);
  }

  lemma StepTracks(a: Around, l: Loop, offs: map<Slot, Index>, res: map<Slot, Index>, s: State, t: NewState, e: Event)
    requires Rewritten(a, l, offs, res) && AllReplaced(l) && Enabled(l, s, e)
    requires Tracks(Base(a), DerivedValues(l), s, t)
    ensures Tracks(Base(a), DerivedValues(l), Step(a, l, s, e), NewStep(a, l, offs, res, t, e))
  {
    match e
    case Enter(phis, pred) =>
      forall p | p in phis ensures Matches(a, l, offs, res, Base(a), s, t, PhiIn(p, pred)) {
        IdxAtUse(a, l, offs, res, s, t, PhiIn(p, pred));
      }
      EnterTracks(a, l, offs, res, Base(a), DerivedValues(l), s, t, phis, pred);
    case Exec(g) => ExecTracks(a, l, offs, res, Base(a), DerivedValues(l), s, t, g);
    case Arrive(v, x) =>
      assert v !in DerivedValues(l);
    case Change(vars) =>
  }

  // On every run of the loop every derived pointer is the common address plus its index, up to 32 bits.
  lemma {:induction false} RunTracks(a: Around, l: Loop, offs: map<Slot, Index>, res: map<Slot, Index>, s: State,
                                     t: NewState, es: seq<Event>)
    requires Rewritten(a, l, offs, res) && AllReplaced(l) && EnabledRun(a, l, s, es)
    requires Tracks(Base(a), DerivedValues(l), s, t)
    ensures Tracks(Base(a), DerivedValues(l), Run(a, l, s, es), NewRun(a, l, offs, res, t, es))
    decreases |es|
  {
    if es != [] {
      StepTracks(a, l, offs, res, s, t, es[0]);
      RunTracks(a, l, offs, res, Step(a, l, s, es[0]), NewStep(a, l, offs, res, t, es[0]), es[1..]);
    }
  }

  // A rewritten address computation, the common address plus the index, gives the original address exactly when
  // the distance fits in 32 bits.
  lemma RewrittenAddress(base: int, d: set<nat>, s: State, t: NewState, v: nat)
    requires Tracks(base, d, s, t) && v in s.ptrs && v in d
    ensures base + t.idxs[v] == s.ptrs[v] <==> -0x8000_0000 <= s.ptrs[v] - base < 0x8000_0000
  {
    SignedExact(s.ptrs[v] - base, WORD);
  }

  // Running one more event.
  lemma {:induction false} RunSnoc(a: Around, l: Loop, s: State, es: seq<Event>, e: Event)
    requires Ordered(a.ext) && EnabledRun(a, l, s, es) && Enabled(l, Run(a, l, s, es), e)
    ensures EnabledRun(a, l, s, es + [e])
    ensures Run(a, l, s, es + [e]) == Step(a, l, Run(a, l, s, es), e)
    decreases |es|
  {
    if es == [] {
      assert Run(a, l, Step(a, l, s, e), (es + [e])[1..]) == Step(a, l, s, e);
    } else {
      assert (es + [e])[1..] == es[1..] + [e];
      RunSnoc(a, l, Step(a, l, s, es[0]), es[1..], e);
    }
  }

  lemma {:induction false} NewRunSnoc(a: Around, l: Loop, offs: map<Slot, Index>, res: map<Slot, Index>, t: NewState,
                                      es: seq<Event>, e: Event)
    requires Ordered(a.ext)
    ensures NewRun(a, l, offs, res, t, es + [e]) == NewStep(a, l, offs, res, NewRun(a, l, offs, res, t, es), e)
    decreases |es|
  {
    if es != [] {
      assert (es + [e])[1..] == es[1..] + [e];
      NewRunSnoc(a, l, offs, res, NewStep(a, l, offs, res, t, es[0]), es[1..], e);
    }
  }

  // A value of the loop that is not derived from a replaced phi can be computed from any state.
  lemma {:induction false} Computable(a: Around, l: Loop, s: State, v: nat) returns (es: seq<Event>)
    requires WellFormed(l) && Ordered(a.ext) && !Derived(l, v)
    ensures EnabledRun(a, l, s, es) && v in Run(a, l, s, es).ptrs
    decreases if v in l.steps then v + 1 else 0
  {
    es := [];
    var e := Arrive(v, 0);
    if v in l.steps {
      e := Exec(v);
      if GepPtr(v) in l.uses {
        es := Computable(a, l, s, l.uses[GepPtr(v)]);
      }
      assert Available(l, Run(a, l, s, es), GepPtr(v));
    }
    RunSnoc(a, l, s, es, e);
    es := es + [e];
  }

  // A phi with an operand that is not replaced is left without an index on some run.
  lemma UnreplacedIsUndefined(a: Around, l: Loop, offs: map<Slot, Index>, res: map<Slot, Index>, s: State, t: NewState)
    returns (es: seq<Event>, p: nat)
    requires Rewritten(a, l, offs, res) && !AllReplaced(l)
    ensures EnabledRun(a, l, s, es) && p in l.phis
    ensures p in Run(a, l, s, es).ptrs && p !in NewRun(a, l, offs, res, t, es).idxs
  {
    var u: Slot :| u.PhiIn? && u.p in l.phis && u.pred in l.phis[u.p] && !Replaced(l, u);
    p := u.p;
    es := [];
    if u in l.uses {
      es := Computable(a, l, s, l.uses[u]);
    }
    var e := Enter({p}, u.pred);
    assert PhiIn(p, u.pred) == u;
    RunSnoc(a, l, s, es, e);
    NewRunSnoc(a, l, offs, res, t, es, e);
    es := es + [e];
  }

  // The rewritten loop follows the original on every run exactly when every operand of its phis is replaced.
  lemma TracksIffReplaced(a: Around, l: Loop, offs: map<Slot, Index>, res: map<Slot, Index>, vars: nat -> int)
    requires Rewritten(a, l, offs, res)
    ensures var s, t := State(vars, map[], map[]), NewState(vars, map[], map[]);
      (forall es :: EnabledRun(a, l, s, es) ==>
        Tracks(Base(a), DerivedValues(l), Run(a, l, s, es), NewRun(a, l, offs, res, t, es))) <==> AllReplaced(l)
  {
    var s, t := State(vars, map[], map[]), NewState(vars, map[], map[]);
    if AllReplaced(l) {
      forall es | EnabledRun(a, l, s, es)
        ensures Tracks(Base(a), DerivedValues(l), Run(a, l, s, es), NewRun(a, l, offs, res, t, es))
      {
        RunTracks(a, l, offs, res, s, t, es);
      }
    } else {
      var es, p := UnreplacedIsUndefined(a, l, offs, res, s, t);
      assert p in DerivedValues(l);
    }
  }

  // v is computed from a replaced phi or from the common address.
  ghost predicate Anchored(a: Around, l: Loop, v: nat)
    requires WellFormed(l) && Ordered(a.ext)
    decreases if v in l.phis then 0 else v + 1
  {
    v in l.phis ||
    (v in l.steps &&
     if GepPtr(v) in l.outside then a.common in ChainOf(a.ext, l.outside[GepPtr(v)])
     else (l.uses[GepPtr(v)] in l.phis || l.uses[GepPtr(v)] in l.steps) && Anchored(a, l, l.uses[GepPtr(v)]))
  }

  ghost predicate AnchoredAt(a: Around, l: Loop, u: Slot)
    requires WellFormed(l) && Ordered(a.ext) && (u in l.outside || u in l.uses)
  {
    if u in l.outside then a.common in ChainOf(a.ext, l.outside[u]) else Anchored(a, l, l.uses[u])
  }

  lemma {:induction false} DerivedIsAnchored(a: Around, l: Loop, v: nat)
    requires WellFormed(l) && Ordered(a.ext) && Derived(l, v)
    ensures Anchored(a, l, v)
    decreases if v in l.phis then 0 else v + 1
  {
    if v !in l.phis {
      DerivedIsAnchored(a, l, l.uses[GepPtr(v)]);
    }
  }

  // The address computations that are.
  ghost function AnchoredSteps(a: Around, l: Loop): (d: set<nat>)
    requires WellFormed(l) && Ordered(a.ext)
    ensures forall v :: v in d <==> v in l.steps && Anchored(a, l, v)
  {
    set v | v in l.steps.Keys && Anchored(a, l, v)
  }

  // What the rewritten loop has for the distance of an address computation is its distance from the end, which is the
  // base if it is computed from there.
  ghost predicate Measures(steps: set<nat>, anchored: set<nat>, base: int, ptrs: map<nat, int>, ends: map<nat, int>,
                           dists: map<nat, int>) {
    ends.Keys == dists.Keys && ends.Keys == steps * ptrs.Keys &&
    (forall v :: v in ends ==> dists[v] == Signed(ptrs[v] - ends[v], WORD)) &&
    (forall v :: v in ends && v in anchored ==> ends[v] == base)
  }

  ghost predicate Measured(a: Around, l: Loop, s: State, t: NewState)
    requires WellFormed(l) && Ordered(a.ext)
  {
    Measures(l.steps.Keys, AnchoredSteps(a, l), Base(a), s.ptrs, s.ends, t.dists)
  }

  // So it is for every operand.
  lemma DistIsDistance(a: Around, l: Loop, s: State, t: NewState, d: set<nat>, u: Slot)
    requires WellFormed(l) && Ordered(a.ext) && l.phis.Keys <= d && Tracks(Base(a), d, s, t) && Measured(a, l, s, t)
    requires Available(l, s, u)
    ensures DistAt(a, l, t, u) == Signed(PtrAt(a, l, s, u) - EndAt(a, l, s, u), WORD)
    ensures AnchoredAt(a, l, u) ==> EndAt(a, l, s, u) == Base(a)
  {
    SignedExact(0, WORD);
    if u in l.outside {
      OffsetIsDistance(a.ext, l.outside[u], a.common, Const(0), a.root, a.vars);
      EndIsCommon(a.ext, l.outside[u], a.common);
    }
  }

  lemma MeasuresNext(steps: set<nat>, anchored: set<nat>, base: int, ptrs: map<nat, int>, ends: map<nat, int>,
                     dists: map<nat, int>, g: nat, x: int, end: int, dist: int)
    requires Measures(steps, anchored, base, ptrs, ends, dists) && g in steps && (g in anchored ==> end == base)
    requires dist == Signed(x - end, WORD)
    ensures Measures(steps, anchored, base, ptrs[g := x], ends[g := end], dists[g := dist])
  {
  }

  // Other values than address computations may change.
  lemma MeasuresStay(steps: set<nat>, anchored: set<nat>, base: int, ptrs: map<nat, int>, ends: map<nat, int>,
                     dists: map<nat, int>, ptrs': map<nat, int>)
    requires Measures(steps, anchored, base, ptrs, ends, dists) && steps * ptrs'.Keys == steps * ptrs.Keys
    requires forall v :: v in steps && v in ptrs ==> v in ptrs' && ptrs'[v] == ptrs[v]
    ensures Measures(steps, anchored, base, ptrs', ends, dists)
  {
    forall v | v in ends ensures dists[v] == Signed(ptrs'[v] - ends[v], WORD) {
      assert v in steps * ptrs.Keys;
    }
  }

  // The distance after an address computation.
  lemma ExecDistance(a: Around, l: Loop, s: State, t: NewState, d: set<nat>, g: nat, x: int)
    returns (end: int, dist: int)
    requires WellFormed(l) && Ordered(a.ext) && g in l.steps && Available(l, s, GepPtr(g))
    requires l.phis.Keys <= d && Tracks(Base(a), d, s, t) && Measured(a, l, s, t)
    requires x == PtrAt(a, l, s, GepPtr(g)) + Eval(l.steps[g], s.vars, map[])
    ensures end == EndAt(a, l, s, GepPtr(g)) && (g in AnchoredSteps(a, l) ==> end == Base(a))
    ensures dist == NewDist(a, l, t, g) == Signed(x - end, WORD)
  {
    var u := GepPtr(g);
    DistIsDistance(a, l, s, t, d, u);
    var was, step := DistAt(a, l, t, u), Eval(l.steps[g], s.vars, map[]);
    end := EndAt(a, l, s, u);
    AddStep(PtrAt(a, l, s, u), end, step, was, x);
    NewDistIs(a, l, t, g, was, step);
    dist := Signed(was + step, WORD);
    AnchoredStep(a, l, g);
  }

  lemma NewDistIs(a: Around, l: Loop, t: NewState, g: nat, dist: int, step: int)
    requires Ordered(a.ext) && g in l.steps && (GepPtr(g) in l.outside || GepPtr(g) in l.uses)
    requires dist == DistAt(a, l, t, GepPtr(g)) && step == Eval(l.steps[g], t.vars, map[])
    ensures NewDist(a, l, t, g) == Signed(dist + step, WORD)
  {
  }

  lemma AddStep(p: int, end: int, step: int, dist: int, x: int)
    requires dist == Signed(p - end, WORD) && x == p + step
    ensures Signed(dist + step, WORD) == Signed(x - end, WORD)
  {
    SignedSum(p - end, step, WORD);
    assert p - end + step == x - end;
  }

  lemma AnchoredStep(a: Around, l: Loop, g: nat)
    requires WellFormed(l) && Ordered(a.ext) && g in l.steps
    ensures (GepPtr(g) in l.outside || GepPtr(g) in l.uses) && (Anchored(a, l, g) ==> AnchoredAt(a, l, GepPtr(g)))
  {
  }

  // What executing an address computation does to what is measured.
  lemma ExecFields(a: Around, l: Loop, offs: map<Slot, Index>, res: map<Slot, Index>, s: State, t: NewState, g: nat,
                   x: int, end: int, dist: int)
    requires Ordered(a.ext) && Enabled(l, s, Exec(g))
    requires x == PtrAt(a, l, s, GepPtr(g)) + Eval(l.steps[g], s.vars, map[])
    requires end == EndAt(a, l, s, GepPtr(g)) && dist == NewDist(a, l, t, g)
    ensures Step(a, l, s, Exec(g)).ptrs == s.ptrs[g := x] && Step(a, l, s, Exec(g)).ends == s.ends[g := end]
    ensures NewStep(a, l, offs, res, t, Exec(g)).dists == t.dists[g := dist]
  {
  }

  lemma ExecMeasures(a: Around, l: Loop, offs: map<Slot, Index>, res: map<Slot, Index>, s: State, t: NewState,
                     d: set<nat>, g: nat)
    requires WellFormed(l) && Ordered(a.ext) && Enabled(l, s, Exec(g))
    requires l.phis.Keys <= d && Tracks(Base(a), d, s, t) && Measured(a, l, s, t)
    ensures Measured(a, l, Step(a, l, s, Exec(g)), NewStep(a, l, offs, res, t, Exec(g)))
  {
    var x := PtrAt(a, l, s, GepPtr(g)) + Eval(l.steps[g], s.vars, map[]);
    var end, dist := ExecDistance(a, l, s, t, d, g, x);
    ExecFields(a, l, offs, res, s, t, g, x, end, dist);
    MeasuresNext(l.steps.Keys, AnchoredSteps(a, l), Base(a), s.ptrs, s.ends, t.dists, g, x, end, dist);
  }

  lemma StepMeasures(a: Around, l: Loop, offs: map<Slot, Index>, res: map<Slot, Index>, s: State, t: NewState,
                     d: set<nat>, e: Event)
    requires WellFormed(l) && Ordered(a.ext) && Enabled(l, s, e)
    requires l.phis.Keys <= d && Tracks(Base(a), d, s, t) && Measured(a, l, s, t)
    ensures Measured(a, l, Step(a, l, s, e), NewStep(a, l, offs, res, t, e))
  {
    if e.Exec? {
      ExecMeasures(a, l, offs, res, s, t, d, e.g);
    } else {
      MeasuresStay(l.steps.Keys, AnchoredSteps(a, l), Base(a), s.ptrs, s.ends, t.dists, Step(a, l, s, e).ptrs);
    }
  }

  // On every run of the loop, too.
  lemma {:induction false} RunMeasures(a: Around, l: Loop, offs: map<Slot, Index>, res: map<Slot, Index>, s: State,
                                       t: NewState, es: seq<Event>)
    requires Rewritten(a, l, offs, res) && AllReplaced(l) && EnabledRun(a, l, s, es)
    requires Tracks(Base(a), DerivedValues(l), s, t) && Measured(a, l, s, t)
    ensures Measured(a, l, Run(a, l, s, es), NewRun(a, l, offs, res, t, es))
    decreases |es|
  {
    if es != [] {
      StepTracks(a, l, offs, res, s, t, es[0]);
      StepMeasures(a, l, offs, res, s, t, DerivedValues(l), es[0]);
      RunMeasures(a, l, offs, res, Step(a, l, s, es[0]), NewStep(a, l, offs, res, t, es[0]), es[1..]);
    }
  }

  datatype Order = Equal | Below

  predicate Holds(o: Order, x: int, y: int) {
    if o.Equal? then x == y else x < y
  }

  // Indices are compared as unsigned words.
  predicate HoldsOnIndices(o: Order, x: int, y: int) {
    if o.Equal? then x == y else x % WORD < y % WORD
  }

  lemma WordOrder(x: int, y: int)
    requires FitsSigned(x, WORD) && FitsSigned(y, WORD)
    ensures x % WORD < y % WORD <==> if x < 0 <==> y < 0 then x < y else y < x
  {
    UniqueRemainder(x, if x < 0 then -1 else 0, if x < 0 then x + WORD else x, WORD);
    UniqueRemainder(y, if y < 0 then -1 else 0, if y < 0 then y + WORD else y, WORD);
  }

  // What the comparison of the offsets i and j of two pointers x and y from e and f says: equality is that of the
  // distances modulo the word, and so is the order.
  ghost predicate ComparesWords(x: int, e: int, y: int, f: int, i: int, j: int) {
    (HoldsOnIndices(Equal, i, j) <==> ((x - e) - (y - f)) % WORD == 0) &&
    (HoldsOnIndices(Below, i, j) <==> (x - e) % WORD < (y - f) % WORD)
  }

  // Here x is the rewritten operand, which the new comparison takes first whichever operand it was. With distances
  // from one base in 32 bits it agrees with the original for equality; for the order exactly when the pointers are on
  // the same side of the base and the rewritten operand was the first one, or on different sides and it was the
  // second, or are equal.
  ghost predicate AgreesWhenSided(base: int, x: int, y: int, i: int, j: int, first: bool) {
    FitsSigned(x - base, WORD) && FitsSigned(y - base, WORD) ==>
      (HoldsOnIndices(Equal, i, j) <==> Holds(Equal, x, y)) &&
      ((HoldsOnIndices(Below, i, j) <==> if first then Holds(Below, x, y) else Holds(Below, y, x)) <==>
       x == y || (first <==> (x < base <==> y < base)))
  }

  lemma WordsCompare(x: int, e: int, y: int, f: int)
    ensures ComparesWords(x, e, y, f, Signed(x - e, WORD), Signed(y - f, WORD))
  {
    SignedEqual(x - e, y - f, WORD);
    SignedEqual(y - f, x - e, WORD);
  }

  lemma IndicesAgree(base: int, x: int, y: int, first: bool)
    ensures AgreesWhenSided(base, x, y, Signed(x - base, WORD), Signed(y - base, WORD), first)
  {
    SignedExact(x - base, WORD);
    SignedExact(y - base, WORD);
    SignedRemainder(x - base, WORD);
    SignedRemainder(y - base, WORD);
    if FitsSigned(x - base, WORD) && FitsSigned(y - base, WORD) {
      WordOrder(x - base, y - base);
    }
  }

  // The rewritten operand has its index; the other one is followed to where its computations end.
  lemma ComparisonAgrees(a: Around, l: Loop, offs: map<Slot, Index>, res: map<Slot, Index>, s: State, t: NewState,
                         c: nat, first: bool)
    requires Rewritten(a, l, offs, res) && Tracks(Base(a), DerivedValues(l), s, t) && Measured(a, l, s, t)
    requires Available(l, s, CmpArg(c, first)) && Available(l, s, CmpArg(c, !first))
    requires CmpArg(c, first) in l.uses && Derived(l, l.uses[CmpArg(c, first)])
    ensures var u, v := CmpArg(c, first), CmpArg(c, !first);
            var i, j := IdxAt(a, offs, res, t, u), DistAt(a, l, t, v);
            var x, y := PtrAt(a, l, s, u), PtrAt(a, l, s, v);
            i.Some? && ComparesWords(x, Base(a), y, EndAt(a, l, s, v), i.value, j) &&
            (AnchoredAt(a, l, v) ==> EndAt(a, l, s, v) == Base(a) && AgreesWhenSided(Base(a), x, y, i.value, j, first))
  {
    var u, v := CmpArg(c, first), CmpArg(c, !first);
    IdxAtUse(a, l, offs, res, s, t, u);
    DistIsDistance(a, l, s, t, DerivedValues(l), v);
    OffsetsCompare(Base(a), PtrAt(a, l, s, u), PtrAt(a, l, s, v), EndAt(a, l, s, v),
                   IdxAt(a, offs, res, t, u).value, DistAt(a, l, t, v), first);
  }

  lemma OffsetsCompare(base: int, x: int, y: int, f: int, i: int, j: int, first: bool)
    requires i == Signed(x - base, WORD) && j == Signed(y - f, WORD)
    ensures ComparesWords(x, base, y, f, i, j)
    ensures f == base ==> AgreesWhenSided(base, x, y, i, j, first)
  {
    WordsCompare(x, base, y, f);
    IndicesAgree(base, x, y, first);
  }

  // The externals that were found.
  method Externals(l: Loop) returns (externals: seq<nat>)
    requires WellFormed(l)
    ensures forall u :: u in l.found ==> l.outside[u] in externals
    ensures forall x :: x in externals ==> exists u :: u in l.found && l.outside[u] == x
  {
    externals := [];
    var left := l.found;
    while left != {}
      invariant left <= l.found
      invariant forall u :: u in l.found && u !in left ==> l.outside[u] in externals
      invariant forall x :: x in externals ==> exists u :: u in l.found && l.outside[u] == x
    {
      var u :| u in left;
      externals := externals + [l.outside[u]];
      left := left - {u};
    }
  }

  // Every external of the loop is computed from c.
  ghost predicate SharedByAll(ext: Outside, l: Loop, c: nat)
    requires Ordered(ext) && WellFormed(l)
  {
    forall u :: u in l.found ==> c in ChainOf(ext, l.outside[u])
  }

  // The rewriting of a loop: it is done exactly when the externals, at least one, are computed from one address.
  method RewriteLoop(ext: Outside, l: Loop)
    returns (common: Option<nat>, offs: map<Slot, Index>, res: map<Slot, Index>)
    requires Ordered(ext) && WellFormed(l)
    ensures common.Some? <==> l.found != {} && exists c: nat :: SharedByAll(ext, l, c)
    ensures common.Some? ==> Rewriting(ext, common.value, l, offs, res)
    ensures common.Some? ==> forall c: nat :: SharedByAll(ext, l, c) ==> c in ChainOf(ext, common.value)
  {
    var externals := Externals(l);
    offs, res := map[], map[];
    common := CommonExternal(ext, externals);
    assert externals != [] ==> externals[0] in externals;
    assert externals != [] <==> l.found != {};
    forall c: nat ensures Shared(ext, externals, c) <==> SharedByAll(ext, l, c) {
      SharedIsSharedByAll(ext, l, externals, c);
    }
    if common.Some? {
      offs := ExternalOffsets(ext, l, common.value);
      res := RewriteUses(l);
    }
  }

  lemma SharedIsSharedByAll(ext: Outside, l: Loop, externals: seq<nat>, c: nat)
    requires Ordered(ext) && WellFormed(l)
    requires forall u :: u in l.found ==> l.outside[u] in externals
    requires forall x :: x in externals ==> exists u :: u in l.found && l.outside[u] == x
    ensures Shared(ext, externals, c) <==> SharedByAll(ext, l, c)
  {
    if SharedByAll(ext, l, c) {
      forall i | 0 <= i < |externals| ensures c in ChainOf(ext, externals[i]) {
        assert externals[i] in externals;
      }
    }
    if Shared(ext, externals, c) {
      forall u | u in l.found ensures c in ChainOf(ext, l.outside[u]) {
        var i :| 0 <= i < |externals| && externals[i] == l.outside[u];
      }
    }
  }
}
