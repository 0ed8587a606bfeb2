// get_reachables_and_externals: which uses a candidate phi reaches, and which operands from outside that finds.
module PtrReach {
  import opened Wrappers
  import opened Collections
  import opened PtrIterator
  import opened PtrLoop

  // An operand: whether it comes from outside the loop, and whether it is one that the search accepts, which are phis
  // and address computations, and from outside also arguments and globals.
  datatype Operand = Operand(v: nat, outer: bool, good: bool)

  datatype Gep = Gep(ptr: Operand, inside: bool, single: bool, step: Index)
  datatype Phi = Phi(ins: map<nat, Operand>, order: seq<nat>, inside: bool)
  datatype Code = Code(geps: map<nat, Gep>, phis: map<nat, Phi>, cmps: map<nat, (Operand, Operand)>)

  function Slots(c: Code): (s: set<Slot>) {
    (set g | g in c.geps :: GepPtr(g)) +
    (set p, pred | p in c.phis && pred in c.phis[p].ins :: PhiIn(p, pred)) +
    (set k, first | k in c.cmps && first in {true, false} :: CmpArg(k, first))
  }

  function OperandAt(c: Code, u: Slot): Operand
    requires u in Slots(c)
  {
    match u
    case GepPtr(g) => c.geps[g].ptr
    case PhiIn(p, pred) => c.phis[p].ins[pred]
    case CmpArg(k, first) => if first then c.cmps[k].0 else c.cmps[k].1
  }

  // The computations of the loop have single indices and earlier operands; a value of the loop is accepted if it is a
  // phi or an address computation.
  ghost predicate Sound(c: Code) {
    (forall g :: g in c.geps ==> g !in c.phis && (c.geps[g].step.Const? || c.geps[g].step.Var?)) &&
    (forall g :: g in c.geps && c.geps[g].inside && c.geps[g].ptr.v in c.geps && !c.geps[g].ptr.outer ==>
      c.geps[g].ptr.v < g) &&
    (forall p :: p in c.phis ==>
      Distinct(c.phis[p].order) && forall pred :: pred in c.phis[p].order <==> pred in c.phis[p].ins) &&
    (forall u :: u in Slots(c) && !OperandAt(c, u).outer ==>
      (OperandAt(c, u).good <==> OperandAt(c, u).v in c.geps || OperandAt(c, u).v in c.phis))
  }

  function UsesOf(c: Code, v: nat): (s: set<Slot>)
    ensures s <= Slots(c)
  {
    set u | u in Slots(c) && OperandAt(c, u).v == v && !OperandAt(c, u).outer
  }

  // The operands that are looked at when the use u is reached.
  function Scanned(c: Code, u: Slot): (ops: seq<Slot>)
    requires Sound(c) && u in Slots(c)
    ensures forall i :: 0 <= i < |ops| ==> ops[i] in Slots(c)
  {
    match u
    case GepPtr(_) => []
    case PhiIn(p, _) =>
      var order := c.phis[p].order;
      assert forall i :: 0 <= i < |order| ==> order[i] in c.phis[p].ins;
      Map((pred: nat) => PhiIn(p, pred), order)
    case CmpArg(k, _) => [CmpArg(k, true), CmpArg(k, false)]
  }

  ghost predicate AllGood(c: Code, ops: seq<Slot>)
    requires forall i :: 0 <= i < |ops| ==> ops[i] in Slots(c)
  {
    forall i :: 0 <= i < |ops| ==> OperandAt(c, ops[i]).good
  }

  // The externals among them; the search stops at an operand that it does not accept.
  ghost function FoundIn(c: Code, ops: seq<Slot>): set<Slot>
    requires forall i :: 0 <= i < |ops| ==> ops[i] in Slots(c)
  {
    if ops == [] then {}
    else
      var rest := if OperandAt(c, ops[0]).good then FoundIn(c, ops[1..]) else {};
      (if OperandAt(c, ops[0]).outer then {ops[0]} else {}) + rest
  }

  lemma {:induction false} FoundAreOuter(c: Code, ops: seq<Slot>, u: Slot)
    requires (forall i :: 0 <= i < |ops| ==> ops[i] in Slots(c)) && u in FoundIn(c, ops)
    ensures u in ops && u in Slots(c) && OperandAt(c, u).outer
  {
    if u != ops[0] || !OperandAt(c, u).outer {
      FoundAreOuter(c, ops[1..], u);
    }
  }

  lemma {:induction false} AcceptedAreFound(c: Code, ops: seq<Slot>, i: nat)
    requires i < |ops| && (forall j :: 0 <= j < |ops| ==> ops[j] in Slots(c)) && AllGood(c, ops)
    requires OperandAt(c, ops[i]).outer
    ensures ops[i] in FoundIn(c, ops)
  {
    if i > 0 {
      AcceptedAreFound(c, ops[1..], i - 1);
    }
  }

  lemma FoundStep(c: Code, ops: seq<Slot>, i: nat)
    requires i < |ops| && forall j :: 0 <= j < |ops| ==> ops[j] in Slots(c)
    ensures FoundIn(c, ops[i..]) ==
      (if OperandAt(c, ops[i]).outer then {ops[i]} else {}) +
      (if OperandAt(c, ops[i]).good then FoundIn(c, ops[i + 1..]) else {})
  {
    assert ops[i..][1..] == ops[i + 1..];
  }

  method ScanOperands(c: Code, ops: seq<Slot>, found0: set<Slot>) returns (found: set<Slot>, good: bool)
    requires forall i :: 0 <= i < |ops| ==> ops[i] in Slots(c)
    ensures found == found0 + FoundIn(c, ops) && good == AllGood(c, ops)
  {
    found, good := found0, true;
    assert ops[0..] == ops;
    for i := 0 to |ops|
      invariant good && found + FoundIn(c, ops[i..]) == found0 + FoundIn(c, ops)
      invariant forall j :: 0 <= j < i ==> OperandAt(c, ops[j]).good
    {
      FoundStep(c, ops, i);
      if OperandAt(c, ops[i]).outer {
        found := found + {ops[i]};
      }
      if !OperandAt(c, ops[i]).good {
        return found, false;
      }
    }
  }

  // The uses that the search goes on to.
  ghost function Next(c: Code, u: Slot): (s: set<Slot>)
    requires Sound(c) && u in Slots(c)
    ensures s <= Slots(c)
  {
    match u
    case GepPtr(g) => if c.geps[g].inside && c.geps[g].single then UsesOf(c, g) else {}
    case PhiIn(p, _) => if c.phis[p].inside && AllGood(c, Scanned(c, u)) then UsesOf(c, p) else {}
    case CmpArg(_, _) => {}
  }

  // The answer at the use u; it counts for uses of the candidate only.
  ghost predicate Accepted(c: Code, u: Slot)
    requires Sound(c) && u in Slots(c)
  {
    if u.GepPtr? then c.geps[u.g].inside else AllGood(c, Scanned(c, u))
  }

  ghost predicate Closed(c: Code, s: set<Slot>)
    requires Sound(c)
  {
    s <= Slots(c) && forall u :: u in s ==> Next(c, u) <= s
  }

  // Every closed set with the uses from has u.
  ghost predicate ReachedFrom(c: Code, from: set<Slot>, u: Slot)
    requires Sound(c)
  {
    forall s: set<Slot> :: Closed(c, s) && from <= s ==> u in s
  }

  // All externals that are found at the uses in reach.
  ghost function FoundAt(c: Code, reach: set<Slot>): set<Slot>
    requires Sound(c)
  {
    set e, u | u in reach && u in Slots(c) && e in FoundIn(c, Scanned(c, u)) :: e
  }

  lemma FoundAtOne(c: Code, reach: set<Slot>, u: Slot)
    requires Sound(c) && u in Slots(c)
    ensures FoundAt(c, reach + {u}) == FoundAt(c, reach) + FoundIn(c, Scanned(c, u))
  {
  }

  // The state of the search between two uses: those that were reached but are not in doing have been finished.
  ghost predicate Searching(c: Code, reach: set<Slot>, found: set<Slot>, doing: set<Slot>)
    requires Sound(c)
  {
    reach <= Slots(c) && found == FoundAt(c, reach) && forall u :: u in reach && u !in doing ==> Next(c, u) <= reach
  }

  ghost predicate Grows(c: Code, reach0: set<Slot>, from: set<Slot>, reach: set<Slot>)
    requires Sound(c)
  {
    reach0 <= reach && from <= reach && forall s: set<Slot> :: Closed(c, s) && reach0 <= s && from <= s ==> reach <= s
  }

  // One use, and all that is reached from it.
  method Visit(c: Code, u: Slot, reach0: set<Slot>, found0: set<Slot>, ghost doing: set<Slot>)
    returns (reach: set<Slot>, found: set<Slot>, ok: bool)
    requires Sound(c) && u in Slots(c) && Searching(c, reach0, found0, doing)
    ensures Searching(c, reach, found, doing) && Grows(c, reach0, {u}, reach)
    ensures ok <==> u in reach0 || Accepted(c, u)
    decreases Slots(c) - reach0, 1
  {
    reach, found, ok := reach0, found0, true;
    if u in reach {
      return;
    }
    FoundAtOne(c, reach, u);
    reach := reach + {u};
    found, ok := ScanOperands(c, Scanned(c, u), found);
    if u.GepPtr? {
      ok := c.geps[u.g].inside;
      if ok && c.geps[u.g].single {
        reach, found := VisitAll(c, UsesOf(c, u.g), reach, found, doing + {u});
      }
    } else if u.PhiIn? && ok && c.phis[u.p].inside {
      reach, found := VisitAll(c, UsesOf(c, u.p), reach, found, doing + {u});
    }
  }

  method VisitAll(c: Code, uses: set<Slot>, reach0: set<Slot>, found0: set<Slot>, ghost doing: set<Slot>)
    returns (reach: set<Slot>, found: set<Slot>)
    requires Sound(c) && uses <= Slots(c) && Searching(c, reach0, found0, doing)
    ensures Searching(c, reach, found, doing) && Grows(c, reach0, uses, reach)
    decreases Slots(c) - reach0, 2, uses
  {
    reach, found := reach0, found0;
    var left := uses;
    while left != {}
      invariant left <= uses && Searching(c, reach, found, doing) && Grows(c, reach0, uses - left, reach)
    {
      var u :| u in left;
      var ok;
      reach, found, ok := Visit(c, u, reach, found, doing);
      left := left - {u};
    }
  }

  // The search on the instructions of the loop. The operand w is the value v of the loop.
  ghost predicate Takes(c: Code, w: Slot, v: nat) {
    match w
    case GepPtr(g) => g in c.geps && c.geps[g].ptr.v == v && !c.geps[g].ptr.outer
    case PhiIn(p, pred) =>
      p in c.phis && pred in c.phis[p].ins && c.phis[p].ins[pred].v == v && !c.phis[p].ins[pred].outer
    case CmpArg(k, first) =>
      k in c.cmps && var o := if first then c.cmps[k].0 else c.cmps[k].1; o.v == v && !o.outer
  }

  // From a use in an address computation of the loop with a single index, and in a phi of the loop with accepted
  // operands only, the search goes on to the uses of the result.
  ghost predicate LeadsOn(c: Code, u: Slot, w: Slot) {
    match u
    case GepPtr(g) => g in c.geps && c.geps[g].inside && c.geps[g].single && Takes(c, w, g)
    case PhiIn(p, _) =>
      p in c.phis && c.phis[p].inside && (forall pred :: pred in c.phis[p].ins ==> c.phis[p].ins[pred].good) &&
      Takes(c, w, p)
    case CmpArg(_, _) => false
  }

  // A chain of uses from one of the candidate.
  ghost predicate Trail(c: Code, candidate: nat, q: seq<Slot>) {
    q != [] && Takes(c, q[0], candidate) && forall i :: 0 <= i < |q| - 1 ==> LeadsOn(c, q[i], q[i + 1])
  }

  ghost predicate HasTrail(c: Code, candidate: nat, u: Slot) {
    exists q :: Trail(c, candidate, q) && q[|q| - 1] == u
  }

  lemma TakesIsUse(c: Code, w: Slot, v: nat)
    ensures w in UsesOf(c, v) <==> Takes(c, w, v)
  {
  }

  lemma GoodOperands(c: Code, p: nat, pred: nat)
    requires Sound(c) && PhiIn(p, pred) in Slots(c)
    ensures AllGood(c, Scanned(c, PhiIn(p, pred))) <==>
      forall pred :: pred in c.phis[p].ins ==> c.phis[p].ins[pred].good
  {
    var order, ops := c.phis[p].order, Scanned(c, PhiIn(p, pred));
    assert |ops| == |order| && forall i :: 0 <= i < |order| ==> ops[i] == PhiIn(p, order[i]);
    if AllGood(c, ops) {
      forall x | x in c.phis[p].ins ensures c.phis[p].ins[x].good {
        var i :| 0 <= i < |order| && order[i] == x;
        assert OperandAt(c, ops[i]).good;
      }
    }
  }

  lemma NextIs(c: Code, u: Slot, w: Slot)
    requires Sound(c) && u in Slots(c)
    ensures w in Next(c, u) <==> LeadsOn(c, u, w)
  {
    match u
    case GepPtr(g) => TakesIsUse(c, w, g);
    case PhiIn(p, pred) =>
      GoodOperands(c, p, pred);
      TakesIsUse(c, w, p);
    case CmpArg(_, _) =>
  }

  lemma {:induction false} TrailReaches(c: Code, candidate: nat, q: seq<Slot>, s: set<Slot>, i: nat)
    requires Sound(c) && Trail(c, candidate, q) && Closed(c, s) && UsesOf(c, candidate) <= s && i < |q|
    ensures q[i] in s
    decreases i
  {
    if i == 0 {
      TakesIsUse(c, q[0], candidate);
    } else {
      var j := i - 1;
      TrailReaches(c, candidate, q, s, j);
      assert LeadsOn(c, q[j], q[j + 1]);
      NextIs(c, q[j], q[i]);
    }
  }

  lemma TrailOn(c: Code, candidate: nat, u: Slot, w: Slot)
    requires HasTrail(c, candidate, u) && LeadsOn(c, u, w)
    ensures HasTrail(c, candidate, w)
  {
    var q :| Trail(c, candidate, q) && q[|q| - 1] == u;
    assert Trail(c, candidate, q + [w]);
  }

  // What the search reaches is what such a chain leads to.
  lemma ReachedByTrail(c: Code, candidate: nat, u: Slot)
    requires Sound(c)
    ensures u in Slots(c) && ReachedFrom(c, UsesOf(c, candidate), u) <==> HasTrail(c, candidate, u)
  {
    if HasTrail(c, candidate, u) {
      var q :| Trail(c, candidate, q) && q[|q| - 1] == u;
      forall s: set<Slot> | Closed(c, s) && UsesOf(c, candidate) <= s ensures u in s {
        TrailReaches(c, candidate, q, s, |q| - 1);
      }
      TrailReaches(c, candidate, q, Slots(c), |q| - 1);
    }
    if u in Slots(c) && ReachedFrom(c, UsesOf(c, candidate), u) {
      var s := set x | x in Slots(c) && HasTrail(c, candidate, x);
      TrailsClosed(c, candidate, s);
    }
  }

  lemma TrailsClosed(c: Code, candidate: nat, s: set<Slot>)
    requires Sound(c) && s == set x | x in Slots(c) && HasTrail(c, candidate, x)
    ensures Closed(c, s) && UsesOf(c, candidate) <= s
  {
    forall x | x in s ensures Next(c, x) <= s {
      forall w | w in Next(c, x) ensures w in s {
        NextIs(c, x, w);
        TrailOn(c, candidate, x, w);
      }
    }
    forall w | w in UsesOf(c, candidate) ensures w in s {
      TakesIsUse(c, w, candidate);
      assert Trail(c, candidate, [w]) && [w][|[w]| - 1] == w;
    }
  }

  // At the use u the operand e is looked at: all operands before it were accepted.
  ghost predicate LooksAt(c: Code, u: Slot, e: Slot) {
    match u
    case GepPtr(_) => false
    case PhiIn(p, _) => p in c.phis && exists i :: 0 <= i < |c.phis[p].order| && LooksAtIn(c, p, i, e)
    case CmpArg(k, _) => k in c.cmps && (e == CmpArg(k, true) || (e == CmpArg(k, false) && c.cmps[k].0.good))
  }

  ghost predicate LooksAtIn(c: Code, p: nat, i: int, e: Slot)
    requires p in c.phis && 0 <= i < |c.phis[p].order|
  {
    var ins, order := c.phis[p].ins, c.phis[p].order;
    e == PhiIn(p, order[i]) && forall j :: 0 <= j < i ==> order[j] in ins && ins[order[j]].good
  }

  ghost predicate LooksAtPosition(c: Code, ops: seq<Slot>, i: int, e: Slot)
    requires (forall j :: 0 <= j < |ops| ==> ops[j] in Slots(c)) && 0 <= i < |ops|
  {
    ops[i] == e && OperandAt(c, e).outer && forall j :: 0 <= j < i ==> OperandAt(c, ops[j]).good
  }

  lemma {:induction false} FoundInIs(c: Code, ops: seq<Slot>, e: Slot)
    requires forall i :: 0 <= i < |ops| ==> ops[i] in Slots(c)
    ensures e in FoundIn(c, ops) <==> exists i :: 0 <= i < |ops| && LooksAtPosition(c, ops, i, e)
  {
    if ops != [] {
      var rest := ops[1..];
      FoundInIs(c, rest, e);
      if i :| 0 <= i < |rest| && LooksAtPosition(c, rest, i, e) && OperandAt(c, ops[0]).good {
        forall j | 0 <= j < i + 1 ensures OperandAt(c, ops[j]).good {
          assert j > 0 ==> ops[j] == rest[j - 1];
        }
        assert LooksAtPosition(c, ops, i + 1, e);
      }
      if i :| 0 <= i < |ops| && LooksAtPosition(c, ops, i, e) {
        if i > 0 {
          forall j | 0 <= j < i - 1 ensures OperandAt(c, rest[j]).good {
            assert rest[j] == ops[j + 1];
          }
          assert LooksAtPosition(c, rest, i - 1, e);
        } else {
          assert LooksAtPosition(c, ops, 0, e);
        }
      }
      assert OperandAt(c, ops[0]).outer && ops[0] == e ==> LooksAtPosition(c, ops, 0, e);
    }
  }

  lemma PhiPositions(c: Code, u: Slot, e: Slot)
    requires Sound(c) && u in Slots(c) && u.PhiIn?
    ensures var ops := Scanned(c, u);
      (exists i :: 0 <= i < |ops| && LooksAtPosition(c, ops, i, e)) <==>
      LooksAt(c, u, e) && e in Slots(c) && OperandAt(c, e).outer
  {
    var p, ops := u.p, Scanned(c, u);
    var order := c.phis[p].order;
    assert |ops| == |order| && forall i :: 0 <= i < |order| ==> ops[i] == PhiIn(p, order[i]);
    if i :| 0 <= i < |ops| && LooksAtPosition(c, ops, i, e) {
      forall j | 0 <= j < i ensures order[j] in c.phis[p].ins && c.phis[p].ins[order[j]].good {
        assert OperandAt(c, ops[j]).good;
      }
      assert LooksAtIn(c, p, i, e);
    }
    if LooksAt(c, u, e) && e in Slots(c) && OperandAt(c, e).outer {
      var i :| 0 <= i < |order| && LooksAtIn(c, p, i, e);
      assert LooksAtPosition(c, ops, i, e);
    }
  }

  // The externals that are found: operands from outside that are looked at.
  lemma FoundIs(c: Code, u: Slot, e: Slot)
    requires Sound(c) && u in Slots(c)
    ensures e in FoundIn(c, Scanned(c, u)) <==> LooksAt(c, u, e) && e in Slots(c) && OperandAt(c, e).outer
  {
    var ops := Scanned(c, u);
    FoundInIs(c, ops, e);
    match u
    case GepPtr(_) =>
    case PhiIn(p, _) => PhiPositions(c, u, e);
    case CmpArg(k, _) =>
      assert ops[0] == CmpArg(k, true) && ops[1] == CmpArg(k, false);
      assert LooksAtPosition(c, ops, 0, e) <==> e == ops[0] && OperandAt(c, e).outer;
      assert LooksAtPosition(c, ops, 1, e) <==> e == ops[1] && OperandAt(c, e).outer && OperandAt(c, ops[0]).good;
  }

  // An external that is looked at at a use in reach.
  ghost predicate Discovered(c: Code, reach: set<Slot>, e: Slot) {
    e in Slots(c) && OperandAt(c, e).outer && exists u :: u in reach && LooksAt(c, u, e)
  }

  lemma FoundAtIs(c: Code, reach: set<Slot>, e: Slot)
    requires Sound(c) && reach <= Slots(c)
    ensures e in FoundAt(c, reach) <==> Discovered(c, reach, e)
  {
    if e in FoundAt(c, reach) {
      var u :| u in reach && u in Slots(c) && e in FoundIn(c, Scanned(c, u));
      FoundIs(c, u, e);
    }
    if Discovered(c, reach, e) {
      var u :| u in reach && LooksAt(c, u, e);
      FoundIs(c, u, e);
    }
  }

  // A use is accepted in an address computation of the loop, in a phi or comparison with accepted operands only.
  lemma AcceptedIs(c: Code, u: Slot)
    requires Sound(c) && u in Slots(c)
    ensures Accepted(c, u) <==> match u
      case GepPtr(g) => c.geps[g].inside
      case PhiIn(p, _) => forall pred :: pred in c.phis[p].ins ==> c.phis[p].ins[pred].good
      case CmpArg(k, _) => c.cmps[k].0.good && c.cmps[k].1.good
  {
    match u
    case GepPtr(_) =>
    case PhiIn(p, pred) => GoodOperands(c, p, pred);
    case CmpArg(k, _) =>
      var ops := Scanned(c, u);
      assert ops[0] == CmpArg(k, true) && ops[1] == CmpArg(k, false);
  }

  // What the answers so far say.
  ghost predicate Answered(c: Code, uses: set<Slot>, left: set<Slot>, feasible: bool)
    requires Sound(c) && uses <= Slots(c)
  {
    if feasible then forall u :: u in uses - left && !Accepted(c, u) ==> ReachedFrom(c, uses - {u}, u)
    else exists u :: u in uses && !Accepted(c, u)
  }

  // All uses of the candidate. An answer is lost when the search has reached the use before, which depends on the order
  // of the uses: the candidate is feasible if all its uses are accepted, and not if one is not, unless that one is
  // reached from others, too.
  method Search(c: Code, candidate: nat) returns (reach: set<Slot>, found: set<Slot>, feasible: bool)
    requires Sound(c)
    ensures Closed(c, reach) && found == FoundAt(c, reach)
    ensures forall u :: u in reach <==> u in Slots(c) && ReachedFrom(c, UsesOf(c, candidate), u)
    ensures !feasible ==> exists u :: u in UsesOf(c, candidate) && !Accepted(c, u)
    ensures feasible ==> forall u :: u in UsesOf(c, candidate) && !Accepted(c, u) ==>
      ReachedFrom(c, UsesOf(c, candidate) - {u}, u)
    ensures forall u :: u in reach <==> HasTrail(c, candidate, u)
    ensures forall e :: e in found <==> Discovered(c, reach, e)
  {
    reach, found, feasible := {}, {}, true;
    var uses := UsesOf(c, candidate);
    var left := uses;
    while left != {}
      invariant left <= uses && Searching(c, reach, found, {}) && Grows(c, {}, uses - left, reach)
      invariant Answered(c, uses, left, feasible)
    {
      var u :| u in left;
      var ok;
      if u in reach {
        ReachedElsewhere(c, uses, left, reach, u);
      }
      reach, found, ok := Visit(c, u, reach, found, {});
      feasible := ok && feasible;
      left := left - {u};
    }
    assert uses - left == uses;
    ReachIsLeast(c, uses, reach, found);
    SearchExplained(c, candidate, reach, found);
  }

  lemma SearchExplained(c: Code, candidate: nat, reach: set<Slot>, found: set<Slot>)
    requires Sound(c) && reach <= Slots(c) && found == FoundAt(c, reach)
    requires forall u :: u in reach <==> u in Slots(c) && ReachedFrom(c, UsesOf(c, candidate), u)
    ensures forall u :: u in reach <==> HasTrail(c, candidate, u)
    ensures forall e :: e in found <==> Discovered(c, reach, e)
  {
    forall u ensures u in reach <==> HasTrail(c, candidate, u) {
      ReachedByTrail(c, candidate, u);
    }
    forall e ensures e in found <==> Discovered(c, reach, e) {
      FoundAtIs(c, reach, e);
    }
  }

  lemma ReachIsLeast(c: Code, uses: set<Slot>, reach: set<Slot>, found: set<Slot>)
    requires Sound(c) && Searching(c, reach, found, {}) && Grows(c, {}, uses, reach)
    ensures Closed(c, reach) && forall u :: u in reach <==> u in Slots(c) && ReachedFrom(c, uses, u)
  {
    assert Closed(c, reach);
  }

  lemma ReachedElsewhere(c: Code, uses: set<Slot>, left: set<Slot>, reach: set<Slot>, u: Slot)
    requires Sound(c) && Grows(c, {}, uses - left, reach) && u in reach && u in left
    ensures ReachedFrom(c, uses - {u}, u)
  {
    forall s: set<Slot> | Closed(c, s) && uses - {u} <= s ensures u in s {
      assert uses - left <= s;
    }
  }

  // The phis that are replaced.
  function ReachedPhis(reach: set<Slot>): set<nat> {
    set u | u in reach && u.PhiIn? :: u.p
  }

  // A slot of the loop that the rewriting may have to replace.
  predicate Concerned(c: Code, reach: set<Slot>, u: Slot) {
    match u
    case GepPtr(g) => g in c.geps && c.geps[g].inside && c.geps[g].single
    case PhiIn(p, _) => p in ReachedPhis(reach)
    case CmpArg(_, _) => true
  }

  function LoopOf(c: Code, reach: set<Slot>, found: set<Slot>): Loop {
    Loop(map p | p in c.phis && p in ReachedPhis(reach) :: c.phis[p].ins.Keys,
         map g | g in c.geps && c.geps[g].inside && c.geps[g].single :: c.geps[g].step,
         map u | u in Slots(c) && Concerned(c, reach, u) && !OperandAt(c, u).outer :: OperandAt(c, u).v,
         map u | u in Slots(c) && Concerned(c, reach, u) && OperandAt(c, u).outer :: OperandAt(c, u).v,
         found)
  }

  // The loop that is rewritten: the phis that were reached, all address computations of the loop with a single index,
  lemma LoopExplained(c: Code, reach: set<Slot>, l: Loop, p: nat, g: nat)
    requires Sound(c) && reach <= Slots(c) && l == LoopOf(c, reach, l.found)
    ensures p in l.phis <==> exists pred :: PhiIn(p, pred) in reach
    ensures p in l.phis ==> p in c.phis && l.phis[p] == c.phis[p].ins.Keys
    ensures g in l.steps <==> g in c.geps && c.geps[g].inside && c.geps[g].single
    ensures g in l.steps ==> l.steps[g] == c.geps[g].step
  {
    if p in l.phis {
      var u :| u in reach && u.PhiIn? && u.p == p;
      assert PhiIn(p, u.pred) in reach;
    }
  }

  // ... and of these and of all comparisons the operands that are values of the loop.
  lemma UsesExplained(c: Code, reach: set<Slot>, l: Loop, u: Slot, v: nat)
    requires Sound(c) && reach <= Slots(c) && l == LoopOf(c, reach, l.found)
    ensures u in l.uses && l.uses[u] == v <==>
      Takes(c, u, v) && (u.GepPtr? ==> u.g in l.steps) && (u.PhiIn? ==> u.p in l.phis)
  {
    TakesIsUse(c, u, v);
    assert u in l.uses <==> u in Slots(c) && Concerned(c, reach, u) && !OperandAt(c, u).outer;
  }

  lemma FoundConcerned(c: Code, reach: set<Slot>, e: Slot)
    requires Sound(c) && reach <= Slots(c) && e in FoundAt(c, reach)
    ensures e in Slots(c) && Concerned(c, reach, e) && OperandAt(c, e).outer && !e.GepPtr?
  {
    var u :| u in reach && u in Slots(c) && e in FoundIn(c, Scanned(c, u));
    FoundAreOuter(c, Scanned(c, u), e);
  }

  lemma LoopIsWellFormed(c: Code, reach: set<Slot>)
    requires Sound(c) && reach <= Slots(c)
    ensures WellFormed(LoopOf(c, reach, FoundAt(c, reach)))
  {
    LoopWithoutExternals(c, reach);
    forall e | e in FoundAt(c, reach)
      ensures e in LoopOf(c, reach, FoundAt(c, reach)).outside && !e.GepPtr?
    {
      FoundConcerned(c, reach, e);
    }
  }

  lemma LoopWithoutExternals(c: Code, reach: set<Slot>)
    requires Sound(c) && reach <= Slots(c)
    ensures WellFormed(LoopOf(c, reach, {}))
  {
    LoopStepsFit(c, reach, LoopOf(c, reach, {}));
    LoopPhisFit(c, reach, LoopOf(c, reach, {}));
  }

  lemma LoopStepsFit(c: Code, reach: set<Slot>, l: Loop)
    requires Sound(c) && l == LoopOf(c, reach, {})
    ensures StepsFit(l)
  {
    forall g | g in l.steps && GepPtr(g) !in l.outside
      ensures GepPtr(g) in l.uses
    {
      assert GepPtr(g) in Slots(c) && Concerned(c, reach, GepPtr(g));
    }
  }

  lemma LoopPhisFit(c: Code, reach: set<Slot>, l: Loop)
    requires Sound(c) && l == LoopOf(c, reach, {})
    ensures PhisFit(l)
  {
    forall p, pred | p in l.phis && pred in l.phis[p] && PhiIn(p, pred) !in l.outside
      ensures PhiIn(p, pred) in l.uses
    {
      assert PhiIn(p, pred) in Slots(c) && Concerned(c, reach, PhiIn(p, pred));
    }
  }

  // A candidate: its uses are searched, and if it is feasible the loop is rewritten when there is a common address.
  method RewriteCandidate(ext: Outside, c: Code, candidate: nat)
    returns (common: Option<nat>, offs: map<Slot, Index>, res: map<Slot, Index>, feasible: bool,
             ghost reach: set<Slot>, ghost l: Loop)
    requires Ordered(ext) && Sound(c)
    ensures Closed(c, reach) && l == LoopOf(c, reach, FoundAt(c, reach))
    ensures forall u :: u in reach <==> HasTrail(c, candidate, u)
    ensures forall e :: e in l.found <==> Discovered(c, reach, e)
    ensures !feasible ==> exists u :: u in UsesOf(c, candidate) && !Accepted(c, u)
    ensures WellFormed(l) && (common.Some? <==> feasible && l.found != {} && exists a: nat :: SharedByAll(ext, l, a))
    ensures common.Some? ==> Rewriting(ext, common.value, l, offs, res)
    ensures common.Some? ==> forall a: nat :: SharedByAll(ext, l, a) ==> a in ChainOf(ext, common.value)
  {
    var reached, found;
    reached, found, feasible := Search(c, candidate);
    reach, l := reached, LoopOf(c, reached, found);
    LoopIsWellFormed(c, reach);
    common, offs, res := None, map[], map[];
    if feasible {
      common, offs, res := RewriteLoop(ext, LoopOf(c, reached, found));
    }
  }

  // When the search accepts all operands of the phis it reaches, it finds all their externals, so that the rewriting is
  // right exactly when each of their operands from the loop is derived from them.
  lemma AcceptedPhis(c: Code, reach: set<Slot>)
    requires Sound(c) && reach <= Slots(c) && forall u :: u in reach && u.PhiIn? ==> Accepted(c, u)
    ensures var l := LoopOf(c, reach, FoundAt(c, reach));
      WellFormed(l) && (AllReplaced(l) <==> forall u :: u in l.uses && u.PhiIn? ==> Derived(l, l.uses[u]))
  {
    var l := LoopOf(c, reach, FoundAt(c, reach));
    LoopIsWellFormed(c, reach);
    forall u | u in l.outside && u.PhiIn? ensures u in l.found {
      ExternalFound(c, reach, u);
    }
  }

  lemma ExternalFound(c: Code, reach: set<Slot>, u: Slot)
    requires Sound(c) && reach <= Slots(c) && (forall w :: w in reach && w.PhiIn? ==> Accepted(c, w))
    requires u in Slots(c) && u.PhiIn? && u.p in ReachedPhis(reach) && OperandAt(c, u).outer
    ensures u in FoundAt(c, reach)
  {
    var w :| w in reach && w.PhiIn? && w.p == u.p;
    var order := c.phis[u.p].order;
    assert u.pred in order;
    var i :| 0 <= i < |order| && order[i] == u.pred;
    assert Scanned(c, w)[i] == u;
    AcceptedAreFound(c, Scanned(c, w), i);
  }

  // Otherwise it is wrong when a phi that it reaches takes a value of the loop that it does not accept. That the
  // candidate was feasible does not exclude it: the answers for other uses than its own are ignored.
  lemma UnacceptedFails(c: Code, reach: set<Slot>, u: Slot)
    requires Sound(c) && reach <= Slots(c) && u in Slots(c) && u.PhiIn? && u.p in ReachedPhis(reach)
    requires !OperandAt(c, u).outer && !OperandAt(c, u).good
    ensures var l := LoopOf(c, reach, FoundAt(c, reach));
      WellFormed(l) && !AllReplaced(l)
  {
    var l := LoopOf(c, reach, FoundAt(c, reach));
    LoopIsWellFormed(c, reach);
    if u in l.found {
      FoundConcerned(c, reach, u);
    }
    UnacceptedValue(c, reach, l, u);
    assert !Replaced(l, u);
  }

  lemma UnacceptedValue(c: Code, reach: set<Slot>, l: Loop, u: Slot)
    requires Sound(c) && WellFormed(l) && l == LoopOf(c, reach, l.found) && u in Slots(c) && u.PhiIn?
    requires u.p in ReachedPhis(reach)
    requires !OperandAt(c, u).outer && !OperandAt(c, u).good
    ensures u.p in l.phis && u.pred in l.phis[u.p] && u in l.uses && !Derived(l, l.uses[u])
  {
    var v := OperandAt(c, u).v;
    assert v !in l.phis && v !in l.steps;
  }
}
