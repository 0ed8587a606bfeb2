// One root from its operation tree to the emitted instructions.
module ThrPass {
  import opened Collections
  import opened ThrTree
  import opened ThrGroups
  import opened ThrRebuilt
  import opened ThrSpeed
  import opened ThrWorst
  import opened ThrApply
  import opened ThrMeaning
  import opened ThrEmit

  // When the value of an operand is ready, if outside values are ready as given by start.
  function Ready(o: Operand, code: seq<Instr>, start: nat -> real, k: Costs): real
    decreases |code|
  {
    match o
    case Ext(def) => start(def)
    case Res(i) =>
      if i < |code| then
        MaxReal(Ready(code[i].a, code[..i], start, k), Ready(code[i].b, code[..i], start, k))
        + InstructionLatency(code[i].op, k)
      else 0.0
  }

  // Outside values are ready when the leaves that stand for them are.
  ghost predicate Starts(t: Tree, start: nat -> real) {
    forall n :: n in LeavesM(t) ==> start(n.def) == BaseLatency(n)
  }

  lemma {:induction false} DenotedReady(o: Operand, t: Tree, code: seq<Instr>, start: nat -> real, k: Costs)
    requires Denotes(o, t, code) && Starts(t, start)
    ensures Ready(o, code, start, k) == Lat(t, k)
    decreases t
  {
    if t.Inner? {
      var c, before := code[o.i], code[..o.i];
      if Denotes(c.a, t.l, before) && Denotes(c.b, t.r, before) {
        DenotedReady(c.a, t.l, before, start, k);
        DenotedReady(c.b, t.r, before, start, k);
      } else {
        DenotedReady(c.a, t.r, before, start, k);
        DenotedReady(c.b, t.l, before, start, k);
      }
    }
  }

  lemma FlatInner2(t: Tree, t': Tree)
    requires Flatten(t) == Flatten(t')
    ensures t.Inner? == t'.Inner?
  {
  }

  lemma SameLeafDefs(t: Tree, t': Tree)
    requires Flatten(t) == Flatten(t')
    ensures LeafDefs(t) == LeafDefs(t')
  {
    FlatLeaves(t, t');
    LeafDefsAreLeaves(t);
    LeafDefsAreLeaves(t');
  }

  // applyTreeHeightReduction followed by createIRs, on a root without parent.
  method ReduceAndEmit(root: Node, k: Costs, ghost t: Tree, ghost stale: set<Node>)
    returns (code: seq<Instr>, result: Operand, ghost t': Tree, ghost d: Reduction)
    requires t.n == root && t.Inner? && Linked(t) && Proper(t) && root.parent == null && AllPhi(stale)
    modifies Nodes(t)
    ensures Linked(t') && Reduced(t, t') && Denotes(result, t', code)
    ensures Scoped(code, LeafDefs(t))
    ensures old(LeavesStored(t, k, stale)) ==> Outcome(d, t, t', root.op, k, stale)
  {
    var newRoot;
    newRoot, t', d := ApplyTreeHeightReduction(root, true, k, t, stale);
    FlatInner2(t, t');
    Footprint(t');
    SameLeafDefs(t, t');
    code, result := CreateIRs(newRoot, t');
  }

  // What the two steps together guarantee of the emitted code: the value of the original tree at every width and
  // assignment, ...
  lemma EmittedIsEquivalent(t: Tree, t': Tree, code: seq<Instr>, result: Operand, env: nat -> int, m: nat)
    requires Reduced(t, t') && Denotes(result, t', code) && Arithmetic(t) && m > 0
    ensures Value(result, code, env, m) == Eval(t, env, m)
  {
    ReductionKeepsValue(t, t', env, m);
    DenotedValue(result, t', code, env, m);
  }

  // The code of t is ready no later than the worst latency of t, and no later than t itself if no stale phi does harm.
  ghost predicate InTime(t: Tree, code: seq<Instr>, result: Operand, k: Costs, stale: set<Node>) {
    forall start: nat -> real :: Starts(t, start) ==>
      Ready(result, code, start, k) <= WorstFinal(t, t.n.op, k, stale) &&
      (CleanChild(t, t.n.op, k, stale, false) ==> Ready(result, code, start, k) <= Lat(t, k))
  }

  // ... and it is in time. Without phi leaves nothing is stale, and it is no later than the original tree.
  lemma EmittedIsInTime(t: Tree, t': Tree, d: Reduction, code: seq<Instr>, result: Operand, k: Costs, stale: set<Node>)
    requires Proper(t) && AllPhi(stale) && Outcome(d, t, t', t.n.op, k, stale) && Denotes(result, t', code)
    ensures InTime(t, code, result, k, stale)
    ensures stale == {} ==> CleanChild(t, t.n.op, k, stale, false) && OptimisedChild(t', t.n.op, k)
  {
    OutcomeReduced(d, t, t', t.n.op, k, stale);
    OutcomeImproved(d, t, t', t.n.op, k, stale);
    OutcomeNoLater(d, t, t', t.n.op, k, stale);
    FlatLeaves(t, t');
    forall start: nat -> real | Starts(t, start)
      ensures Ready(result, code, start, k) == Lat(t', k)
    {
      DenotedReady(result, t', code, start, k);
    }
    if stale == {} {
      NoneStaleClean(t, t.n.op, k, false);
      NoneStaleImproves(d, t, t', t.n.op, k);
    }
  }

  // Merging by stored latencies is merging by current ones unless a phi leaf of the group is stale.
  lemma {:induction false} StoredIsCurrent(h: Merges, f0: seq<Tree>, p: seq<Tree>, op: Opcode, k: Costs,
                                           stale: set<Node>)
    requires Reached(h, f0, p, op) && GreedyOn(h, k, stale) && NoStalePhi(f0, stale)
    ensures GreedyOn(h, k, {}) && NoStalePhi(p, stale)
  {
    match h
    case NoMerge =>
      PermElements(f0, p);
    case Merge(earlier, q, n) =>
      StoredIsCurrent(earlier, f0, q, op, k, stale);
      PermElements(Merged(q, n), p);
      SameStored(q, k, stale);
      assert forall s :: s in q[2..] ==> s in q;
  }

  ghost predicate NoStalePhi(f: seq<Tree>, stale: set<Node>) {
    forall s :: s in f ==> !(s.Leaf? && s.n in stale && s.n.phi)
  }

  lemma SameStored(q: seq<Tree>, k: Costs, stale: set<Node>)
    requires NoStalePhi(q, stale)
    ensures StoredLats(q, k, stale) == StoredLats(q, k, {})
  {
    forall i | 0 <= i < |q|
      ensures StoredLat(q[i], k, stale) == StoredLat(q[i], k, {})
    {
      assert q[i] in q;
    }
  }
}
