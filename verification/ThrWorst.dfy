// The latency that the reduction may come to at worst, computed on the original tree, and that it is exact.
module ThrWorst {
  import opened Collections
  import opened ThrTree
  import opened ThrLatency
  import opened ThrGreedy
  import opened ThrGroups
  import opened ThrCollect
  import opened ThrStale
  import opened ThrRebuilt
  import opened ThrSpeed

  ghost function Lowest(g: seq<real>): real
    requires g != []
  {
    g[LowestAt(g)]
  }

  ghost function Others(g: seq<real>): (r: seq<real>)
    requires g != []
    ensures |r| == |g| - 1
  {
    g[..LowestAt(g)] + g[LowestAt(g) + 1..]
  }

  // The values after two lowest ones have been merged.
  ghost function AfterPair(g: seq<real>, c: real): (r: seq<real>)
    requires |g| >= 2
    ensures |r| == |g| - 1
  {
    Others(Others(g)) + [Lowest(Others(g)) + c]
  }

  // When merging two lowest values at a time is done.
  ghost function GreedyLat(g: seq<real>, c: real): real
    requires g != []
    decreases |g|
  {
    if |g| == 1 then g[0] else GreedyLat(AfterPair(g, c), c)
  }

  // The two parts of a pair meet every deadline that the pair meets.
  lemma PairFits(a: real, b: real, rest: seq<real>, c: real, x: real)
    requires 0.0 <= a <= b && NonNegative(rest) && c >= 0.0 && Fits(rest + [b + c], c, x)
    ensures Fits([a, b] + rest, c, x)
  {
    FitsAll(rest + [b + c], c, x);
    assert (rest + [b + c])[|rest|] == b + c;
    if c > 0.0 {
      PairWeight(a, b, c, x);
      SumBySnoc(WeightOf(c, x), rest, b + c);
      SumByTwo(WeightOf(c, x), [a, b] + rest);
      assert ([a, b] + rest)[2..] == rest;
    } else {
      forall i | 0 <= i < |[a, b] + rest| ensures ([a, b] + rest)[i] <= x {
        if i >= 2 {
          assert ([a, b] + rest)[i] == (rest + [b + c])[i - 2];
        }
      }
    }
  }

  lemma PairExact(g: seq<real>, a: real, b: real, rest: seq<real>, c: real, x: real)
    requires multiset(g) == multiset([a, b] + rest) && 0.0 <= a <= b && AtLeast(rest, b) && c >= 0.0
    ensures Fits(g, c, x) <==> Fits(rest + [b + c], c, x)
  {
    if Fits(g, c, x) {
      MergeAnywhere(g, a, b, rest, c, x);
    }
    if Fits(rest + [b + c], c, x) {
      PairFits(a, b, rest, c, x);
      FitsPerm(g, [a, b] + rest, c, x);
    }
  }

  lemma LowestOut(g: seq<real>)
    requires g != [] && NonNegative(g)
    ensures multiset(g) == multiset{Lowest(g)} + multiset(Others(g))
    ensures AtLeast(Others(g), Lowest(g)) && Lowest(g) >= 0.0 && NonNegative(Others(g))
  {
    var j := LowestAt(g);
    TakeOut(g, j);
    forall l | 0 <= l < |g| - 1 ensures Others(g)[l] == if l < j then g[l] else g[l + 1] {
    }
  }

  lemma TwoFirst(g: seq<real>, a: real, r: seq<real>, b: real, rest: seq<real>)
    requires multiset(g) == multiset{a} + multiset(r) && multiset(r) == multiset{b} + multiset(rest) && AtLeast(r, a)
    ensures multiset(g) == multiset([a, b] + rest) && a <= b
  {
    assert b in multiset(r);
    assert multiset([a, b] + rest) == multiset{a} + (multiset{b} + multiset(rest));
  }

  // The two lowest values of g and the others.
  lemma PairOut(g: seq<real>)
    requires |g| >= 2 && NonNegative(g)
    ensures var a, b, rest := Lowest(g), Lowest(Others(g)), Others(Others(g));
      multiset(g) == multiset([a, b] + rest) && 0.0 <= a <= b && AtLeast(rest, b) && NonNegative(rest)
  {
    LowestOut(g);
    LowestOut(Others(g));
    TwoFirst(g, Lowest(g), Others(g), Lowest(Others(g)), Others(Others(g)));
  }

  lemma AfterPairExact(g: seq<real>, c: real, x: real)
    requires |g| >= 2 && NonNegative(g) && c >= 0.0
    ensures NonNegative(AfterPair(g, c)) && (Fits(g, c, x) <==> Fits(AfterPair(g, c), c, x))
  {
    PairOut(g);
    PairExact(g, Lowest(g), Lowest(Others(g)), Others(Others(g)), c, x);
  }

  // It is the first deadline that can be met.
  lemma {:induction false} GreedyLatExact(g: seq<real>, c: real, x: real)
    requires g != [] && NonNegative(g) && c >= 0.0
    ensures Fits(g, c, x) <==> GreedyLat(g, c) <= x
    decreases |g|
  {
    if |g| == 1 {
      OneFitsExact(g[0], c, x);
      assert g == [g[0]];
    } else {
      AfterPairExact(g, c, x);
      GreedyLatExact(AfterPair(g, c), c, x);
    }
  }

  lemma OneFitsExact(y: real, c: real, x: real)
    requires y >= 0.0 && c >= 0.0
    ensures Fits([y], c, x) <==> y <= x
  {
    if c > 0.0 {
      WeightLaws(y, y, c, x);
      SumByCons(WeightOf(c, x), y, []);
    } else {
      assert [y][0] == y;
    }
  }

  // The latest times at which the leaves of the group of op at the top of t may be ready.
  ghost function WorstLats(t: Tree, op: Opcode, k: Costs, stale: set<Node>): (g: seq<real>)
    ensures g != []
    decreases t, 1
  {
    if InGroup(t, op) then WorstLats(t.l, op, k, stale) + WorstLats(t.r, op, k, stale) else [WorstTop(t, k, stale)]
  }

  // A node that is not rebuilt itself.
  ghost function WorstTop(t: Tree, k: Costs, stale: set<Node>): real
    decreases t, 0
  {
    match t
    case Leaf(n) => BaseLatency(n)
    case Inner(n, l, r) =>
      MaxReal(WorstFinal(l, n.op, k, stale), WorstFinal(r, n.op, k, stale)) + InstructionLatency(n.op, k)
  }

  // A group that is rebuilt: a stale phi child is merged first with a lowest of the other leaves.
  ghost function WorstGroup(t: Tree, k: Costs, stale: set<Node>): real
    requires t.Inner?
    decreases t, 2
  {
    var op, c := t.n.op, InstructionLatency(t.n.op, k);
    var l, r := StaleChild(t.l, stale), StaleChild(t.r, stale);
    GreedyLat(if l == r then WorstLats(t, op, k, stale)
              else Worst(WorstLats(if l then t.r else t.l, op, k, stale), c), c)
  }

  // The worst latency of t below a node of operator op, where its rebuilding is final, or of a root with op its own.
  ghost function WorstFinal(t: Tree, op: Opcode, k: Costs, stale: set<Node>): real
    decreases t, 3
  {
    if InGroup(t, op) then WorstGroup(t, k, stale) else WorstTop(t, k, stale)
  }

  lemma NonNegativeAppend(a: seq<real>, b: seq<real>)
    requires NonNegative(a) && NonNegative(b)
    ensures NonNegative(a + b)
  {
  }

  lemma WorstNonNegative(g: seq<real>, c: real)
    requires g != [] && NonNegative(g) && c >= 0.0
    ensures NonNegative(Worst(g, c))
  {
  }

  lemma GreedyNonNegative(g: seq<real>, c: real)
    requires g != [] && NonNegative(g) && c >= 0.0
    ensures GreedyLat(g, c) >= 0.0
  {
    GreedyLatExact(g, c, GreedyLat(g, c));
    FitsAll(g, c, GreedyLat(g, c));
    assert 0.0 <= g[0] <= GreedyLat(g, c);
  }

  lemma {:induction false} WorstLatsNonNegative(t: Tree, op: Opcode, k: Costs, stale: set<Node>)
    ensures NonNegative(WorstLats(t, op, k, stale)) && WorstFinal(t, op, k, stale) >= 0.0
    decreases t, if InGroup(t, op) then 1 else 0
  {
    if InGroup(t, op) {
      WorstLatsNonNegative(t.l, op, k, stale);
      WorstLatsNonNegative(t.r, op, k, stale);
      NonNegativeAppend(WorstLats(t.l, op, k, stale), WorstLats(t.r, op, k, stale));
      GroupNonNegative(t, k, stale);
    } else if t.Inner? {
      WorstLatsNonNegative(t.l, t.n.op, k, stale);
      WorstLatsNonNegative(t.r, t.n.op, k, stale);
    }
  }

  lemma GroupNonNegative(t: Tree, k: Costs, stale: set<Node>)
    requires t.Inner? && NonNegative(WorstLats(t.l, t.n.op, k, stale)) && NonNegative(WorstLats(t.r, t.n.op, k, stale))
    ensures WorstGroup(t, k, stale) >= 0.0
  {
    var op, c := t.n.op, InstructionLatency(t.n.op, k);
    var l, r := StaleChild(t.l, stale), StaleChild(t.r, stale);
    if l == r {
      NonNegativeAppend(WorstLats(t.l, op, k, stale), WorstLats(t.r, op, k, stale));
      GreedyNonNegative(WorstLats(t, op, k, stale), c);
    } else {
      var g := WorstLats(if l then t.r else t.l, op, k, stale);
      WorstNonNegative(g, c);
      GreedyNonNegative(Worst(g, c), c);
    }
  }

  // Earlier values meet every deadline that later ones meet, in any order.
  lemma FitsNoLater(a: seq<real>, b: seq<real>, c: real, x: real)
    requires NoLater(a, b) && NonNegative(a) && c >= 0.0 && Fits(b, c, x)
    ensures Fits(a, c, x)
  {
    var s :| Arranged(s, a, b);
    NonNegativePerm(a, s);
    FitsEarlier(s, b, c, x);
    FitsPerm(s, a, c, x);
  }

  // A group without a stale child, over leaves that are no later than w.
  lemma CurrentGroup(m: Tree, h: Merges, t': Tree, k: Costs, stale: set<Node>, w: seq<real>, x: real)
    requires Rebuilds(h, m, t', k, stale) && DirectStale(m, stale) == {}
    requires NoLater(Lats(Frontier(m, m.n.op), k), w) && Fits(w, InstructionLatency(m.n.op, k), x)
    ensures Lat(t', k) <= x
  {
    var op, c, f := m.n.op, InstructionLatency(m.n.op, k), CollectedLeaves([m], m.n.op);
    Collected(m, op);
    AllowedIsGreedy(h, k, {});
    LatsNonNegative(Frontier(m, op), k);
    FitsNoLater(Lats(Frontier(m, op), k), w, c, x);
    LatsPerm(Frontier(m, op), f, k);
    FitsPerm(Lats(Frontier(m, op), k), Lats(f, k), c, x);
    GreedyMeetsDeadline(h, f, [t'], op, k, x);
    LatsNonNegative([t'], k);
    FitsAll(Lats([t'], k), c, x);
    assert Lats([t'], k)[0] == Lat(t', k);
  }

  lemma CleanKids(m: Tree, k: Costs, stale: set<Node>)
    requires m.Inner? && !StaleChild(m.l, stale) && !StaleChild(m.r, stale)
    ensures DirectStale(m, stale) == {}
  {
  }

  // The children of a group continue it as before, and stale ones are left alone.
  ghost predicate KidsKept(t: Tree, m: Tree, stale: set<Node>) {
    t.Inner? && m.Inner? && m.n == t.n && Proper(m) && AllPhi(stale) &&
    (t.l.Leaf? ==> m.l == t.l) && (t.r.Leaf? ==> m.r == t.r) && (m.l.Leaf? ==> t.l.Leaf?) && (m.r.Leaf? ==> t.r.Leaf?)
  }

  lemma StaleKept(t: Tree, m: Tree, stale: set<Node>)
    requires KidsKept(t, m, stale)
    ensures StaleChild(m.l, stale) == StaleChild(t.l, stale) && StaleChild(m.r, stale) == StaleChild(t.r, stale)
    ensures StaleChild(t.l, stale) ==> m.l == t.l && m.l.n.phi
    ensures StaleChild(t.r, stale) ==> m.r == t.r && m.r.n.phi
  {
  }

  // A group over leaves that are no later than the worst is no later than its worst latency.
  lemma GroupNoLater(t: Tree, m: Tree, h: Merges, t': Tree, k: Costs, stale: set<Node>)
    requires KidsKept(t, m, stale) && Rebuilds(h, m, t', k, stale)
    requires NoLater(Lats(Frontier(m.l, t.n.op), k), WorstLats(t.l, t.n.op, k, stale))
    requires NoLater(Lats(Frontier(m.r, t.n.op), k), WorstLats(t.r, t.n.op, k, stale))
    ensures Lat(t', k) <= WorstGroup(t, k, stale)
    ensures NoLater(Lats(Frontier(t', t.n.op), k), WorstLats(t, t.n.op, k, stale))
  {
    FrontierNoLater(t, m, h, t', k, stale);
    StaleKept(t, m, stale);
    if StaleChild(t.l, stale) == StaleChild(t.r, stale) {
      EvenGroupNoLater(t, m, h, t', k, stale);
    } else {
      OddGroupNoLater(t, m, h, t', k, stale);
    }
  }

  lemma FrontierNoLater(t: Tree, m: Tree, h: Merges, t': Tree, k: Costs, stale: set<Node>)
    requires KidsKept(t, m, stale) && Rebuilds(h, m, t', k, stale)
    requires NoLater(Lats(Frontier(m.l, t.n.op), k), WorstLats(t.l, t.n.op, k, stale))
    requires NoLater(Lats(Frontier(m.r, t.n.op), k), WorstLats(t.r, t.n.op, k, stale))
    ensures NoLater(Lats(Frontier(m, t.n.op), k), WorstLats(t, t.n.op, k, stale))
    ensures NoLater(Lats(Frontier(t', t.n.op), k), WorstLats(t, t.n.op, k, stale))
  {
    var op := t.n.op;
    NoLaterBoth(Lats(Frontier(m.l, op), k), WorstLats(t.l, op, k, stale),
                Lats(Frontier(m.r, op), k), WorstLats(t.r, op, k, stale));
    LatsAppend(Frontier(m.l, op), Frontier(m.r, op), k);
    RebuiltFrontier(m, op, h, t');
    LatsPerm(Frontier(m, op), Frontier(t', op), k);
    NoLaterPerm(Lats(Frontier(m, op), k), Lats(Frontier(t', op), k), WorstLats(t, op, k, stale));
  }

  // No stale child, or two.
  lemma EvenGroupNoLater(t: Tree, m: Tree, h: Merges, t': Tree, k: Costs, stale: set<Node>)
    requires KidsKept(t, m, stale) && Rebuilds(h, m, t', k, stale) && StaleChild(t.l, stale) == StaleChild(t.r, stale)
    requires NoLater(Lats(Frontier(m, t.n.op), k), WorstLats(t, t.n.op, k, stale))
    ensures Lat(t', k) <= WorstGroup(t, k, stale)
  {
    var op, c := t.n.op, InstructionLatency(t.n.op, k);
    var g, x := WorstLats(t, op, k, stale), WorstGroup(t, k, stale);
    StaleKept(t, m, stale);
    WorstLatsNonNegative(t, op, k, stale);
    GreedyLatExact(g, c, x);
    if StaleChild(t.l, stale) {
      TwoLeaves(m, h, t', k, stale);
      LatsNonNegative(Frontier(m, op), k);
      FitsNoLater(Lats(Frontier(m, op), k), g, c, x);
      PairIsGroup(m, k, x);
    } else {
      CleanKids(m, k, stale);
      CurrentGroup(m, h, t', k, stale, g, x);
    }
  }

  lemma PairIsGroup(m: Tree, k: Costs, x: real)
    requires m.Inner? && m.l.Leaf? && m.r.Leaf? && m.l.n.phi && m.r.n.phi
    requires Fits(Lats(Frontier(m, m.n.op), k), InstructionLatency(m.n.op, k), x)
    ensures Lat(m, k) <= x
  {
    var c := InstructionLatency(m.n.op, k);
    var g := [100000.0, 100000.0];
    assert Lats(Frontier(m, m.n.op), k) == g;
    assert g == [100000.0, 100000.0] + [];
    PairExact(g, 100000.0, 100000.0, [], c, x);
    assert [] + [100000.0 + c] == [100000.0 + c];
    OneFitsExact(100000.0 + c, c, x);
  }

  lemma OddGroupNoLater(t: Tree, m: Tree, h: Merges, t': Tree, k: Costs, stale: set<Node>)
    requires KidsKept(t, m, stale) && Rebuilds(h, m, t', k, stale) && StaleChild(t.l, stale) != StaleChild(t.r, stale)
    requires NoLater(Lats(Frontier(m.l, t.n.op), k), WorstLats(t.l, t.n.op, k, stale))
    requires NoLater(Lats(Frontier(m.r, t.n.op), k), WorstLats(t.r, t.n.op, k, stale))
    ensures Lat(t', k) <= WorstGroup(t, k, stale)
  {
    var op, c, left := t.n.op, InstructionLatency(t.n.op, k), StaleChild(t.l, stale);
    var a, b := if left then m.l else m.r, if left then m.r else m.l;
    var w, x := WorstLats(if left then t.r else t.l, op, k, stale), WorstGroup(t, k, stale);
    StaleKept(t, m, stale);
    OneStale(m, stale);
    WorstLatsNonNegative(if left then t.r else t.l, op, k, stale);
    WorstNonNegative(w, c);
    GreedyLatExact(Worst(w, c), c, x);
    GroupMeets(m, h, t', k, stale, a, b, w, x);
  }

  lemma KidsAreKept(t: Tree, l: Tree, r: Tree, stale: set<Node>)
    requires Proper(t) && t.Inner? && AllPhi(stale) && Reduced(t.l, l) && Reduced(t.r, r)
    ensures KidsKept(t, Inner(t.n, l, r), stale)
  {
    ReducedInner(t, l, r);
    ReducedKind(t.l, l);
    ReducedKind(t.r, r);
  }

  lemma LeafWorst(t: Tree, op: Opcode, k: Costs, stale: set<Node>)
    requires t.Leaf?
    ensures Lats(Frontier(t, op), k) == [Lat(t, k)] == WorstLats(t, op, k, stale)
    ensures WorstFinal(t, op, k, stale) == Lat(t, k)
  {
    SingleFrontier(t, op, k);
    assert WorstTop(t, k, stale) == Lat(t, k);
  }

  lemma TopNoLater(t: Tree, l: Tree, r: Tree, k: Costs, stale: set<Node>)
    requires t.Inner? && Lat(l, k) <= WorstFinal(t.l, t.n.op, k, stale)
    requires Lat(r, k) <= WorstFinal(t.r, t.n.op, k, stale)
    ensures Lat(Inner(t.n, l, r), k) <= WorstTop(t, k, stale)
  {
  }

  // No outcome is later than the worst latency.
  lemma {:induction false} OutcomeNoLater(d: Reduction, t: Tree, t': Tree, op: Opcode, k: Costs, stale: set<Node>)
    requires Proper(t) && AllPhi(stale) && Outcome(d, t, t', op, k, stale)
    ensures NoLater(Lats(Frontier(t', op), k), WorstLats(t, op, k, stale))
    ensures Lat(t', k) <= WorstFinal(t, op, k, stale)
    decreases t
  {
    if t.Leaf? {
      LeafWorst(t, op, k, stale);
      NoLaterOne(Lat(t, k), Lat(t, k));
    } else {
      KidsOutcome(d, t, t', op, k, stale);
      OutcomeNoLater(d.l, t.l, d.left, t.n.op, k, stale);
      OutcomeNoLater(d.r, t.r, d.right, t.n.op, k, stale);
      var m := Inner(t.n, d.left, d.right);
      if InGroup(t, op) {
        KidsAreKept(t, d.left, d.right, stale);
        GroupNoLater(t, m, d.h, t', k, stale);
      } else {
        TopNoLater(t, d.left, d.right, k, stale);
        SingleFrontier(m, op, k);
        NoLaterOne(Lat(m, k), WorstTop(t, k, stale));
      }
    }
  }

  // The times that decide a run on the group at the top of m.
  ghost function Decisive(m: Tree, k: Costs, stale: set<Node>): seq<real>
    requires m.Inner?
  {
    var op, c := m.n.op, InstructionLatency(m.n.op, k);
    var l, r := StaleChild(m.l, stale), StaleChild(m.r, stale);
    if l == r then Lats(Frontier(m, op), k) else Worst(Lats(Frontier(if l then m.r else m.l, op), k), c)
  }

  // A group has a run that meets no deadline that the worst first merge does not meet.
  lemma SlowRun(m: Tree, k: Costs, stale: set<Node>) returns (h: Merges, t': Tree)
    requires m.Inner? && Proper(m) && AllPhi(stale)
    ensures Rebuilds(h, m, t', k, stale) && Needs(Lat(t', k), Decisive(m, k, stale), InstructionLatency(m.n.op, k))
  {
    var op, f, spare := m.n.op, CollectedLeaves([m], m.n.op), CollectedNodes([m], m.n.op);
    var l, r := StaleChild(m.l, stale), StaleChild(m.r, stale);
    Collected(m, op);
    CollectedArithmetic(m, op);
    if l == r {
      h, t' := Complete(NoMerge, f, f, spare, op, k, DirectStale(m, stale));
      SlowEven(m, f, k, Lat(t', k));
    } else {
      var a, b := if l then m.l else m.r, if l then m.r else m.l;
      OneStale(m, stale);
      OtherLeaves(m, op, a, b, f);
      h, t' := WorstRun(f, Frontier(b, op), spare, op, k, a.n);
    }
  }

  lemma OneStale(m: Tree, stale: set<Node>)
    requires m.Inner? && StaleChild(m.l, stale) != StaleChild(m.r, stale)
    ensures DirectStale(m, stale) == {if StaleChild(m.l, stale) then m.l.n else m.r.n}
  {
  }

  lemma SlowEven(m: Tree, f: seq<Tree>, k: Costs, lat: real)
    requires m.Inner? && multiset(f) == multiset(Frontier(m, m.n.op))
    requires Needs(lat, Lats(f, k), InstructionLatency(m.n.op, k))
    ensures Needs(lat, Lats(Frontier(m, m.n.op), k), InstructionLatency(m.n.op, k))
  {
    var c := InstructionLatency(m.n.op, k);
    LatsPerm(f, Frontier(m, m.n.op), k);
    forall x | lat <= x ensures Fits(Lats(Frontier(m, m.n.op), k), c, x) {
      FitsPerm(Lats(f, k), Lats(Frontier(m, m.n.op), k), c, x);
    }
  }

  // Over leaves that are as late as possible this is the worst latency of the group.
  lemma SlowIsWorst(t: Tree, m: Tree, k: Costs, stale: set<Node>, lat: real)
    requires KidsKept(t, m, stale) && Needs(lat, Decisive(m, k, stale), InstructionLatency(t.n.op, k))
    requires multiset(Lats(Frontier(m.l, t.n.op), k)) == multiset(WorstLats(t.l, t.n.op, k, stale))
    requires multiset(Lats(Frontier(m.r, t.n.op), k)) == multiset(WorstLats(t.r, t.n.op, k, stale))
    ensures WorstGroup(t, k, stale) <= lat
  {
    var op, c := t.n.op, InstructionLatency(t.n.op, k);
    var l, r := StaleChild(t.l, stale), StaleChild(t.r, stale);
    StaleKept(t, m, stale);
    assert Fits(Decisive(m, k, stale), c, lat);
    if l == r {
      var g := WorstLats(t, op, k, stale);
      LatsAppend(Frontier(m.l, op), Frontier(m.r, op), k);
      FitsPerm(Lats(Frontier(m, op), k), g, c, lat);
      WorstLatsNonNegative(t, op, k, stale);
      GreedyLatExact(g, c, lat);
    } else {
      var w := WorstLats(if l then t.r else t.l, op, k, stale);
      WorstLatsNonNegative(if l then t.r else t.l, op, k, stale);
      WorstPerm(Lats(Frontier(if l then m.r else m.l, op), k), w, c, lat);
      WorstNonNegative(w, c);
      GreedyLatExact(Worst(w, c), c, lat);
    }
  }

  lemma SlowFrontier(t: Tree, m: Tree, h: Merges, t': Tree, k: Costs, stale: set<Node>)
    requires KidsKept(t, m, stale) && Rebuilds(h, m, t', k, stale)
    requires multiset(Lats(Frontier(m.l, t.n.op), k)) == multiset(WorstLats(t.l, t.n.op, k, stale))
    requires multiset(Lats(Frontier(m.r, t.n.op), k)) == multiset(WorstLats(t.r, t.n.op, k, stale))
    ensures multiset(Lats(Frontier(t', t.n.op), k)) == multiset(WorstLats(t, t.n.op, k, stale))
  {
    var op := t.n.op;
    RebuiltFrontier(m, op, h, t');
    LatsPerm(Frontier(m, op), Frontier(t', op), k);
    LatsAppend(Frontier(m.l, op), Frontier(m.r, op), k);
  }

  // Some outcome is as late as the worst latency, over leaves that are as late as possible.
  lemma {:induction false} WorstOutcome(t: Tree, op: Opcode, k: Costs, stale: set<Node>)
    returns (d: Reduction, t': Tree)
    requires Proper(t) && AllPhi(stale)
    ensures Outcome(d, t, t', op, k, stale) && Reduced(t, t')
    ensures multiset(Lats(Frontier(t', op), k)) == multiset(WorstLats(t, op, k, stale))
    ensures Lat(t', k) == WorstFinal(t, op, k, stale)
    decreases t
  {
    if t.Leaf? {
      d, t' := AtLeaf, t;
      LeafWorst(t, op, k, stale);
    } else {
      ChildrenDistinct(t);
      var dl, l := WorstOutcome(t.l, t.n.op, k, stale);
      var dr, r := WorstOutcome(t.r, t.n.op, k, stale);
      var m := Inner(t.n, l, r);
      ReducedInner(t, l, r);
      var h;
      if InGroup(t, op) {
        KidsAreKept(t, l, r, stale);
        h, t' := SlowGroup(t, m, k, stale);
      } else {
        h, t' := NoMerge, m;
        SlowTop(t, l, r, op, k, stale);
      }
      TopReduced(t, m, h, t', op, k, stale);
      d := AtNode(dl, l, dr, r, h);
    }
  }

  lemma SlowTop(t: Tree, l: Tree, r: Tree, op: Opcode, k: Costs, stale: set<Node>)
    requires t.Inner? && !InGroup(t, op)
    requires WorstFinal(t.l, t.n.op, k, stale) == Lat(l, k) && WorstFinal(t.r, t.n.op, k, stale) == Lat(r, k)
    ensures var m := Inner(t.n, l, r);
      Lats(Frontier(m, op), k) == WorstLats(t, op, k, stale) && WorstFinal(t, op, k, stale) == Lat(m, k)
  {
    SingleFrontier(Inner(t.n, l, r), op, k);
    assert WorstTop(t, k, stale) == Lat(Inner(t.n, l, r), k);
  }

  // A slow run over leaves that are as late as possible.
  lemma SlowGroup(t: Tree, m: Tree, k: Costs, stale: set<Node>) returns (h: Merges, t': Tree)
    requires KidsKept(t, m, stale)
    requires multiset(Lats(Frontier(m.l, t.n.op), k)) == multiset(WorstLats(t.l, t.n.op, k, stale))
    requires multiset(Lats(Frontier(m.r, t.n.op), k)) == multiset(WorstLats(t.r, t.n.op, k, stale))
    ensures Rebuilds(h, m, t', k, stale) && Lat(t', k) == WorstGroup(t, k, stale)
    ensures multiset(Lats(Frontier(t', t.n.op), k)) == multiset(WorstLats(t, t.n.op, k, stale))
  {
    h, t' := SlowRun(m, k, stale);
    SlowIsWorst(t, m, k, stale, Lat(t', k));
    SlowFrontier(t, m, h, t', k, stale);
    SameNoLater(Lats(Frontier(m.l, t.n.op), k), WorstLats(t.l, t.n.op, k, stale));
    SameNoLater(Lats(Frontier(m.r, t.n.op), k), WorstLats(t.r, t.n.op, k, stale));
    GroupNoLater(t, m, h, t', k, stale);
  }

  lemma SameNoLater(a: seq<real>, b: seq<real>)
    requires multiset(a) == multiset(b)
    ensures NoLater(a, b)
  {
    SameLength(a, b);
    assert Arranged(b, a, b);
  }

  ghost predicate MayBecome(t: Tree, t': Tree, d: Reduction, op: Opcode, k: Costs, stale: set<Node>) {
    Outcome(d, t, t', op, k, stale)
  }

  // The worst latency is exact: it decides which deadlines all outcomes meet. With the latency of t as the deadline,
  // it decides whether the reduction can make t slower.
  lemma WorstIsExact(t: Tree, op: Opcode, k: Costs, stale: set<Node>, x: real)
    requires Proper(t) && AllPhi(stale)
    ensures WorstFinal(t, op, k, stale) <= x <==>
      forall d: Reduction, t': Tree :: MayBecome(t, t', d, op, k, stale) ==> Lat(t', k) <= x
  {
    if WorstFinal(t, op, k, stale) <= x {
      forall d: Reduction, t': Tree | MayBecome(t, t', d, op, k, stale) ensures Lat(t', k) <= x {
        OutcomeNoLater(d, t, t', op, k, stale);
      }
    } else {
      var d, t' := WorstOutcome(t, op, k, stale);
      assert MayBecome(t, t', d, op, k, stale);
    }
  }

  // Where a stale phi child delays a group, some outcome is slower than the original group, whatever is below.
  lemma DelayedOutcome(t: Tree, k: Costs, stale: set<Node>) returns (d: Reduction, t': Tree)
    requires Proper(t) && AllPhi(stale) && t.Inner? && !MeetsAnyway(t, k, stale)
    ensures Outcome(d, t, t', t.n.op, k, stale) && Lat(t', k) > Lat(t, k)
  {
    ChildrenDistinct(t);
    var dl, l := WorstOutcome(t.l, t.n.op, k, stale);
    var dr, r := WorstOutcome(t.r, t.n.op, k, stale);
    var m := Inner(t.n, l, r);
    KidsAreKept(t, l, r, stale);
    StaleKept(t, m, stale);
    DelayedIsSlower(t, m, k, stale);
    var h: Merges, s: Tree :| Rebuilds(h, m, s, k, stale) && Lat(s, k) > Lat(t, k);
    d, t' := AtNode(dl, l, dr, r, h), s;
  }

  // A root over clean subtrees, in particular a tree of one operator, is never slower if and only if no stale child
  // delays it.
  lemma RootIsExact(t: Tree, k: Costs, stale: set<Node>)
    requires Proper(t) && AllPhi(stale) && t.Inner? && CleanIn(t, t.n.op, k, stale, false)
    ensures MeetsAnyway(t, k, stale) <==>
      forall d: Reduction, t': Tree :: MayBecome(t, t', d, t.n.op, k, stale) ==> Lat(t', k) <= Lat(t, k)
  {
    if MeetsAnyway(t, k, stale) {
      forall d: Reduction, t': Tree | MayBecome(t, t', d, t.n.op, k, stale) ensures Lat(t', k) <= Lat(t, k) {
        OutcomeImproved(d, t, t', t.n.op, k, stale);
      }
    } else {
      var d, t' := DelayedOutcome(t, k, stale);
      assert MayBecome(t, t', d, t.n.op, k, stale);
    }
  }
}
