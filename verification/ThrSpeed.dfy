// How fast the reduced tree is, with leaves that still carry the latency 0 they were built with.
module ThrSpeed {
  import opened Collections
  import opened ThrTree
  import opened ThrLatency
  import opened ThrGreedy
  import opened ThrGroups
  import opened ThrMerge
  import opened ThrStale
  import opened ThrCollect
  import opened ThrRebuilt

  // The leaves that are still stale when the group at the top of t is rebuilt: all others have been updated with
  // the subtree that holds them.
  ghost function DirectStale(t: Tree, stale: set<Node>): set<Node> {
    match t
    case Leaf(_) => {}
    case Inner(_, l, r) => (if l.Leaf? then {l.n} else {}) * stale + (if r.Leaf? then {r.n} else {}) * stale
  }

  ghost predicate AllPhi(stale: set<Node>) {
    forall n :: n in stale ==> n.phi
  }

  ghost predicate StaleChild(t: Tree, stale: set<Node>) {
    t.Leaf? && t.n in stale
  }

  // The phi next to b may be merged with a leaf of b first, and another operation is then too late.
  ghost predicate Delayed(b: Tree, op: Opcode, k: Costs) {
    var c := InstructionLatency(op, k);
    c > 0.0 && InGroup(b, op) && Lat(b, k) < 100000.0 + c
  }

  // No stale phi child makes the group slower.
  ghost predicate MeetsAnyway(t: Tree, k: Costs, stale: set<Node>)
    requires t.Inner?
  {
    var l, r := StaleChild(t.l, stale), StaleChild(t.r, stale);
    l == r || !Delayed(if l then t.r else t.l, t.n.op, k)
  }

  // Until when a group of op with a phi next to b takes.
  ghost function NextToPhi(b: Tree, op: Opcode, k: Costs): real {
    MaxReal(100000.0, Lat(b, k)) + InstructionLatency(op, k)
  }

  // The group is in time after the worst first merge if and only if it is not delayed.
  lemma DelayedIsExact(b: Tree, op: Opcode, k: Costs)
    ensures var c := InstructionLatency(op, k);
      Fits(Worst(Lats(Frontier(b, op), k), c), c, NextToPhi(b, op, k)) <==> !Delayed(b, op, k)
  {
    var g, c, d := Lats(Frontier(b, op), k), InstructionLatency(op, k), Lat(b, k);
    LatsNonNegative(Frontier(b, op), k);
    if Delayed(b, op, k) {
      NoRoomAfterPhi(g, c, NextToPhi(b, op, k));
    } else if InGroup(b, op) {
      LowestEarly(b, op, k);
      GroupShape(b, op, k);
      RoomAfterPhi(ShapeOf(b, op, k), g, c, NextToPhi(b, op, k));
    } else {
      SingleFrontier(b, op, k);
      assert Worst(g, c) == [NextToPhi(b, op, k)];
      OneFits(NextToPhi(b, op, k), c);
    }
  }

  // In a group a lowest leaf has time for an operation.
  lemma LowestEarly(b: Tree, op: Opcode, k: Costs)
    requires InGroup(b, op)
    ensures var g := Lats(Frontier(b, op), k); |g| >= 2 && g[LowestAt(g)] + InstructionLatency(op, k) <= Lat(b, k)
  {
    var g, gl, c := Lats(Frontier(b, op), k), Lats(Frontier(b.l, op), k), InstructionLatency(op, k);
    LatsAppend(Frontier(b.l, op), Frontier(b.r, op), k);
    GroupShape(b.l, op, k);
    LatsNonNegative(Frontier(b.l, op), k);
    ShapeWitnesses(ShapeOf(b.l, op, k), c, Lat(b.l, k));
    FitsAll(gl, c, Lat(b.l, k));
    assert g[LowestAt(g)] <= g[0] == gl[0] <= Lat(b.l, k);
  }

  lemma OneFits(y: real, c: real)
    requires y >= 0.0 && c >= 0.0
    ensures Fits([y], c, y)
  {
    if c > 0.0 {
      WeightLaws(y, y, c, y);
      SumByCons(WeightOf(c, y), y, []);
    }
  }

  // The sum of the phi can be one more operand of the tree s over all other leaves.
  lemma RoomAfterPhi(s: Shape, g: seq<real>, c: real, x: real)
    requires g != [] && Tips(s) == g && NonNegative(g) && c >= 0.0 && x == MaxReal(100000.0, Height(s, c)) + c
    requires g[LowestAt(g)] + c <= Height(s, c) && (c == 0.0 || Height(s, c) >= 100000.0 + c)
    ensures Fits(Worst(g, c), c, x)
  {
    var i := LowestAt(g);
    var last := MaxReal(100000.0, g[i]) + c;
    assert last + c <= x;
    RoomForOne(s, last, c, x);
    DropOne(g, i, last, c, x);
  }

  lemma RoomForOne(s: Shape, last: real, c: real, x: real)
    requires NonNegative(Tips(s)) && last >= 0.0 && c >= 0.0 && Height(s, c) + c <= x && last + c <= x
    ensures Fits(Tips(s) + [last], c, x)
  {
    var f := Fork(s, Tip(last));
    assert Tips(f) == Tips(s) + [last];
    ShapeWitnesses(f, c, x);
  }

  lemma DropOne(g: seq<real>, i: nat, last: real, c: real, x: real)
    requires i < |g| && c >= 0.0 && Fits(g + [last], c, x)
    ensures Fits(g[..i] + g[i + 1..] + [last], c, x)
  {
    var rest := g[..i] + g[i + 1..];
    OneOut(g, i, last);
    FitsPerm(g + [last], [g[i]] + (rest + [last]), c, x);
    FitsFewer(g[i], rest + [last], c, x);
  }

  lemma OneOut<T>(g: seq<T>, i: nat, last: T)
    requires i < |g|
    ensures multiset(g + [last]) == multiset([g[i]] + (g[..i] + g[i + 1..] + [last]))
  {
    TakeOut(g, i);
    assert multiset(g + [last]) == multiset(g) + multiset{last};
  }

  lemma NoRoomAfterPhi(g: seq<real>, c: real, x: real)
    requires |g| >= 2 && NonNegative(g) && c > 0.0 && x < 100000.0 + c + c
    ensures !Fits(Worst(g, c), c, x)
  {
    var i := LowestAt(g);
    var rest, last := g[..i] + g[i + 1..], MaxReal(100000.0, g[i]) + c;
    assert Worst(g, c) == rest + [last];
    assert rest == [rest[0]] + rest[1..];
    assert rest[0] == if i == 0 then g[1] else g[0];
    SumBySnoc(WeightOf(c, x), rest, last);
    SumByCons(WeightOf(c, x), rest[0], rest[1..]);
    WeightLaws(rest[0], rest[0], c, x);
    WeightLaws(last, last, c, x);
  }

  // The group that is rebuilt at t has no stale leaf (best), or at least none that makes it slower.
  ghost predicate Harmless(t: Tree, k: Costs, stale: set<Node>, best: bool)
    requires t.Inner?
  {
    if best then DirectStale(t, stale) == {} else MeetsAnyway(t, k, stale)
  }

  // The rebuilding of a group is final at its root, if that is the root of the tree, and otherwise at the children of
  // its root, which is not rebuilt itself. CleanChild: t hangs below a node of operator op, where it is final, or is
  // the root and op its own. CleanIn: t is rebuilt again, with the group of op above it. CleanTop: t is not rebuilt.
  ghost predicate CleanTop(t: Tree, k: Costs, stale: set<Node>, best: bool)
    decreases t, 0
  {
    t.Inner? ==> CleanChild(t.l, t.n.op, k, stale, best) && CleanChild(t.r, t.n.op, k, stale, best)
  }

  ghost predicate CleanChild(t: Tree, op: Opcode, k: Costs, stale: set<Node>, best: bool)
    decreases t, 2
  {
    (InGroup(t, op) ==> Harmless(t, k, stale, best)) && CleanIn(t, op, k, stale, best)
  }

  ghost predicate CleanIn(t: Tree, op: Opcode, k: Costs, stale: set<Node>, best: bool)
    decreases t, 1
  {
    if InGroup(t, op) then CleanIn(t.l, op, k, stale, best) && CleanIn(t.r, op, k, stale, best)
    else CleanTop(t, k, stale, best)
  }

  // In some order the values of a are no later than those of b.
  ghost predicate NoLater(a: seq<real>, b: seq<real>) {
    exists s: seq<real> :: Arranged(s, a, b)
  }

  ghost predicate Arranged(s: seq<real>, a: seq<real>, b: seq<real>) {
    |s| == |b| && multiset(s) == multiset(a) && forall i :: 0 <= i < |s| ==> s[i] <= b[i]
  }

  lemma NoLaterPerm(a: seq<real>, a': seq<real>, b: seq<real>)
    requires NoLater(a, b) && multiset(a) == multiset(a')
    ensures NoLater(a', b)
  {
    var s :| Arranged(s, a, b);
    assert Arranged(s, a', b);
  }

  lemma NoLaterBoth(a: seq<real>, b: seq<real>, a': seq<real>, b': seq<real>)
    requires NoLater(a, b) && NoLater(a', b')
    ensures NoLater(a + a', b + b')
  {
    var s :| Arranged(s, a, b);
    var s' :| Arranged(s', a', b');
    assert Arranged(s + s', a + a', b + b');
  }

  lemma NoLaterOne(x: real, y: real)
    requires x <= y
    ensures NoLater([x], [y])
  {
    assert Arranged([x], [x], [y]);
  }

  // The same tree with other times at its leaves.
  ghost function WithTips(s: Shape, tips: seq<real>): (r: Shape)
    requires |tips| == |Tips(s)|
    ensures Tips(r) == tips
  {
    match s
    case Tip(_) => assert tips == [tips[0]]; Tip(tips[0])
    case Fork(l, r) =>
      var n := |Tips(l)|;
      assert tips == tips[..n] + tips[n..];
      Fork(WithTips(l, tips[..n]), WithTips(r, tips[n..]))
  }

  lemma {:induction false} WithTipsNoHigher(s: Shape, tips: seq<real>, c: real)
    requires |tips| == |Tips(s)| && forall i :: 0 <= i < |tips| ==> tips[i] <= Tips(s)[i]
    ensures Height(WithTips(s, tips), c) <= Height(s, c)
  {
    match s
    case Tip(_) =>
    case Fork(l, r) =>
      var n := |Tips(l)|;
      forall i | 0 <= i < |tips| - n ensures tips[n..][i] <= Tips(r)[i] {
        assert Tips(s)[n + i] == Tips(r)[i];
      }
      WithTipsNoHigher(l, tips[..n], c);
      WithTipsNoHigher(r, tips[n..], c);
  }

  // A best group over earlier leaves is no slower.
  lemma BestIsNoSlower(t: Tree, t': Tree, op: Opcode, k: Costs)
    requires Best(t', op, k) && NoLater(Lats(Frontier(t', op), k), Lats(Frontier(t, op), k))
    ensures Lat(t', k) <= Lat(t, k)
  {
    var s :| Arranged(s, Lats(Frontier(t', op), k), Lats(Frontier(t, op), k));
    GroupShape(t, op, k);
    WithTipsNoHigher(ShapeOf(t, op, k), s, InstructionLatency(op, k));
  }

  // Earlier leaves meet every deadline after the worst first merge that later ones meet.
  lemma WorstEarlier(a: seq<real>, b: seq<real>, c: real, x: real)
    requires NoLater(a, b) && NonNegative(a) && b != [] && c >= 0.0 && Fits(Worst(b, c), c, x)
    ensures a != [] && Fits(Worst(a, c), c, x)
  {
    var s :| Arranged(s, a, b);
    NonNegativePerm(a, s);
    var j := LowestAt(b);
    var u := SwapLowest(s, b, j);
    NonNegativePerm(s, u);
    WorstFitsEarlier(u, b, j, c, x);
    WorstAt(u, j, c, x);
    WorstPerm(u, a, c, x);
  }

  lemma WorstAt(u: seq<real>, j: nat, c: real, x: real)
    requires j < |u| && AtLeast(u, u[j]) && c >= 0.0
    requires Fits(u[..j] + u[j + 1..] + [MaxReal(100000.0, u[j]) + c], c, x)
    ensures Fits(Worst(u, c), c, x)
  {
    TakeOut(u, j);
    var rest := u[..j] + u[j + 1..];
    assert multiset([u[j]] + rest) == multiset{u[j]} + multiset(rest);
    forall i | 0 <= i < |rest| ensures u[j] <= rest[i] {
      assert rest[i] == if i < j then u[i] else u[i + 1];
    }
    WorstIs(u, u[j], rest, c, x);
  }

  // Brings a lowest value of s to the place of a lowest value of b.
  lemma SwapLowest(s: seq<real>, b: seq<real>, j: nat) returns (u: seq<real>)
    requires |s| == |b| && j < |b| && AtLeast(b, b[j]) && forall i :: 0 <= i < |s| ==> s[i] <= b[i]
    ensures |u| == |b| && multiset(u) == multiset(s) && AtLeast(u, u[j])
    ensures forall i :: 0 <= i < |u| ==> u[i] <= b[i]
  {
    var i := LowestAt(s);
    u := s[i := s[j]][j := s[i]];
  }

  lemma WorstFitsEarlier(u: seq<real>, b: seq<real>, j: nat, c: real, x: real)
    requires |u| == |b| && j < |u| && j == LowestAt(b) && NonNegative(u) && c >= 0.0
    requires (forall i :: 0 <= i < |u| ==> u[i] <= b[i]) && Fits(Worst(b, c), c, x)
    ensures Fits(u[..j] + u[j + 1..] + [MaxReal(100000.0, u[j]) + c], c, x)
  {
    var v := u[..j] + u[j + 1..] + [MaxReal(100000.0, u[j]) + c];
    forall i | 0 <= i < |v| ensures 0.0 <= v[i] <= Worst(b, c)[i] {
      if i < j {
        assert v[i] == u[i];
      } else if i < |u| - 1 {
        assert v[i] == u[i + 1];
      }
    }
    FitsEarlier(v, Worst(b, c), c, x);
  }

  // What the reduction makes of t below a node of operator op, with these leaves stale at the start.
  ghost predicate Improved(t: Tree, t': Tree, op: Opcode, k: Costs, stale: set<Node>) {
    (CleanIn(t, op, k, stale, false) ==> NoLater(Lats(Frontier(t', op), k), Lats(Frontier(t, op), k))) &&
    (CleanIn(t, op, k, stale, true) ==> OptimisedIn(t', op, k)) &&
    (CleanChild(t, op, k, stale, false) ==> Lat(t', k) <= Lat(t, k)) &&
    (CleanChild(t, op, k, stale, true) ==> OptimisedChild(t', op, k))
  }

  lemma SingleFrontier(t: Tree, op: Opcode, k: Costs)
    requires !InGroup(t, op)
    ensures Lats(Frontier(t, op), k) == [Lat(t, k)]
  {
  }

  lemma ImprovedLeaf(t: Tree, op: Opcode, k: Costs, stale: set<Node>)
    requires t.Leaf?
    ensures Improved(t, t, op, k, stale)
  {
    SingleFrontier(t, op, k);
    NoLaterOne(Lat(t, k), Lat(t, k));
  }

  // A node that is not rebuilt itself.
  lemma ImprovedTop(t: Tree, l: Tree, r: Tree, op: Opcode, k: Costs, stale: set<Node>)
    requires t.Inner? && !InGroup(t, op)
    requires Improved(t.l, l, t.n.op, k, stale) && Improved(t.r, r, t.n.op, k, stale)
    ensures Improved(t, Inner(t.n, l, r), op, k, stale)
  {
    var m := Inner(t.n, l, r);
    SingleFrontier(t, op, k);
    SingleFrontier(m, op, k);
    if CleanTop(t, k, stale, false) {
      assert Lat(l, k) <= Lat(t.l, k) && Lat(r, k) <= Lat(t.r, k);
      NoLaterOne(Lat(m, k), Lat(t, k));
    }
    if CleanTop(t, k, stale, true) {
      assert OptimisedChild(l, t.n.op, k) && OptimisedChild(r, t.n.op, k);
      OptimisedLeaf(m, op, k);
    }
  }

  // What a group is before it is rebuilt: its subtrees have been reduced.
  ghost predicate ReducedBelow(t: Tree, m: Tree, k: Costs, stale: set<Node>) {
    t.Inner? && m.Inner? && m.n == t.n && Proper(m) && AllPhi(stale) &&
    (t.l.Leaf? ==> m.l == t.l) && (t.r.Leaf? ==> m.r == t.r) &&
    (m.l.Leaf? ==> t.l.Leaf?) && (m.r.Leaf? ==> t.r.Leaf?) &&
    Improved(t.l, m.l, t.n.op, k, stale) && Improved(t.r, m.r, t.n.op, k, stale)
  }

  // A run of the merge loop on the group at the top of m.
  ghost predicate Rebuilds(h: Merges, m: Tree, t': Tree, k: Costs, stale: set<Node>) {
    m.Inner? && Allowed(h, k, DirectStale(m, stale)) && Regroups(h, m, t', m.n.op)
  }

  lemma GroupLeaves(t: Tree, m: Tree, h: Merges, t': Tree, k: Costs, stale: set<Node>)
    requires ReducedBelow(t, m, k, stale) && Rebuilds(h, m, t', k, stale) && CleanIn(t, t.n.op, k, stale, false)
    ensures NoLater(Lats(Frontier(t', t.n.op), k), Lats(Frontier(t, t.n.op), k))
  {
    var op := t.n.op;
    NoLaterBoth(Lats(Frontier(m.l, op), k), Lats(Frontier(t.l, op), k),
                Lats(Frontier(m.r, op), k), Lats(Frontier(t.r, op), k));
    LatsAppend(Frontier(m.l, op), Frontier(m.r, op), k);
    LatsAppend(Frontier(t.l, op), Frontier(t.r, op), k);
    RebuiltFrontier(m, op, h, t');
    LatsPerm(Frontier(m, op), Frontier(t', op), k);
    NoLaterPerm(Lats(Frontier(m, op), k), Lats(Frontier(t', op), k), Lats(Frontier(t, op), k));
  }

  lemma LatsAppend(a: seq<Tree>, b: seq<Tree>, k: Costs)
    ensures Lats(a + b, k) == Lats(a, k) + Lats(b, k)
  {
    MapAppend(LatOf(k), a, b);
  }

  // Without a stale leaf the rebuilt group is the best one.
  lemma GroupBest(m: Tree, h: Merges, t': Tree, k: Costs, stale: set<Node>)
    requires Rebuilds(h, m, t', k, stale) && DirectStale(m, stale) == {}
    ensures Best(t', m.n.op, k)
  {
    AllowedIsGreedy(h, k, {});
    RebuiltFrontier(m, m.n.op, h, t');
    RebuiltBest(m, m.n.op, h, t', k);
  }

  // One of the two children of m is a stale phi leaf; the leaves of the other one are the others.
  lemma OtherLeaves(m: Tree, op: Opcode, a: Tree, b: Tree, f: seq<Tree>)
    requires m.Inner? && Proper(m) && InGroup(m, op) && a.Leaf? && ((a, b) == (m.l, m.r) || (a, b) == (m.r, m.l))
    requires multiset(f) == multiset(Frontier(m, op))
    ensures PhiAnd(f, a.n, Frontier(b, op))
  {
    InnerApart(m.n, m.l, m.r);
    assert Frontier(a, op) == [a];
    assert multiset(Frontier(m, op)) == multiset(Frontier(m.l, op)) + multiset(Frontier(m.r, op));
    assert multiset([a] + Frontier(b, op)) == multiset{a} + multiset(Frontier(b, op));
    if a in Frontier(b, op) {
      FrontierMember(b, op, a);
    }
  }

  // With one stale phi the rebuilt group meets what the worst first merge meets, also over later leaves w.
  lemma GroupMeets(m: Tree, h: Merges, t': Tree, k: Costs, stale: set<Node>, a: Tree, b: Tree, w: seq<real>, x: real)
    requires Rebuilds(h, m, t', k, stale) && Proper(m) && ((a, b) == (m.l, m.r) || (a, b) == (m.r, m.l))
    requires a.Leaf? && a.n.phi && DirectStale(m, stale) == {a.n} && NoLater(Lats(Frontier(b, m.n.op), k), w)
    requires w != [] && Fits(Worst(w, InstructionLatency(m.n.op, k)), InstructionLatency(m.n.op, k), x)
    ensures Lat(t', k) <= x
  {
    var op, f := m.n.op, CollectedLeaves([m], m.n.op);
    Collected(m, op);
    OtherLeaves(m, op, a, b, f);
    LatsNonNegative(Frontier(b, op), k);
    WorstEarlier(Lats(Frontier(b, op), k), w, InstructionLatency(op, k), x);
    AllowedIsGreedy(h, k, {a.n});
    StaleRunMeets(h, f, Frontier(b, op), t', op, k, a.n, x);
  }

  // Two stale phis can only be merged with each other.
  lemma TwoLeaves(m: Tree, h: Merges, t': Tree, k: Costs, stale: set<Node>)
    requires Rebuilds(h, m, t', k, stale) && m.l.Leaf? && m.r.Leaf? && m.l.n.phi && m.r.n.phi
    ensures Lat(t', k) <= Lat(m, k)
  {
    RebuiltFrontier(m, m.n.op, h, t');
    PairFrontier(m);
    PairGroup(t', m.n.op, m.l, m.r);
    PhiPair(m, k);
    PhiPair(t', k);
  }

  lemma PairFrontier(m: Tree)
    requires m.Inner? && m.l.Leaf? && m.r.Leaf?
    ensures Frontier(m, m.n.op) == [m.l, m.r]
  {
  }

  lemma PhiPair(t: Tree, k: Costs)
    requires t.Inner? && t.l.Leaf? && t.r.Leaf? && t.l.n.phi && t.r.n.phi
    ensures Lat(t, k) == 100000.0 + InstructionLatency(t.n.op, k)
  {
  }

  lemma PairGroup(t: Tree, op: Opcode, a: Tree, b: Tree)
    requires multiset(Frontier(t, op)) == multiset([a, b])
    ensures InGroup(t, op) && t.l in {a, b} && t.r in {a, b}
  {
    SameLength(Frontier(t, op), [a, b]);
    PermElements([a, b], Frontier(t, op));
    assert |Frontier(t.l, op)| == 1 && |Frontier(t.r, op)| == 1;
    OneLeaf(t.l, op);
    OneLeaf(t.r, op);
    assert Frontier(t, op) == [t.l] + [t.r];
    assert t.l in Frontier(t, op) && t.r in Frontier(t, op);
  }

  lemma OneLeaf(t: Tree, op: Opcode)
    requires |Frontier(t, op)| == 1
    ensures Frontier(t, op) == [t]
  {
    if InGroup(t, op) {
      assert |Frontier(t.l, op)| >= 1 && |Frontier(t.r, op)| >= 1;
    }
  }

  lemma StaleKids(t: Tree, m: Tree, k: Costs, stale: set<Node>)
    requires ReducedBelow(t, m, k, stale)
    ensures DirectStale(m, stale) == DirectStale(t, stale)
    ensures StaleChild(t.l, stale) && !StaleChild(t.r, stale) ==> DirectStale(m, stale) == {m.l.n}
    ensures StaleChild(t.r, stale) && !StaleChild(t.l, stale) ==> DirectStale(m, stale) == {m.r.n}
    ensures !StaleChild(t.l, stale) && !StaleChild(t.r, stale) ==> DirectStale(m, stale) == {}
    ensures StaleChild(t.l, stale) ==> m.l == t.l && m.l.Leaf? && m.l.n in stale && m.l.n.phi
    ensures StaleChild(t.r, stale) ==> m.r == t.r && m.r.Leaf? && m.r.n in stale && m.r.n.phi
  {
  }

  lemma GroupNoSlower(t: Tree, m: Tree, h: Merges, t': Tree, k: Costs, stale: set<Node>)
    requires ReducedBelow(t, m, k, stale) && Rebuilds(h, m, t', k, stale)
    requires CleanIn(t, t.n.op, k, stale, false) && MeetsAnyway(t, k, stale)
    ensures Lat(t', k) <= Lat(t, k)
  {
    if StaleChild(t.l, stale) != StaleChild(t.r, stale) {
      GroupOneStale(t, m, h, t', k, stale);
    } else if StaleChild(t.l, stale) {
      StaleKids(t, m, k, stale);
      TwoLeaves(m, h, t', k, stale);
    } else {
      StaleKids(t, m, k, stale);
      GroupLeaves(t, m, h, t', k, stale);
      GroupBest(m, h, t', k, stale);
      BestIsNoSlower(t, t', t.n.op, k);
    }
  }

  lemma OneStaleLatency(t: Tree, k: Costs, stale: set<Node>)
    requires t.Inner? && AllPhi(stale) && StaleChild(t.l, stale) != StaleChild(t.r, stale)
    ensures Lat(t, k) == NextToPhi(if StaleChild(t.l, stale) then t.r else t.l, t.n.op, k)
  {
  }

  lemma GroupOneStale(t: Tree, m: Tree, h: Merges, t': Tree, k: Costs, stale: set<Node>)
    requires ReducedBelow(t, m, k, stale) && Rebuilds(h, m, t', k, stale)
    requires CleanIn(t, t.n.op, k, stale, false) && MeetsAnyway(t, k, stale)
    requires StaleChild(t.l, stale) != StaleChild(t.r, stale)
    ensures Lat(t', k) <= Lat(t, k)
  {
    StaleKids(t, m, k, stale);
    var left := StaleChild(t.l, stale);
    var a, b, b0 := if left then m.l else m.r, if left then m.r else m.l, if left then t.r else t.l;
    assert CleanIn(b0, t.n.op, k, stale, false);
    DelayedIsExact(b0, t.n.op, k);
    OneStaleLatency(t, k, stale);
    GroupMeets(m, h, t', k, stale, a, b, Lats(Frontier(b0, t.n.op), k), Lat(t, k));
  }

  lemma GroupSlowHalf(t: Tree, m: Tree, h: Merges, t': Tree, k: Costs, stale: set<Node>)
    requires ReducedBelow(t, m, k, stale) && Rebuilds(h, m, t', k, stale)
    ensures CleanIn(t, t.n.op, k, stale, false) ==> NoLater(Lats(Frontier(t', t.n.op), k), Lats(Frontier(t, t.n.op), k))
    ensures CleanChild(t, t.n.op, k, stale, false) ==> Lat(t', k) <= Lat(t, k)
  {
    if CleanIn(t, t.n.op, k, stale, false) {
      GroupLeaves(t, m, h, t', k, stale);
      if MeetsAnyway(t, k, stale) {
        GroupNoSlower(t, m, h, t', k, stale);
      }
    }
  }

  lemma GroupBestHalf(t: Tree, m: Tree, h: Merges, t': Tree, k: Costs, stale: set<Node>)
    requires ReducedBelow(t, m, k, stale) && Rebuilds(h, m, t', k, stale)
    ensures CleanIn(t, t.n.op, k, stale, true) ==> OptimisedIn(t', t.n.op, k)
    ensures CleanChild(t, t.n.op, k, stale, true) ==> OptimisedChild(t', t.n.op, k)
  {
    if CleanIn(t, t.n.op, k, stale, true) {
      GroupOptimised(t, m, h, t', k, stale);
      StaleKids(t, m, k, stale);
      if DirectStale(t, stale) == {} {
        GroupBest(m, h, t', k, stale);
      }
    }
  }

  // A group that is rebuilt.
  lemma ImprovedGroup(t: Tree, m: Tree, h: Merges, t': Tree, k: Costs, stale: set<Node>)
    requires ReducedBelow(t, m, k, stale) && Rebuilds(h, m, t', k, stale)
    ensures Improved(t, t', t.n.op, k, stale)
  {
    GroupSlowHalf(t, m, h, t', k, stale);
    GroupBestHalf(t, m, h, t', k, stale);
  }

  lemma GroupOptimised(t: Tree, m: Tree, h: Merges, t': Tree, k: Costs, stale: set<Node>)
    requires ReducedBelow(t, m, k, stale) && Rebuilds(h, m, t', k, stale) && CleanIn(t, t.n.op, k, stale, true)
    ensures OptimisedIn(t', t.n.op, k)
  {
    assert OptimisedIn(m, t.n.op, k);
    RebuiltFrontier(m, t.n.op, h, t');
    OptimisedPerm(m, t', t.n.op, k);
  }

  // The other half, for a group with one stale phi child a: the runs from its leaves all meet a deadline if and only
  // if it is met after the worst first merge.
  lemma StaleGroupExact(m: Tree, k: Costs, stale: set<Node>, a: Tree, b: Tree, x: real)
    requires m.Inner? && Proper(m) && a.Leaf? && a.n.phi && ((a, b) == (m.l, m.r) || (a, b) == (m.r, m.l))
    requires DirectStale(m, stale) == {a.n}
    ensures var c := InstructionLatency(m.n.op, k);
      Fits(Worst(Lats(Frontier(b, m.n.op), k), c), c, x) <==>
      forall h: Merges, t': Tree :: Rebuilds(h, m, t', k, stale) ==> Lat(t', k) <= x
  {
    var op, f, spare := m.n.op, CollectedLeaves([m], m.n.op), CollectedNodes([m], m.n.op);
    Collected(m, op);
    OtherLeaves(m, op, a, b, f);
    CollectedArithmetic(m, op);
    StaleDeadline(f, Frontier(b, op), spare, op, k, a.n, x);
    forall h: Merges, t': Tree
      ensures Rebuilds(h, m, t', k, stale) <==> Run(h, f, spare, t', op, k, {a.n})
    {
    }
  }

  lemma DelayedLatency(t: Tree, k: Costs, stale: set<Node>)
    requires t.Inner? && AllPhi(stale) && !MeetsAnyway(t, k, stale)
    ensures var c := InstructionLatency(t.n.op, k);
      c > 0.0 && Lat(t, k) < 100000.0 + c + c
  {
    OneStaleLatency(t, k, stale);
  }

  // Whatever its subtrees have become, a delayed group has a run that makes it slower than the original one, if the
  // other child still continues it.
  lemma DelayedIsSlower(t: Tree, m: Tree, k: Costs, stale: set<Node>)
    requires t.Inner? && m.Inner? && m.n == t.n && Proper(m) && AllPhi(stale) && !MeetsAnyway(t, k, stale)
    requires if StaleChild(t.l, stale) then m.l == t.l && InGroup(m.r, t.n.op) else m.r == t.r && InGroup(m.l, t.n.op)
    ensures exists h: Merges, t': Tree :: Rebuilds(h, m, t', k, stale) && Lat(t', k) > Lat(t, k)
  {
    var op, left := t.n.op, StaleChild(t.l, stale);
    var a, b := if left then m.l else m.r, if left then m.r else m.l;
    assert DirectStale(m, stale) == {a.n};
    DelayedLatency(t, k, stale);
    LatsNonNegative(Frontier(b, op), k);
    LowestEarly(b, op, k);
    NoRoomAfterPhi(Lats(Frontier(b, op), k), InstructionLatency(op, k), Lat(t, k));
    StaleGroupExact(m, k, stale, a, b, Lat(t, k));
  }

  // What becomes of the subtrees of a group: its top stays, and children continue it as before.
  ghost predicate SameKids(t: Tree, m: Tree) {
    t.Inner? && m.Inner? && (InGroup(t.l, t.n.op) ==> InGroup(m.l, t.n.op)) &&
    (InGroup(t.r, t.n.op) ==> InGroup(m.r, t.n.op))
  }

  // So over reduced subtrees that are clean a group is never slower if and only if no stale child delays it.
  lemma NoSlowerIsExact(t: Tree, m: Tree, k: Costs, stale: set<Node>)
    requires ReducedBelow(t, m, k, stale) && SameKids(t, m) && CleanIn(t, t.n.op, k, stale, false)
    ensures MeetsAnyway(t, k, stale) <==>
      forall h: Merges, t': Tree :: Rebuilds(h, m, t', k, stale) ==> Lat(t', k) <= Lat(t, k)
  {
    if MeetsAnyway(t, k, stale) {
      forall h: Merges, t': Tree | Rebuilds(h, m, t', k, stale)
        ensures Lat(t', k) <= Lat(t, k)
      {
        GroupNoSlower(t, m, h, t', k, stale);
      }
    } else {
      DelayedIsSlower(t, m, k, stale);
    }
  }

  ghost predicate OneOperator(t: Tree, op: Opcode) {
    t.Inner? ==> t.n.op == op && OneOperator(t.l, op) && OneOperator(t.r, op)
  }

  // In a tree of one operator only the children of the root matter. An accumulator, with its phi below the root, is
  // never slower, and the best tree over its leaves.
  lemma {:induction false} OneOperatorClean(t: Tree, op: Opcode, k: Costs, stale: set<Node>, best: bool)
    requires OneOperator(t, op)
    ensures CleanIn(t, op, k, stale, best)
    ensures CleanChild(t, op, k, stale, best) <==> (t.Inner? ==> Harmless(t, k, stale, best))
  {
    if t.Inner? {
      OneOperatorClean(t.l, op, k, stale, best);
      OneOperatorClean(t.r, op, k, stale, best);
    }
  }

  // Without stale leaves every tree is clean.
  lemma {:induction false} NoneStaleClean(t: Tree, op: Opcode, k: Costs, best: bool)
    ensures CleanChild(t, op, k, {}, best) && CleanIn(t, op, k, {}, best) && CleanTop(t, k, {}, best)
  {
    if t.Inner? {
      NoneStaleClean(t.l, op, k, best);
      NoneStaleClean(t.r, op, k, best);
      NoneStaleClean(t.l, t.n.op, k, best);
      NoneStaleClean(t.r, t.n.op, k, best);
    }
  }

  // What a node becomes, below a node of operator op, whose subtrees have been reduced.
  ghost predicate TopOutcome(h: Merges, m: Tree, t': Tree, op: Opcode, k: Costs, stale: set<Node>) {
    if InGroup(m, op) then Rebuilds(h, m, t', k, stale) else t' == m
  }

  // A history of the reduction: those of both subtrees, what they have become, and that of the group at the top.
  datatype Reduction = AtLeaf | AtNode(l: Reduction, left: Tree, r: Reduction, right: Tree, h: Merges)

  // The trees t' that the reduction may make of t below a node of operator op, or of a root with op its own.
  ghost predicate Outcome(d: Reduction, t: Tree, t': Tree, op: Opcode, k: Costs, stale: set<Node>)
    decreases t
  {
    match t
    case Leaf(_) => t' == t
    case Inner(n, tl, tr) =>
      d.AtNode? && Outcome(d.l, tl, d.left, n.op, k, stale) && Outcome(d.r, tr, d.right, n.op, k, stale) &&
      TopOutcome(d.h, Inner(n, d.left, d.right), t', op, k, stale)
  }

  lemma TopReduced(t: Tree, m: Tree, h: Merges, t': Tree, op: Opcode, k: Costs, stale: set<Node>)
    requires Reduced(t, m) && t.Inner? && TopOutcome(h, m, t', op, k, stale)
    ensures Reduced(t, t')
  {
    if InGroup(m, op) {
      RegroupsReduced(m, op, h, t');
    }
  }

  lemma {:induction false} KidsOutcome(d: Reduction, t: Tree, t': Tree, op: Opcode, k: Costs, stale: set<Node>)
    requires Proper(t) && t.Inner? && Outcome(d, t, t', op, k, stale)
    ensures d.AtNode? && Proper(t.l) && Proper(t.r)
    ensures Reduced(t.l, d.left) && Reduced(t.r, d.right)
    decreases t, 0
  {
    ChildrenDistinct(t);
    OutcomeReduced(d.l, t.l, d.left, t.n.op, k, stale);
    OutcomeReduced(d.r, t.r, d.right, t.n.op, k, stale);
  }

  lemma {:induction false} OutcomeReduced(d: Reduction, t: Tree, t': Tree, op: Opcode, k: Costs, stale: set<Node>)
    requires Proper(t) && Outcome(d, t, t', op, k, stale)
    ensures Reduced(t, t')
    decreases t, 1
  {
    if t.Inner? {
      KidsOutcome(d, t, t', op, k, stale);
      ReducedInner(t, d.left, d.right);
      TopReduced(t, Inner(t.n, d.left, d.right), d.h, t', op, k, stale);
    }
  }

  lemma ReducedKind(t: Tree, t': Tree)
    requires Reduced(t, t')
    ensures t.Leaf? ==> t' == t
    ensures t.Inner? ==> t'.Inner?
  {
  }

  // The subtrees of a node after their reduction.
  lemma KidsReduced(t: Tree, l: Tree, r: Tree, k: Costs, stale: set<Node>)
    requires Proper(t) && t.Inner? && AllPhi(stale) && Reduced(t.l, l) && Reduced(t.r, r)
    requires Improved(t.l, l, t.n.op, k, stale) && Improved(t.r, r, t.n.op, k, stale)
    ensures ReducedBelow(t, Inner(t.n, l, r), k, stale) && SameKids(t, Inner(t.n, l, r))
  {
    ReducedInner(t, l, r);
    ReducedKind(t.l, l);
    ReducedKind(t.r, r);
  }

  lemma TopImproved(t: Tree, m: Tree, h: Merges, t': Tree, op: Opcode, k: Costs, stale: set<Node>)
    requires ReducedBelow(t, m, k, stale) && TopOutcome(h, m, t', op, k, stale)
    ensures Improved(t, t', op, k, stale)
  {
    if InGroup(t, op) {
      ImprovedGroup(t, m, h, t', k, stale);
    } else {
      ImprovedTop(t, m.l, m.r, op, k, stale);
    }
  }

  // No outcome is slower than a clean tree, and every one is optimal where nothing is stale.
  lemma {:induction false} OutcomeImproved(d: Reduction, t: Tree, t': Tree, op: Opcode, k: Costs, stale: set<Node>)
    requires Proper(t) && AllPhi(stale) && Outcome(d, t, t', op, k, stale)
    ensures Improved(t, t', op, k, stale)
  {
    if t.Leaf? {
      ImprovedLeaf(t, op, k, stale);
    } else {
      KidsOutcome(d, t, t', op, k, stale);
      OutcomeImproved(d.l, t.l, d.left, t.n.op, k, stale);
      OutcomeImproved(d.r, t.r, d.right, t.n.op, k, stale);
      KidsReduced(t, d.left, d.right, k, stale);
      TopImproved(t, Inner(t.n, d.left, d.right), d.h, t', op, k, stale);
    }
  }

  // Without stale leaves no outcome is slower, and every one is optimal.
  lemma NoneStaleImproves(d: Reduction, t: Tree, t': Tree, op: Opcode, k: Costs)
    requires Proper(t) && Outcome(d, t, t', op, k, {})
    ensures Lat(t', k) <= Lat(t, k) && OptimisedChild(t', op, k)
  {
    OutcomeImproved(d, t, t', op, k, {});
    NoneStaleClean(t, op, k, false);
    NoneStaleClean(t, op, k, true);
  }
}
