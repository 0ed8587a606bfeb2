// What a stale phi leaf costs: the merge loop takes it for a leaf that is ready at 0, so some run merges it with a
// lowest leaf first. No other run of the loop is worse, so this one decides which deadlines are met.
module ThrStale {
  import opened Collections
  import opened ThrTree
  import opened ThrGreedy
  import opened ThrGroups

  ghost function LowestAt(g: seq<real>): (i: nat)
    requires g != []
    ensures i < |g| && forall j :: 0 <= j < |g| ==> g[i] <= g[j]
  {
    if |g| == 1 then 0
    else
      var j := LowestAt(g[1..]);
      assert forall i :: 1 <= i < |g| ==> g[i] == g[1..][i - 1];
      if g[0] <= g[j + 1] then 0 else j + 1
  }

  // The other leaves of the group are ready at g: a lowest of them is merged with the phi, the others wait.
  ghost function Worst(g: seq<real>, c: real): seq<real>
    requires g != []
  {
    var i := LowestAt(g);
    g[..i] + g[i + 1..] + [MaxReal(100000.0, g[i]) + c]
  }

  ghost predicate AtLeast(g: seq<real>, y: real) {
    forall i :: 0 <= i < |g| ==> y <= g[i]
  }

  lemma AtLeastPerm(g: seq<real>, g': seq<real>, y: real)
    requires multiset(g) == multiset(g') && AtLeast(g, y)
    ensures AtLeast(g', y)
  {
    forall i | 0 <= i < |g'| ensures y <= g'[i] {
      assert g'[i] in multiset(g);
      var j :| 0 <= j < |g| && g[j] == g'[i];
    }
  }

  // Any lowest value gives the same answer.
  lemma WorstIs(g: seq<real>, y: real, rest: seq<real>, c: real, x: real)
    requires multiset(g) == multiset([y] + rest) && AtLeast(rest, y) && c >= 0.0
    ensures g != [] && Fits(Worst(g, c), c, x) == Fits(rest + [MaxReal(100000.0, y) + c], c, x)
  {
    LowestIs(g, y, rest);
    var i := LowestAt(g);
    TakeOut(g, i);
    var last := MaxReal(100000.0, y) + c;
    SameRest(g[..i] + g[i + 1..], y, rest, g, last);
    assert Worst(g, c) == g[..i] + g[i + 1..] + [last];
    FitsPerm(Worst(g, c), rest + [last], c, x);
  }

  lemma LowestIs(g: seq<real>, y: real, rest: seq<real>)
    requires multiset(g) == multiset([y] + rest) && AtLeast(rest, y)
    ensures g != [] && g[LowestAt(g)] == y
  {
    assert ([y] + rest)[0] in multiset(g);
    var j :| 0 <= j < |g| && g[j] == y;
    AtLeastPerm([y] + rest, g, y);
  }

  // Earlier values meet every deadline that later ones meet.
  lemma {:induction false} FitsEarlier(a: seq<real>, b: seq<real>, c: real, x: real)
    requires |a| == |b| && NonNegative(a) && c >= 0.0 && Fits(b, c, x)
    requires forall i :: 0 <= i < |a| ==> a[i] <= b[i]
    ensures Fits(a, c, x)
  {
    if c > 0.0 {
      EarlierWeighsLess(a, b, c, x);
    }
  }

  lemma {:induction false} EarlierWeighsLess(a: seq<real>, b: seq<real>, c: real, x: real)
    requires |a| == |b| && NonNegative(a) && c > 0.0
    requires forall i :: 0 <= i < |a| ==> a[i] <= b[i]
    ensures SumBy(WeightOf(c, x), a) <= SumBy(WeightOf(c, x), b)
  {
    if a != [] {
      WeightLaws(a[0], b[0], c, x);
      EarlierWeighsLess(a[1..], b[1..], c, x);
    }
  }

  // Fewer values meet every deadline that more values meet.
  lemma FitsFewer(y: real, a: seq<real>, c: real, x: real)
    requires c >= 0.0 && Fits([y] + a, c, x)
    ensures Fits(a, c, x)
  {
    if c > 0.0 {
      SumByCons(WeightOf(c, x), y, a);
    } else {
      forall i | 0 <= i < |a| ensures a[i] <= x {
        assert ([y] + a)[i + 1] == a[i];
      }
    }
  }

  // Merging two lowest values, wherever they are in the list.
  lemma MergeAnywhere(g: seq<real>, a: real, b: real, rest: seq<real>, c: real, x: real)
    requires multiset(g) == multiset([a, b] + rest) && c >= 0.0 && Fits(g, c, x)
    requires 0.0 <= a <= b && AtLeast(rest, b)
    ensures Fits(rest + [b + c], c, x)
  {
    var s := [a, b] + rest;
    FitsPerm(g, s, c, x);
    assert s[2..] == rest;
    MergeFits(s, c, x);
  }

  // Merging two leaves that are ready at 0 before the phi is no worse than merging the phi with one of them.
  lemma ZeroPair(rest: seq<real>, c: real, x: real)
    requires NonNegative(rest) && c >= 0.0 && Fits([0.0] + rest + [100000.0 + c], c, x)
    ensures Fits(Worst([c] + rest, c), c, x)
  {
    if AtLeast(rest, c) {
      var last := MaxReal(100000.0, c) + c;
      ZeroPairFirst(rest, c, x, last);
      WorstEnds([c] + rest, c, rest, c, x, last);
    } else {
      var i := LowestAt(rest);
      LowestFirst(rest[..i] + rest[i + 1..], rest[i], rest, c, x, MaxReal(100000.0, rest[i]) + c);
    }
  }

  // Another leaf r than the new pair is a lowest one.
  lemma LowestFirst(others: seq<real>, r: real, rest: seq<real>, c: real, x: real, last: real)
    requires rest != [] && r == rest[LowestAt(rest)] && others == rest[..LowestAt(rest)] + rest[LowestAt(rest) + 1..]
    requires 0.0 <= r < c && last == MaxReal(100000.0, r) + c && Fits([0.0] + rest + [100000.0 + c], c, x)
    ensures Fits(Worst([c] + rest, c), c, x)
  {
    TakeOut(rest, LowestAt(rest));
    ZeroPairLater(others, r, rest, c, x, last);
    SwapIn(c, r, rest, others);
    WorstEnds([c] + rest, r, [c] + others, c, x, last);
  }

  // The new pair is the lowest of the others.
  lemma ZeroPairFirst(rest: seq<real>, c: real, x: real, last: real)
    requires AtLeast(rest, c) && c >= 0.0 && Fits([0.0] + rest + [100000.0 + c], c, x)
    requires last == MaxReal(100000.0, c) + c
    ensures Fits(rest + [last], c, x)
  {
    var s := 100000.0 + c;
    if c <= 100000.0 {
      assert last == s && [0.0] + rest + [s] == [0.0] + (rest + [s]);
      FitsFewer(0.0, rest + [s], c, x);
    } else if AtLeast(rest, s) {
      PhiNext(rest, s, c, x);
    } else {
      var i := LowestAt(rest);
      TakeOut(rest, i);
      ZeroPairNext(rest[..i] + rest[i + 1..], rest[i], rest, c, x);
    }
  }

  // 0 is merged with the sum of the phi.
  lemma PhiNext(rest: seq<real>, s: real, c: real, x: real)
    requires AtLeast(rest, s) && 0.0 <= c <= s && Fits([0.0] + rest + [s], c, x)
    ensures Fits(rest + [c + c], c, x)
  {
    Ends(0.0, rest, s);
    MergeAnywhere([0.0] + rest + [s], 0.0, s, rest, c, x);
    FitsEarlier(rest + [c + c], rest + [s + c], c, x);
  }

  lemma SwapIn(c: real, r: real, rest: seq<real>, others: seq<real>)
    requires multiset(rest) == multiset{r} + multiset(others)
    ensures multiset([c] + rest) == multiset([r] + ([c] + others))
    ensures AtLeast(others, r) && r <= c ==> AtLeast([c] + others, r)
  {
  }

  // 0, r and the phi's sum are taken out of the others.
  lemma Sorted3(rest: seq<real>, r: real, others: seq<real>, s: real)
    requires multiset(rest) == multiset{r} + multiset(others)
    ensures multiset([0.0] + rest + [s]) == multiset([0.0, r] + (others + [s]))
  {
    Parts(0.0, r, rest, others, s);
  }

  lemma ZeroPairNext(others: seq<real>, r: real, rest: seq<real>, c: real, x: real)
    requires multiset(rest) == multiset{r} + multiset(others) && AtLeast(others, r)
    requires 100000.0 < c <= r < 100000.0 + c && Fits([0.0] + rest + [100000.0 + c], c, x)
    ensures Fits(rest + [c + c], c, x)
  {
    var p := 100000.0;
    Sorted3(rest, r, others, p + c);
    MergeAnywhere([0.0] + rest + [p + c], 0.0, r, others + [p + c], c, x);
    FitsEarlier(others + [r] + [c + c], others + [p + c] + [r + c], c, x);
    assert multiset(others + [r] + [c + c]) == multiset(rest + [c + c]);
    FitsPerm(others + [r] + [c + c], rest + [c + c], c, x);
  }

  // Another leaf is lower than the new pair.
  lemma ZeroPairLater(others: seq<real>, r: real, rest: seq<real>, c: real, x: real, last: real)
    requires multiset(rest) == multiset{r} + multiset(others) && AtLeast(others, r) && 0.0 <= r < c
    requires last == MaxReal(100000.0, r) + c && Fits([0.0] + rest + [100000.0 + c], c, x)
    ensures Fits([c] + others + [last], c, x)
  {
    var s, u := 100000.0 + c, r + c;
    LowerMerged(others, r, rest, s, c, x);
    if r <= 100000.0 {
      assert last == s;
      LaterBelowPhi(others, s, u, c, x);
    } else {
      assert last == u;
      LaterAbovePhi(others, s, u, c, x);
    }
  }

  lemma LowerMerged(others: seq<real>, r: real, rest: seq<real>, s: real, c: real, x: real)
    requires multiset(rest) == multiset{r} + multiset(others) && AtLeast(others, r) && 0.0 <= r <= s && c >= 0.0
    requires Fits([0.0] + rest + [s], c, x)
    ensures Fits(others + [s] + [r + c], c, x)
  {
    Sorted3(rest, r, others, s);
    MergeAnywhere([0.0] + rest + [s], 0.0, r, others + [s], c, x);
  }

  lemma LaterBelowPhi(others: seq<real>, s: real, u: real, c: real, x: real)
    requires NonNegative(others) && 0.0 <= c <= u && 0.0 <= s && Fits(others + [s] + [u], c, x)
    ensures Fits([c] + others + [s], c, x)
  {
    FitsEarlier(others + [s] + [c], others + [s] + [u], c, x);
    Rotated(others, s, c);
    FitsPerm(others + [s] + [c], [c] + others + [s], c, x);
  }

  lemma LaterAbovePhi(others: seq<real>, s: real, u: real, c: real, x: real)
    requires NonNegative(others) && 0.0 <= c <= s && 0.0 <= u && Fits(others + [s] + [u], c, x)
    ensures Fits([c] + others + [u], c, x)
  {
    FitsEarlier(others + [c] + [u], others + [s] + [u], c, x);
    SwapLast(others, c, u);
    FitsPerm(others + [c] + [u], [c] + others + [u], c, x);
  }

  // The phi leaf first, then the others.
  ghost predicate PhiAnd(p: seq<Tree>, phi: Node, q: seq<Tree>) {
    multiset(p) == multiset([Leaf(phi)] + q) && q != [] && Leaf(phi) !in q
  }

  lemma OthersStored(q: seq<Tree>, phi: Node, k: Costs)
    requires Leaf(phi) !in q
    ensures StoredLats(q, k, {phi}) == Lats(q, k)
  {
    forall i | 0 <= i < |q| ensures StoredLat(q[i], k, {phi}) == Lat(q[i], k) {
      assert q[i] in q;
    }
  }

  // The phi is merged with y, a lowest of the others.
  lemma PhiMerged(q: seq<Tree>, y: Tree, rest: seq<Tree>, m: Tree, k: Costs, c: real, x: real)
    requires multiset(q) == multiset([y] + rest) && AtLeast(Lats(rest, k), Lat(y, k)) && q != []
    requires c >= 0.0 && Lat(m, k) == MaxReal(100000.0, Lat(y, k)) + c && Fits(Worst(Lats(q, k), c), c, x)
    ensures Fits(Lats(rest + [m], k), c, x)
  {
    WorstLats(q, y, rest, k, c, x, Lat(m, k));
    LatsSnoc(rest, m, k);
  }

  lemma WorstLats(q: seq<Tree>, y: Tree, rest: seq<Tree>, k: Costs, c: real, x: real, last: real)
    requires multiset(q) == multiset([y] + rest) && AtLeast(Lats(rest, k), Lat(y, k)) && c >= 0.0
    requires last == MaxReal(100000.0, Lat(y, k)) + c
    ensures Lats(q, k) != [] && Fits(Worst(Lats(q, k), c), c, x) == Fits(Lats(rest, k) + [last], c, x)
  {
    LatsPerm(q, [y] + rest, k);
    LatsCons(y, rest, k);
    WorstEnds(Lats(q, k), Lat(y, k), Lats(rest, k), c, x, last);
  }

  lemma WorstEnds(g: seq<real>, y: real, rest: seq<real>, c: real, x: real, last: real)
    requires multiset(g) == multiset([y] + rest) && AtLeast(rest, y) && c >= 0.0 && last == MaxReal(100000.0, y) + c
    ensures g != [] && Fits(Worst(g, c), c, x) == Fits(rest + [last], c, x)
  {
    WorstIs(g, y, rest, c, x);
  }

  lemma LatsPerm(q: seq<Tree>, p: seq<Tree>, k: Costs)
    requires multiset(q) == multiset(p)
    ensures multiset(Lats(q, k)) == multiset(Lats(p, k))
  {
    MapPerm(LatOf(k), q, p);
  }

  lemma LatsCons(y: Tree, rest: seq<Tree>, k: Costs)
    ensures Lats([y] + rest, k) == [Lat(y, k)] + Lats(rest, k)
  {
  }

  lemma LatsSnoc(rest: seq<Tree>, m: Tree, k: Costs)
    ensures Lats(rest + [m], k) == Lats(rest, k) + [Lat(m, k)]
  {
  }

  // Two of the others that are ready at 0 are merged.
  lemma PairMerged(q: seq<Tree>, a: Tree, b: Tree, rest: seq<Tree>, m: Tree, k: Costs, c: real, x: real)
    requires multiset(q) == multiset([a] + ([b] + rest)) && Lat(a, k) == Lat(b, k) == 0.0 && q != []
    requires c >= 0.0 && Lat(m, k) == c && Fits(Worst(Lats(q, k), c), c, x)
    ensures Fits(Worst(Lats(rest + [m], k), c), c, x)
  {
    LatsNonNegative(rest, k);
    PairLats(q, a, b, rest, k);
    PairWorst(Lats(q, k), Lats(rest, k), c, x);
    LatsSnoc(rest, m, k);
  }

  lemma PairLats(q: seq<Tree>, a: Tree, b: Tree, rest: seq<Tree>, k: Costs)
    requires multiset(q) == multiset([a] + ([b] + rest))
    ensures multiset(Lats(q, k)) == multiset([Lat(a, k)] + ([Lat(b, k)] + Lats(rest, k)))
  {
    LatsPerm(q, [a] + ([b] + rest), k);
    LatsCons(a, [b] + rest, k);
    LatsCons(b, rest, k);
  }

  lemma PairWorst(g: seq<real>, rest: seq<real>, c: real, x: real)
    requires multiset(g) == multiset([0.0] + ([0.0] + rest)) && NonNegative(rest) && c >= 0.0
    requires g != [] && Fits(Worst(g, c), c, x)
    ensures Fits(Worst(rest + [c], c), c, x)
  {
    WorstIs(g, 0.0, [0.0] + rest, c, x);
    ZeroPair(rest, c, x);
    WorstPerm([c] + rest, rest + [c], c, x);
  }

  lemma WorstPerm(g: seq<real>, g': seq<real>, c: real, x: real)
    requires multiset(g) == multiset(g') && g != [] && c >= 0.0
    ensures g' != [] && Fits(Worst(g, c), c, x) == Fits(Worst(g', c), c, x)
  {
    assert g[0] in multiset(g');
    var i := LowestAt(g);
    var rest := g[..i] + g[i + 1..];
    TakeOut(g, i);
    WorstIs(g, g[i], rest, c, x);
    WorstIs(g', g[i], rest, c, x);
  }

  // One step while the phi waits: it is merged, or two others are.
  lemma WaitingStep(p: seq<Tree>, n: Node, q: seq<Tree>, op: Opcode, k: Costs, phi: Node, x: real)
    returns (waiting: bool, q': seq<Tree>)
    requires |p| >= 2 && n.op == op && phi.phi && PhiAnd(p, phi, q) && TwoLowest(StoredLats(p, k, {phi}))
    requires Fits(Worst(Lats(q, k), InstructionLatency(op, k)), InstructionLatency(op, k), x)
    ensures waiting ==> PhiAnd(Merged(p, n), phi, q')
    ensures waiting ==> Fits(Worst(Lats(q', k), InstructionLatency(op, k)), InstructionLatency(op, k), x)
    ensures !waiting ==> Leaf(phi) !in Merged(p, n) && Fits(Lats(Merged(p, n), k), InstructionLatency(op, k), x)
  {
    waiting, q' := false, [];
    if p[0] == Leaf(phi) {
      FirstIsPhi(p, n, q, op, k, phi, x);
    } else if p[1] == Leaf(phi) {
      SecondIsPhi(p, n, q, op, k, phi, x);
    } else {
      waiting := true;
      q' := OthersMerged(p, n, q, op, k, phi, x);
    }
  }

  lemma FirstIsPhi(p: seq<Tree>, n: Node, q: seq<Tree>, op: Opcode, k: Costs, phi: Node, x: real)
    requires |p| >= 2 && n.op == op && phi.phi && PhiAnd(p, phi, q) && TwoLowest(StoredLats(p, k, {phi}))
    requires Fits(Worst(Lats(q, k), InstructionLatency(op, k)), InstructionLatency(op, k), x)
    requires p[0] == Leaf(phi)
    ensures Leaf(phi) !in Merged(p, n) && Fits(Lats(Merged(p, n), k), InstructionLatency(op, k), x)
  {
    var y, rest := p[1], p[2..];
    HeadOut(p, q, phi);
    assert p[1..] == [y] + rest;
    NotAmong(q, [y] + rest, phi);
    OthersStored([y] + rest, phi, k);
    forall i | 0 <= i < |rest| ensures Lat(y, k) <= Lats(rest, k)[i] {
      assert StoredLats(p, k, {phi})[i + 2] == StoredLats([y] + rest, k, {phi})[i + 1];
      assert StoredLats(p, k, {phi})[1] == StoredLats([y] + rest, k, {phi})[0];
    }
    PhiMerged(q, y, rest, Inner(n, p[0], p[1]), k, InstructionLatency(op, k), x);
    NotAmong(q, p[1..], phi);
  }

  lemma HeadOut(p: seq<Tree>, q: seq<Tree>, phi: Node)
    requires PhiAnd(p, phi, q) && p != [] && p[0] == Leaf(phi)
    ensures multiset(q) == multiset(p[1..])
  {
    Cancel(p, q, 0);
    assert p[..0] + p[1..] == p[1..];
  }

  lemma NotAmong(q: seq<Tree>, p: seq<Tree>, phi: Node)
    requires multiset(q) == multiset(p) && Leaf(phi) !in q
    ensures Leaf(phi) !in p
  {
    PermElements(q, p);
  }

  lemma SecondIsPhi(p: seq<Tree>, n: Node, q: seq<Tree>, op: Opcode, k: Costs, phi: Node, x: real)
    requires |p| >= 2 && n.op == op && phi.phi && PhiAnd(p, phi, q) && TwoLowest(StoredLats(p, k, {phi}))
    requires Fits(Worst(Lats(q, k), InstructionLatency(op, k)), InstructionLatency(op, k), x)
    requires p[0] != Leaf(phi) && p[1] == Leaf(phi)
    ensures Leaf(phi) !in Merged(p, n) && Fits(Lats(Merged(p, n), k), InstructionLatency(op, k), x)
  {
    var y, rest := p[0], p[2..];
    SecondOut(p, q, phi);
    NotAmong(q, [y] + rest, phi);
    LatNonNegative(y, k);
    LatsNonNegative(rest, k);
    assert StoredLats(p, k, {phi})[0] <= StoredLats(p, k, {phi})[1] == 0.0;
    assert y in [y] + rest;
    PhiMerged(q, y, rest, Inner(n, p[0], p[1]), k, InstructionLatency(op, k), x);
  }

  lemma SecondOut(p: seq<Tree>, q: seq<Tree>, phi: Node)
    requires PhiAnd(p, phi, q) && |p| >= 2 && p[1] == Leaf(phi)
    ensures multiset(q) == multiset([p[0]] + p[2..])
  {
    Cancel(p, q, 1);
    assert p[..1] + p[2..] == [p[0]] + p[2..];
  }

  lemma OthersMerged(p: seq<Tree>, n: Node, q: seq<Tree>, op: Opcode, k: Costs, phi: Node, x: real)
    returns (q': seq<Tree>)
    requires |p| >= 2 && n.op == op && phi.phi && PhiAnd(p, phi, q) && TwoLowest(StoredLats(p, k, {phi}))
    requires Fits(Worst(Lats(q, k), InstructionLatency(op, k)), InstructionLatency(op, k), x)
    requires p[0] != Leaf(phi) && p[1] != Leaf(phi)
    ensures PhiAnd(Merged(p, n), phi, q')
    ensures Fits(Worst(Lats(q', k), InstructionLatency(op, k)), InstructionLatency(op, k), x)
  {
    var a, b, m := p[0], p[1], Inner(n, p[0], p[1]);
    var rest := LaterOut(p, q, phi);
    assert Leaf(phi) in p[2..] by {
      assert ([Leaf(phi)] + rest)[0] in multiset(p[2..]);
    }
    BothZero(p, k, phi);
    PairMerged(q, a, b, rest, m, k, InstructionLatency(op, k), x);
    q' := rest + [m];
    PairWaits(p[2..], m, phi, rest);
  }

  lemma PairWaits(p: seq<Tree>, m: Tree, phi: Node, rest: seq<Tree>)
    requires multiset(p) == multiset([Leaf(phi)] + rest) && Leaf(phi) !in rest && m.Inner?
    ensures PhiAnd(p + [m], phi, rest + [m])
  {
    assert [Leaf(phi)] + (rest + [m]) == ([Leaf(phi)] + rest) + [m];
  }

  lemma LaterOut(p: seq<Tree>, q: seq<Tree>, phi: Node) returns (rest: seq<Tree>)
    requires PhiAnd(p, phi, q) && |p| >= 2 && p[0] != Leaf(phi) && p[1] != Leaf(phi)
    ensures multiset(q) == multiset([p[0]] + ([p[1]] + rest)) && Leaf(phi) !in rest
    ensures multiset(p[2..]) == multiset([Leaf(phi)] + rest)
  {
    PermElements(p, [Leaf(phi)] + q);
    assert ([Leaf(phi)] + q)[0] in p;
    var j :| 0 <= j < |p| && p[j] == Leaf(phi);
    rest := p[2..j] + p[j + 1..];
    Cancel(p, q, j);
    assert p[..j] + p[j + 1..] == [p[0]] + ([p[1]] + rest);
    NotAmong(q, [p[0]] + ([p[1]] + rest), phi);
    TakeOut(p[2..], j - 2);
    assert p[2..][..j - 2] + p[2..][j - 1..] == rest;
  }

  lemma BothZero(p: seq<Tree>, k: Costs, phi: Node)
    requires |p| >= 2 && p[0] != Leaf(phi) && p[1] != Leaf(phi) && Leaf(phi) in p[2..] && phi.phi
    requires TwoLowest(StoredLats(p, k, {phi}))
    ensures Lat(p[0], k) == Lat(p[1], k) == 0.0
  {
    var i :| 0 <= i < |p[2..]| && p[2..][i] == Leaf(phi);
    assert StoredLats(p, k, {phi})[i + 2] == 0.0;
    LatNonNegative(p[0], k);
    LatNonNegative(p[1], k);
  }

  // The first merge of the phi decides: while it waits, merging it with a lowest leaf would still meet the deadline,
  // and afterwards the leaves that are left do.
  lemma {:induction false} StaleRun(h: Merges, f0: seq<Tree>, q0: seq<Tree>, p: seq<Tree>, op: Opcode, k: Costs,
                                    phi: Node, x: real)
    returns (waiting: bool, q: seq<Tree>)
    requires Reached(h, f0, p, op) && GreedyOn(h, k, {phi}) && phi.phi && PhiAnd(f0, phi, q0)
    requires Fits(Worst(Lats(q0, k), InstructionLatency(op, k)), InstructionLatency(op, k), x)
    ensures waiting ==> PhiAnd(p, phi, q)
    ensures waiting ==> Fits(Worst(Lats(q, k), InstructionLatency(op, k)), InstructionLatency(op, k), x)
    ensures !waiting ==> Leaf(phi) !in p && Fits(Lats(p, k), InstructionLatency(op, k), x)
  {
    match h
    case NoMerge =>
      waiting, q := true, q0;
    case Merge(earlier, p', n) =>
      waiting, q := StaleRun(earlier, f0, q0, p', op, k, phi, x);
      if waiting {
        waiting, q := WaitingStep(p', n, q, op, k, phi, x);
      } else {
        MergedStep(p', n, op, k, phi, x);
      }
      if !waiting {
        NotAmong(Merged(p', n), p, phi);
        LatsPerm(Merged(p', n), p, k);
        FitsPerm(Lats(Merged(p', n), k), Lats(p, k), InstructionLatency(op, k), x);
      }
  }

  lemma MergedStep(p: seq<Tree>, n: Node, op: Opcode, k: Costs, phi: Node, x: real)
    requires |p| >= 2 && n.op == op && Leaf(phi) !in p && TwoLowest(StoredLats(p, k, {phi}))
    requires Fits(Lats(p, k), InstructionLatency(op, k), x)
    ensures Leaf(phi) !in Merged(p, n) && Fits(Lats(Merged(p, n), k), InstructionLatency(op, k), x)
  {
    OthersStored(p, phi, k);
    LatsNonNegative(p, k);
    MergeFits(Lats(p, k), InstructionLatency(op, k), x);
    LatsMerged(p, n, op, k);
  }

  lemma PhiAndSize(p: seq<Tree>, phi: Node, q: seq<Tree>)
    ensures PhiAnd(p, phi, q) ==> |p| == |q| + 1 >= 2
  {
    assert |multiset(p)| == |p| && |multiset([Leaf(phi)] + q)| == |q| + 1;
  }

  // No run of the loop is worse than merging the phi with a lowest leaf first.
  lemma StaleRunMeets(h: Merges, f0: seq<Tree>, q: seq<Tree>, t: Tree, op: Opcode, k: Costs, phi: Node, x: real)
    requires Reached(h, f0, [t], op) && GreedyOn(h, k, {phi}) && phi.phi && PhiAnd(f0, phi, q)
    requires Fits(Worst(Lats(q, k), InstructionLatency(op, k)), InstructionLatency(op, k), x)
    ensures Lat(t, k) <= x
  {
    var waiting, q' := StaleRun(h, f0, q, [t], op, k, phi, x);
    PhiAndSize([t], phi, q');
    LatsNonNegative([t], k);
    FitsAll(Lats([t], k), InstructionLatency(op, k), x);
    assert Lats([t], k)[0] == Lat(t, k);
  }

  // Where the sort may put a tree.
  lemma {:induction false} PlaceTree(s: seq<Tree>, t: Tree, k: Costs, stale: set<Node>) returns (r: seq<Tree>)
    requires SortedOn(s, k, stale)
    ensures SortedOn(r, k, stale) && multiset(r) == multiset([t] + s)
  {
    if s == [] || NotAfter(t, s[0], k, stale) {
      r := [t] + s;
      forall i, j | 0 <= i < j < |r| ensures NotAfter(r[i], r[j], k, stale) {
        if i > 0 {
          assert NotAfter(s[i - 1], s[j - 1], k, stale);
        } else if j > 1 {
          assert NotAfter(s[0], s[j - 1], k, stale);
        }
      }
    } else {
      assert s == [s[0]] + s[1..];
      assert SortedOn(s[1..], k, stale) by {
        forall i, j | 0 <= i < j < |s[1..]| ensures NotAfter(s[1..][i], s[1..][j], k, stale) {
          assert NotAfter(s[i + 1], s[j + 1], k, stale);
        }
      }
      var later := PlaceTree(s[1..], t, k, stale);
      r := [s[0]] + later;
      FirstBefore(s, t, later, k, stale);
    }
  }

  lemma FirstBefore(s: seq<Tree>, t: Tree, later: seq<Tree>, k: Costs, stale: set<Node>)
    requires s != [] && SortedOn(s, k, stale) && !NotAfter(t, s[0], k, stale)
    requires SortedOn(later, k, stale) && multiset(later) == multiset([t] + s[1..])
    ensures SortedOn([s[0]] + later, k, stale)
    ensures multiset([s[0]] + later) == multiset([t] + s)
  {
    var r := [s[0]] + later;
    PermElements([t] + s[1..], later);
    forall i, j | 0 <= i < j < |r| ensures NotAfter(r[i], r[j], k, stale) {
      if i > 0 {
        assert NotAfter(later[i - 1], later[j - 1], k, stale);
      } else {
        assert later[j - 1] in [t] + s[1..];
        if later[j - 1] in s[1..] {
          var l :| 0 <= l < |s[1..]| && s[1..][l] == later[j - 1];
          assert NotAfter(s[0], s[l + 1], k, stale);
        }
      }
    }
    assert s == [s[0]] + s[1..];
  }

  lemma {:induction false} SortTrees(f: seq<Tree>, k: Costs, stale: set<Node>) returns (p: seq<Tree>)
    ensures SortedOn(p, k, stale) && multiset(p) == multiset(f)
  {
    if f == [] {
      p := [];
    } else {
      var s := SortTrees(f[1..], k, stale);
      p := PlaceTree(s, f[0], k, stale);
      assert f == [f[0]] + f[1..];
    }
  }

  // Whatever deadline lat meets, the values lats meet.
  ghost predicate Needs(lat: real, lats: seq<real>, c: real)
    requires c >= 0.0
  {
    forall x :: lat <= x ==> Fits(lats, c, x)
  }

  // The values a meet whatever deadline the values b meet.
  ghost predicate Easier(a: seq<real>, b: seq<real>, c: real)
    requires c >= 0.0
  {
    forall x :: Fits(b, c, x) ==> Fits(a, c, x)
  }

  lemma NeedsEasier(lat: real, a: seq<real>, b: seq<real>, c: real)
    requires c >= 0.0 && Easier(a, b, c) && Needs(lat, b, c)
    ensures Needs(lat, a, c)
  {
  }

  // Merging can only be undone at a gain: the two parts meet every deadline that the merged tree meets.
  lemma PartsFit(p: seq<Tree>, n: Node, op: Opcode, k: Costs, x: real)
    requires |p| >= 2 && n.op == op && Fits(Lats(Merged(p, n), k), InstructionLatency(op, k), x)
    ensures Fits(Lats(p, k), InstructionLatency(op, k), x)
  {
    var c, m := InstructionLatency(op, k), Inner(n, p[0], p[1]);
    LatsNonNegative(Merged(p, n), k);
    FitsAll(Lats(Merged(p, n), k), c, x);
    LatsSnoc(p[2..], m, k);
    assert Lats(Merged(p, n), k)[|p| - 2] == Lat(m, k) <= x;
    LatNonNegative(p[0], k);
    LatNonNegative(p[1], k);
    assert Lats(p, k)[2..] == Lats(p[2..], k);
    if c > 0.0 {
      PairWeight(Lat(p[0], k), Lat(p[1], k), c, x);
      SumByTwo(WeightOf(c, x), Lats(p, k));
      SumBySnoc(WeightOf(c, x), Lats(p[2..], k), Lat(m, k));
    } else {
      forall i | 0 <= i < |p| ensures Lats(p, k)[i] <= x {
        if i >= 2 {
          assert Lats(Merged(p, n), k)[i - 2] == Lats(p, k)[i];
        }
      }
    }
  }

  // The loop can always go on to a single tree; the last of the spare nodes is used at each step.
  lemma {:induction false} Complete(h: Merges, f0: seq<Tree>, p: seq<Tree>, spare: seq<Node>, op: Opcode, k: Costs,
                                    stale: set<Node>)
    returns (h': Merges, t: Tree)
    requires Reached(h, f0, p, op) && Allowed(h, k, stale) && |p| == |spare| + 1
    requires forall n :: n in spare ==> n.op == op
    ensures Reached(h', f0, [t], op) && Allowed(h', k, stale) && Used(h') == Used(h) + multiset(spare)
    ensures t.n == if spare == [] then p[0].n else spare[0]
    ensures Needs(Lat(t, k), Lats(p, k), InstructionLatency(op, k))
    decreases |p|
  {
    if spare == [] {
      h' := h;
      t := OneLeft(h, f0, p, op, k);
    } else {
      var last := |spare| - 1;
      LastSpare(spare);
      var h1, p1 := OneMerge(h, f0, p, spare[last], op, k, stale);
      h', t := Complete(h1, f0, p1, spare[..last], op, k, stale);
      NeedsEasier(Lat(t, k), Lats(p, k), Lats(p1, k), InstructionLatency(op, k));
      UsedAll(Used(h), Used(h1), Used(h'), spare);
    }
  }

  lemma OneLeft(h: Merges, f0: seq<Tree>, p: seq<Tree>, op: Opcode, k: Costs) returns (t: Tree)
    requires Reached(h, f0, p, op) && |p| == 1
    ensures Reached(h, f0, [t], op) && t == p[0] && Needs(Lat(t, k), Lats(p, k), InstructionLatency(op, k))
  {
    t := p[0];
    assert p == [t];
    SingleFits(t, op, k);
  }

  lemma UsedAll(before: multiset<Node>, next: multiset<Node>, after: multiset<Node>, spare: seq<Node>)
    requires spare != [] && next == before + multiset{spare[|spare| - 1]}
    requires after == next + multiset(spare[..|spare| - 1])
    ensures after == before + multiset(spare)
  {
    LastSpare(spare);
  }

  lemma LastSpare(spare: seq<Node>)
    requires spare != []
    ensures multiset(spare) == multiset{spare[|spare| - 1]} + multiset(spare[..|spare| - 1])
    ensures forall n :: n in spare[..|spare| - 1] ==> n in spare
  {
    assert spare == spare[..|spare| - 1] + [spare[|spare| - 1]];
  }

  lemma OneMerge(h: Merges, f0: seq<Tree>, p: seq<Tree>, n: Node, op: Opcode, k: Costs, stale: set<Node>)
    returns (h1: Merges, p1: seq<Tree>)
    requires Reached(h, f0, p, op) && Allowed(h, k, stale) && |p| >= 2 && n.op == op
    ensures Reached(h1, f0, p1, op) && Allowed(h1, k, stale) && |p1| == |p| - 1 && Used(h1) == Used(h) + multiset{n}
    ensures |p| == 2 ==> p1[0].n == n
    ensures Easier(Lats(p, k), Lats(p1, k), InstructionLatency(op, k))
  {
    var s := SortTrees(p, k, stale);
    SameLength(s, p);
    ReachedPerm(h, f0, p, s, op);
    h1, p1 := Merge(h, s, n), Merged(s, n);
    PartsEasier(s, p, n, op, k);
  }

  lemma PartsEasier(s: seq<Tree>, p: seq<Tree>, n: Node, op: Opcode, k: Costs)
    requires |s| >= 2 && n.op == op && multiset(s) == multiset(p)
    ensures Easier(Lats(p, k), Lats(Merged(s, n), k), InstructionLatency(op, k))
  {
    LatsPerm(s, p, k);
    forall x | Fits(Lats(Merged(s, n), k), InstructionLatency(op, k), x)
      ensures Fits(Lats(p, k), InstructionLatency(op, k), x)
    {
      PartsFit(s, n, op, k, x);
      FitsPerm(Lats(s, k), Lats(p, k), InstructionLatency(op, k), x);
    }
  }

  lemma SingleFits(t: Tree, op: Opcode, k: Costs)
    ensures Needs(Lat(t, k), Lats([t], k), InstructionLatency(op, k))
  {
    var c := InstructionLatency(op, k);
    assert Lats([t], k) == [Lat(t, k)];
    LatNonNegative(t, k);
    forall x | Lat(t, k) <= x ensures Fits([Lat(t, k)], c, x) {
      if c > 0.0 {
        WeightLaws(Lat(t, k), Lat(t, k), c, x);
        SumByCons(WeightOf(c, x), Lat(t, k), []);
      }
    }
  }

  lemma ReachedPerm(h: Merges, f0: seq<Tree>, p: seq<Tree>, s: seq<Tree>, op: Opcode)
    requires Reached(h, f0, p, op) && multiset(s) == multiset(p)
    ensures Reached(h, f0, s, op)
  {
  }

  // A run that merges the phi first, with a lowest leaf.
  lemma WorstRun(f0: seq<Tree>, q: seq<Tree>, spare: seq<Node>, op: Opcode, k: Costs, phi: Node)
    returns (h: Merges, t: Tree)
    requires phi.phi && PhiAnd(f0, phi, q) && |f0| == |spare| + 1 && forall n :: n in spare ==> n.op == op
    ensures Run(h, f0, spare, t, op, k, {phi})
    ensures Needs(Lat(t, k), Worst(Lats(q, k), InstructionLatency(op, k)), InstructionLatency(op, k))
  {
    PhiAndSize(f0, phi, q);
    LastSpare(spare);
    var h1, p1 := PhiFirst(f0, q, spare[|spare| - 1], op, k, phi);
    h, t := Complete(h1, f0, p1, spare[..|spare| - 1], op, k, {phi});
    NeedsEasier(Lat(t, k), Worst(Lats(q, k), InstructionLatency(op, k)), Lats(p1, k), InstructionLatency(op, k));
  }

  lemma PhiFirst(f0: seq<Tree>, q: seq<Tree>, n: Node, op: Opcode, k: Costs, phi: Node)
    returns (h1: Merges, p1: seq<Tree>)
    requires phi.phi && PhiAnd(f0, phi, q) && n.op == op
    ensures Reached(h1, f0, p1, op) && Allowed(h1, k, {phi}) && |p1| == |q| && Used(h1) == multiset{n}
    ensures |q| == 1 ==> p1[0].n == n
    ensures Easier(Worst(Lats(q, k), InstructionLatency(op, k)), Lats(p1, k), InstructionLatency(op, k))
  {
    var c := InstructionLatency(op, k);
    var s := SortTrees(q, k, {phi});
    SameLength(s, q);
    var p := [Leaf(phi)] + s;
    PhiSortsFirst(s, phi, k);
    h1, p1 := Merge(NoMerge, p, n), Merged(p, n);
    forall x | Fits(Lats(p1, k), c, x) ensures Fits(Worst(Lats(q, k), c), c, x) {
      WorstIsFirst(q, s, n, op, k, phi, x);
    }
  }

  lemma PhiSortsFirst(s: seq<Tree>, phi: Node, k: Costs)
    requires SortedOn(s, k, {phi})
    ensures SortedOn([Leaf(phi)] + s, k, {phi})
  {
    var p := [Leaf(phi)] + s;
    forall i, j | 0 <= i < j < |p| ensures NotAfter(p[i], p[j], k, {phi}) {
      if i > 0 {
        assert NotAfter(s[i - 1], s[j - 1], k, {phi});
      } else {
        LatNonNegative(p[j], k);
      }
    }
  }

  lemma WorstIsFirst(q: seq<Tree>, s: seq<Tree>, n: Node, op: Opcode, k: Costs, phi: Node, x: real)
    requires q != [] && multiset(s) == multiset(q) && Leaf(phi) !in q && SortedOn(s, k, {phi}) && phi.phi && n.op == op
    requires |[Leaf(phi)] + s| >= 2 && Fits(Lats(Merged([Leaf(phi)] + s, n), k), InstructionLatency(op, k), x)
    ensures Fits(Worst(Lats(q, k), InstructionLatency(op, k)), InstructionLatency(op, k), x)
  {
    var c := InstructionLatency(op, k);
    var y, rest, m := s[0], s[1..], Inner(n, Leaf(phi), s[0]);
    assert s == [y] + rest;
    assert Merged([Leaf(phi)] + s, n) == rest + [m];
    LatsSnoc(rest, m, k);
    NotAmong(q, s, phi);
    forall i | 0 <= i < |rest| ensures Lat(y, k) <= Lats(rest, k)[i] {
      assert NotAfter(s[0], s[i + 1], k, {phi});
      assert s[0] in s && s[i + 1] in s;
    }
    WorstLats(q, y, rest, k, c, x, Lat(m, k));
  }

  // A run of the loop from the leaves f0 to the tree t that uses the spare nodes, the first of them last.
  ghost predicate Run(h: Merges, f0: seq<Tree>, spare: seq<Node>, t: Tree, op: Opcode, k: Costs, stale: set<Node>) {
    Reached(h, f0, [t], op) && Allowed(h, k, stale) && Used(h) == multiset(spare) && (spare != [] ==> t.n == spare[0])
  }

  // Exactly when a deadline survives a stale phi leaf in the group: every run that the sort allows meets it if and
  // only if it is met after merging the phi with a lowest of the other leaves.
  lemma StaleDeadline(f0: seq<Tree>, q: seq<Tree>, spare: seq<Node>, op: Opcode, k: Costs, phi: Node, x: real)
    requires phi.phi && PhiAnd(f0, phi, q) && |f0| == |spare| + 1 && forall n :: n in spare ==> n.op == op
    ensures Fits(Worst(Lats(q, k), InstructionLatency(op, k)), InstructionLatency(op, k), x) <==>
      forall h: Merges, t: Tree :: Run(h, f0, spare, t, op, k, {phi}) ==> Lat(t, k) <= x
  {
    if Fits(Worst(Lats(q, k), InstructionLatency(op, k)), InstructionLatency(op, k), x) {
      forall h: Merges, t: Tree | Run(h, f0, spare, t, op, k, {phi}) ensures Lat(t, k) <= x {
        AllowedIsGreedy(h, k, {phi});
        StaleRunMeets(h, f0, q, t, op, k, phi, x);
      }
    } else {
      var h, t := WorstRun(f0, q, spare, op, k, phi);
      assert Run(h, f0, spare, t, op, k, {phi});
    }
  }
}
