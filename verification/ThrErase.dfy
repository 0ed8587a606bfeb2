// The operation tree of a root and its block: which instructions are nodes, and why the originals can be erased in
// breadth-first order.
module ThrErase {
  import opened Collections
  import opened ThrTree
  import opened ThrBfs
  import opened ThrIr

  // isUsedAtCmpInst.
  predicate UsedByCmp(b: Block, v: nat) {
    exists i :: 0 <= i < |b| && b[i].inst.Opaque? && b[i].inst.kind.Cmp? && v in Args(b[i])
  }

  // isIntgerInstTHRTarget.
  predicate Target(b: Block, v: nat) {
    v in Defs(b) && LineOf(b, v).inst.Bin? && !UsedByCmp(b, v)
  }

  predicate IsTargetLine(b: Block, l: Line) {
    Target(b, l.def) || (l.inst.Opaque? && l.inst.kind.Elsewhere?)
  }

  predicate UsedByTarget(b: Block, v: nat) {
    exists i :: 0 <= i < |b| && v in Args(b[i]) && IsTargetLine(b, b[i])
  }

  predicate NodeCandidate(b: Block, v: nat) {
    if Uses(b, v) != 1 then !UsedByTarget(b, v) else Target(b, v)
  }

  // t is the operation tree of v. Its leaves know whether a phi of the block defines them.
  ghost predicate Represents(b: Block, t: Tree, v: nat) {
    t.n.def == v &&
    match t
    case Leaf(n) =>
      !NodeCandidate(b, v) &&
      (n.phi <==> v in Defs(b) && LineOf(b, v).inst.Opaque? && LineOf(b, v).inst.kind.Phi?)
    case Inner(n, l, r) =>
      NodeCandidate(b, v) && Target(b, v) && n.op == LineOf(b, v).inst.op &&
      Represents(b, l, LineOf(b, v).inst.a) && Represents(b, r, LineOf(b, v).inst.b)
  }

  // The position of the definition of v, from 1; 0 for a value from outside.
  function Rank(b: Block, v: nat): (k: nat)
    ensures k <= |b| && (k == 0 <==> v !in Defs(b))
  {
    if b == [] then 0 else if Last(b).def == v then |b| else Rank(Init(b), v)
  }

  lemma {:induction false} OperandsEarlier(b: Block, v: nat, x: nat)
    requires Ssa(b) && v in Defs(b) && x in Args(LineOf(b, v))
    ensures Rank(b, x) < Rank(b, v)
  {
    if Last(b).def != v {
      OperandsEarlier(Init(b), v, x);
      LineNames(Init(b), v);
    }
  }

  lemma {:induction false} LineNames(b: Block, v: nat)
    requires v in Defs(b)
    ensures forall x :: x in Args(LineOf(b, v)) ==> x in Names(b)
  {
    if Last(b).def != v {
      LineNames(Init(b), v);
    }
  }

  // A candidate that is a target or used by one is a target, and an operand of a target that is a candidate has
  // no other use.
  lemma CandidateIsTarget(b: Block, v: nat)
    requires NodeCandidate(b, v) && (Target(b, v) || UsedByTarget(b, v))
    ensures Target(b, v) && (UsedByTarget(b, v) ==> Uses(b, v) == 1)
  {
  }

  lemma OperandOfTarget(b: Block, v: nat, x: nat)
    requires Target(b, v) && x in Args(LineOf(b, v))
    ensures UsedByTarget(b, x)
  {
    var l := LineOf(b, v);
    var i :| 0 <= i < |b| && b[i] == l;
  }

  // The definitions of the inner nodes.
  ghost function InnerDefs(t: Tree): multiset<nat> {
    match t
    case Leaf(_) => multiset{}
    case Inner(n, l, r) => multiset{n.def} + (InnerDefs(l) + InnerDefs(r))
  }

  ghost function InnerDefsOf(): Tree -> multiset<nat> {
    t => InnerDefs(t)
  }

  // Each inner node is a line of the block whose operands are its children, and an inner child has no other use.
  ghost predicate Held(b: Block, t: Tree) {
    match t
    case Leaf(_) => true
    case Inner(n, l, r) =>
      n.def in Defs(b) && Args(LineOf(b, n.def)) == [l.n.def, r.n.def] && LineOf(b, n.def).inst.Bin? &&
      (l.Inner? ==> Uses(b, l.n.def) == 1) && (r.Inner? ==> Uses(b, r.n.def) == 1) && Held(b, l) && Held(b, r)
  }

  lemma {:induction false} RepresentsHeld(b: Block, t: Tree, v: nat)
    requires Represents(b, t, v)
    ensures Held(b, t)
  {
    if t.Inner? {
      var l := LineOf(b, v);
      assert Args(l) == [l.inst.a, l.inst.b];
      assert l.inst.a in Args(l) && l.inst.b in Args(l);
      OperandOfTarget(b, v, l.inst.a);
      OperandOfTarget(b, v, l.inst.b);
      RepresentsHeld(b, t.l, l.inst.a);
      RepresentsHeld(b, t.r, l.inst.b);
    }
  }

  lemma KidUsed(b: Block, t: Tree)
    requires t.Inner? && Held(b, t)
    ensures t.n.def in Defs(b)
    ensures UsesIn(LineOf(b, t.n.def), t.l.n.def) >= 1 && UsesIn(LineOf(b, t.n.def), t.r.n.def) >= 1
    ensures t.l.n.def == t.r.n.def ==> UsesIn(LineOf(b, t.n.def), t.l.n.def) == 2
    ensures t.l.n.def in Args(LineOf(b, t.n.def)) && t.r.n.def in Args(LineOf(b, t.n.def))
  {
    assert multiset(Args(LineOf(b, t.n.def))) == multiset{t.l.n.def, t.r.n.def};
  }

  lemma {:induction false} InnerRanks(b: Block, t: Tree, d: nat)
    requires Ssa(b) && Held(b, t) && d in InnerDefs(t)
    ensures t.Inner? && d in Defs(b) && Rank(b, d) <= Rank(b, t.n.def)
    ensures d in InnerDefs(t.l) || d in InnerDefs(t.r) ==> Rank(b, d) < Rank(b, t.n.def)
  {
    KidUsed(b, t);
    OperandsEarlier(b, t.n.def, t.l.n.def);
    OperandsEarlier(b, t.n.def, t.r.n.def);
    if d in InnerDefs(t.l) {
      InnerRanks(b, t.l, d);
    } else if d in InnerDefs(t.r) {
      InnerRanks(b, t.r, d);
    }
    if d in InnerDefs(t.r) {
      InnerRanks(b, t.r, d);
    }
  }

  // An inner node below the top has one use, by an inner node.
  lemma {:induction false} UserInside(b: Block, t: Tree, d: nat) returns (u: nat)
    requires Held(b, t) && d in InnerDefs(t) && d != t.n.def
    ensures u in InnerDefs(t) && u in Defs(b) && Uses(b, d) == 1 && UsesIn(LineOf(b, u), d) >= 1
  {
    KidUsed(b, t);
    if d in InnerDefs(t.l) {
      if d == t.l.n.def {
        u := t.n.def;
      } else {
        u := UserInside(b, t.l, d);
      }
    } else {
      if d == t.r.n.def {
        u := t.n.def;
      } else {
        u := UserInside(b, t.r, d);
      }
    }
  }

  lemma OneUser(b: Block, d: nat, u: nat, w: nat)
    requires u in Defs(b) && w in Defs(b) && Uses(b, d) == 1
    requires UsesIn(LineOf(b, u), d) >= 1 && UsesIn(LineOf(b, w), d) >= 1
    ensures u == w && UsesIn(LineOf(b, u), d) == 1
  {
    LineUses(b, u, d);
    if u != w {
      TwoLineUses(b, u, w, d);
    }
  }

  // The user of an inner node on the side s of t.
  lemma SideUser(b: Block, t: Tree, s: Tree, d: nat) returns (u: nat)
    requires Ssa(b) && t.Inner? && Held(b, t) && (s == t.l || s == t.r) && d in InnerDefs(s)
    ensures u in Defs(b) && Uses(b, d) == 1 && UsesIn(LineOf(b, u), d) >= 1 && Rank(b, d) < Rank(b, u)
    ensures if d == s.n.def then u == t.n.def else u in InnerDefs(s) && u != t.n.def
  {
    if d == s.n.def {
      KidUsed(b, t);
      u := t.n.def;
    } else {
      u := UserInside(b, s, d);
      InnerRanks(b, t, u);
    }
    UserLater(b, u, d);
  }

  // The two sides of a node share no inner node: a common one, followed to its users, would climb forever.
  lemma {:induction false} SidesApart(b: Block, t: Tree, d: nat)
    requires Ssa(b) && t.Inner? && Held(b, t)
    ensures !(d in InnerDefs(t.l) && d in InnerDefs(t.r))
    decreases |b| - Rank(b, d)
  {
    if d in InnerDefs(t.l) && d in InnerDefs(t.r) {
      var u := SideUser(b, t, t.l, d);
      var w := SideUser(b, t, t.r, d);
      OneUser(b, d, u, w);
      KidUsed(b, t);
      SidesApart(b, t, u);
    }
  }

  lemma UserLater(b: Block, u: nat, d: nat)
    requires Ssa(b) && u in Defs(b) && UsesIn(LineOf(b, u), d) >= 1
    ensures Rank(b, d) < Rank(b, u)
  {
    assert d in multiset(Args(LineOf(b, u)));
    OperandsEarlier(b, u, d);
  }

  lemma {:induction false} InnerDefsDistinct(b: Block, t: Tree)
    requires Ssa(b) && Held(b, t)
    ensures NoDup(InnerDefs(t))
  {
    if t.Inner? {
      InnerDefsDistinct(b, t.l);
      InnerDefsDistinct(b, t.r);
      forall d ensures InnerDefs(t)[d] <= 1 {
        SidesApart(b, t, d);
        if d in InnerDefs(t.l) || d in InnerDefs(t.r) {
          InnerRanks(b, t, d);
        }
      }
    }
  }

  ghost predicate SameLine(b: Block, b': Block, d: nat) {
    d in Defs(b) && d in Defs(b') && LineOf(b', d) == LineOf(b, d)
  }

  ghost predicate SameLines(b: Block, b': Block, ds: multiset<nat>) {
    forall d :: d in ds ==> SameLine(b, b', d)
  }

  ghost predicate SameUses(b: Block, b': Block, ds: multiset<nat>) {
    forall d :: d in ds ==> Uses(b', d) == Uses(b, d)
  }

  ghost function BelowDefs(t: Tree): multiset<nat> {
    match t
    case Leaf(_) => multiset{}
    case Inner(_, l, r) => InnerDefs(l) + InnerDefs(r)
  }

  // Only the lines of the inner nodes and the uses of those below the top matter.
  lemma {:induction false} HeldFrame(b: Block, b': Block, t: Tree)
    requires Held(b, t) && SameLines(b, b', InnerDefs(t)) && SameUses(b, b', BelowDefs(t))
    ensures Held(b', t)
  {
    if t.Inner? {
      BelowInner(b, b', t);
      HeldFrame(b, b', t.l);
      HeldFrame(b, b', t.r);
    }
  }

  lemma BelowInner(b: Block, b': Block, t: Tree)
    requires t.Inner? && SameLines(b, b', InnerDefs(t)) && SameUses(b, b', BelowDefs(t))
    ensures SameLine(b, b', t.n.def)
    ensures SameLines(b, b', InnerDefs(t.l)) && SameUses(b, b', BelowDefs(t.l))
    ensures SameLines(b, b', InnerDefs(t.r)) && SameUses(b, b', BelowDefs(t.r))
    ensures t.l.Inner? ==> Uses(b', t.l.n.def) == Uses(b, t.l.n.def)
    ensures t.r.Inner? ==> Uses(b', t.r.n.def) == Uses(b, t.r.n.def)
  {
    assert forall d :: d in InnerDefs(t.l) || d in InnerDefs(t.r) ==> d in BelowDefs(t) && d in InnerDefs(t);
    assert forall d :: d in BelowDefs(t.l) ==> d in InnerDefs(t.l);
    assert forall d :: d in BelowDefs(t.r) ==> d in InnerDefs(t.r);
    assert t.n.def in InnerDefs(t);
    assert t.l.Inner? ==> t.l.n.def in BelowDefs(t);
    assert t.r.Inner? ==> t.r.n.def in BelowDefs(t);
  }

  lemma HeldAfterErase(b: Block, t: Tree, e: nat)
    requires Ssa(b) && Held(b, t) && e in Defs(b) && e !in InnerDefs(t)
    ensures Held(Erase(b, e), t)
  {
    EraseFacts(b, e);
    forall d | d in InnerDefs(t) ensures SameLine(b, Erase(b, e), d) {
      InnerRanks(b, t, d);
    }
    if t.Inner? {
      NoDupHeld(b, t);
      forall d | d in InnerDefs(t.l) || d in InnerDefs(t.r) ensures Uses(Erase(b, e), d) == Uses(b, d) {
        var u := UserInside(b, t, d);
        if UsesIn(LineOf(b, e), d) >= 1 {
          OneUser(b, d, u, e);
        }
      }
    }
    HeldFrame(b, Erase(b, e), t);
  }

  lemma NoDupHeld(b: Block, t: Tree)
    requires Ssa(b) && t.Inner? && Held(b, t)
    ensures t.n.def !in InnerDefs(t.l) && t.n.def !in InnerDefs(t.r)
  {
    InnerDefsDistinct(b, t);
    assert InnerDefs(t)[t.n.def] <= 1;
  }

  // Erasing d in this order, each instruction without users when its turn comes.
  ghost predicate ErasableInOrder(b: Block, ds: seq<nat>)
    decreases |ds|
  {
    ds == [] || (ds[0] in Defs(b) && Uses(b, ds[0]) == 0 && ErasableInOrder(Erase(b, ds[0]), ds[1..]))
  }

  function EraseAll(b: Block, ds: seq<nat>): Block
    decreases |ds|
  {
    if ds == [] then b else EraseAll(Erase(b, ds[0]), ds[1..])
  }

  // The definitions of the inner nodes in the order of the traversal.
  ghost function DefsOf(q: seq<Tree>): seq<nat> {
    if q == [] then [] else (if q[0].Inner? then [q[0].n.def] else []) + DefsOf(q[1..])
  }

  // The trees that wait: their tops have no user left.
  ghost predicate Waits(b: Block, s: Tree) {
    Held(b, s) && (s.Inner? ==> Uses(b, s.n.def) == 0)
  }

  lemma KidsWait(b: Block, s: Tree)
    requires Ssa(b) && s.Inner? && Waits(b, s)
    ensures Waits(Erase(b, s.n.def), s.l) && Waits(Erase(b, s.n.def), s.r)
  {
    NoDupHeld(b, s);
    HeldAfterErase(b, s.l, s.n.def);
    HeldAfterErase(b, s.r, s.n.def);
    EraseFacts(b, s.n.def);
    KidUsed(b, s);
    if s.l.Inner? {
      LineUses(b, s.n.def, s.l.n.def);
    }
    if s.r.Inner? {
      LineUses(b, s.n.def, s.r.n.def);
    }
  }

  lemma OtherWaits(b: Block, s: Tree, e: nat)
    requires Ssa(b) && e in Defs(b) && Waits(b, s) && e !in InnerDefs(s)
    ensures Waits(Erase(b, e), s)
  {
    HeldAfterErase(b, s, e);
    EraseFacts(b, e);
  }

  lemma NextDistinct(s: Tree, rest: seq<Tree>)
    requires NoDup(UnionBy(InnerDefsOf(), [s] + rest))
    ensures NoDup(UnionBy(InnerDefsOf(), rest + Kids(s)))
    ensures NoDup(InnerDefs(s) + UnionBy(InnerDefsOf(), rest))
  {
    UnionByCons(InnerDefsOf(), s, rest);
    UnionKids(InnerDefsOf(), s, rest);
    var now, next := UnionBy(InnerDefsOf(), [s] + rest), UnionBy(InnerDefsOf(), rest + Kids(s));
    assert InnerDefsOf()(s) == InnerDefs(s);
    assert now == InnerDefs(s) + UnionBy(InnerDefsOf(), rest);
    assert next == BelowDefs(s) + UnionBy(InnerDefsOf(), rest);
    assert forall x :: BelowDefs(s)[x] <= InnerDefs(s)[x];
    assert forall x :: next[x] <= now[x];
  }

  lemma NextWait(b: Block, s: Tree, rest: seq<Tree>)
    requires Ssa(b) && s.Inner? && NoDup(InnerDefs(s) + UnionBy(InnerDefsOf(), rest))
    requires Waits(b, s) && forall i :: 0 <= i < |rest| ==> Waits(b, rest[i])
    ensures forall i :: 0 <= i < |rest + Kids(s)| ==> Waits(Erase(b, s.n.def), (rest + Kids(s))[i])
  {
    KidsWait(b, s);
    forall i | 0 <= i < |rest| ensures Waits(Erase(b, s.n.def), rest[i]) {
      RestApart(s, rest, i);
      OtherWaits(b, rest[i], s.n.def);
    }
  }

  // Breadth-first order is safe.
  lemma {:induction false} ErasesInOrder(b: Block, q: seq<Tree>)
    requires Ssa(b) && NoDup(UnionBy(InnerDefsOf(), q)) && forall i :: 0 <= i < |q| ==> Waits(b, q[i])
    ensures ErasableInOrder(b, DefsOf(Bfs(q)))
    decreases SumBy(SizeOf(), q)
  {
    if q != [] {
      var s, rest := q[0], q[1..];
      KidsSize(s, rest);
      assert q == [s] + rest;
      var next := rest + Kids(s);
      assert Bfs(q)[1..] == Bfs(next);
      assert forall i :: 0 <= i < |rest| ==> rest[i] == q[i + 1];
      NextDistinct(s, rest);
      if s.Inner? {
        NextWait(b, s, rest);
        EraseFacts(b, s.n.def);
        ErasesInOrder(Erase(b, s.n.def), next);
        assert DefsOf(Bfs(q)) == [s.n.def] + DefsOf(Bfs(next));
      } else {
        assert next == rest;
        ErasesInOrder(b, next);
        assert DefsOf(Bfs(q)) == DefsOf(Bfs(next));
      }
    }
  }

  lemma RestApart(s: Tree, rest: seq<Tree>, i: nat)
    requires s.Inner? && i < |rest| && NoDup(InnerDefs(s) + UnionBy(InnerDefsOf(), rest))
    ensures s.n.def !in InnerDefs(rest[i])
  {
    var others := UnionBy(InnerDefsOf(), rest);
    assert (InnerDefs(s) + others)[s.n.def] <= 1 && s.n.def in InnerDefs(s);
    if s.n.def in InnerDefs(rest[i]) {
      assert s.n.def in InnerDefsOf()(rest[i]);
      InUnion(InnerDefsOf(), rest, i, s.n.def);
    }
  }

  lemma TreeErasesInOrder(b: Block, t: Tree)
    requires Ssa(b) && Waits(b, t)
    ensures ErasableInOrder(b, DefsOf(Bfs([t])))
  {
    InnerDefsDistinct(b, t);
    assert UnionBy(InnerDefsOf(), [t]) == InnerDefs(t);
    ErasesInOrder(b, [t]);
  }

  // After such an erasure nothing defines or uses an erased value, and every other value is as before.
  lemma {:induction false} ErasedInOrder(b: Block, ds: seq<nat>)
    requires Ssa(b) && ErasableInOrder(b, ds)
    ensures Ssa(EraseAll(b, ds)) && Defs(EraseAll(b, ds)) == Defs(b) - (set d | d in ds)
    ensures Names(EraseAll(b, ds)) <= Names(b)
    ensures forall d :: d in ds ==> Uses(EraseAll(b, ds), d) == 0
    ensures forall v :: Uses(EraseAll(b, ds), v) <= Uses(b, v)
    decreases |ds|
  {
    if ds != [] {
      EraseFacts(b, ds[0]);
      assert ds == [ds[0]] + ds[1..];
      ErasedInOrder(Erase(b, ds[0]), ds[1..]);
      var all := EraseAll(b, ds);
      assert Uses(all, ds[0]) <= Uses(Erase(b, ds[0]), ds[0]) <= Uses(b, ds[0]);
    }
  }

  lemma {:induction false} EraseAllKeeps(b: Block, ds: seq<nat>, c: Around, v: nat)
    requires ErasableInOrder(b, ds) && v !in ds
    ensures Val(EraseAll(b, ds), c, v) == Val(b, c, v)
    decreases |ds|
  {
    if ds != [] {
      EraseKeeps(b, ds[0], c, v);
      EraseAllKeeps(Erase(b, ds[0]), ds[1..], c, v);
    }
  }

  // eraseOrgInsts: an instruction is only erased when nothing uses it.
  method EraseOrgInsts(b0: Block, insts: seq<nat>) returns (b: Block)
    requires Ssa(b0) && ErasableInOrder(b0, insts)
    ensures b == EraseAll(b0, insts)
  {
    b := b0;
    for i := 0 to |insts|
      invariant ErasableInOrder(b, insts[i..])
      invariant EraseAll(b, insts[i..]) == EraseAll(b0, insts)
    {
      assert insts[i..][1..] == insts[i + 1..];
      b := Erase(b, insts[i]);
    }
  }
}
