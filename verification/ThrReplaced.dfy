// What the replacement of one root leaves of a block: its other instructions, their values, and what is a root.
module ThrReplaced {
  import opened Collections
  import opened ThrTree
  import opened ThrBfs
  import opened ThrEmit
  import opened ThrIr
  import opened ThrErase
  import opened ThrSplice

  lemma {:induction false} DefsOfBfs(q: seq<Tree>)
    ensures multiset(DefsOf(Bfs(q))) == UnionBy(InnerDefsOf(), q)
    decreases SumBy(SizeOf(), q)
  {
    if q != [] {
      KidsSize(q[0], q[1..]);
      assert q == [q[0]] + q[1..];
      var next := q[1..] + Kids(q[0]);
      DefsOfBfs(next);
      UnionKids(InnerDefsOf(), q[0], q[1..]);
      assert Bfs(q)[1..] == Bfs(next);
      assert InnerDefsOf()(q[0]) == InnerDefs(q[0]);
    }
  }

  lemma ErasedDefs(t: Tree)
    ensures forall d :: d in DefsOf(Bfs([t])) <==> d in InnerDefs(t)
  {
    DefsOfBfs([t]);
    assert UnionBy(InnerDefsOf(), [t]) == InnerDefs(t);
    assert forall d :: d in DefsOf(Bfs([t])) <==> d in multiset(DefsOf(Bfs([t])));
  }

  // The block after one root.
  ghost function After(w: Rewrite, t: Tree): Block {
    EraseAll(Inserted(w), DefsOf(Bfs([t])))
  }

  // One root: the new block is well-formed and nothing of it uses an erased value.
  lemma RootReplaced(w: Rewrite, t: Tree, t': Tree)
    requires Emits(w, t, t')
    ensures ErasableInOrder(Inserted(w), DefsOf(Bfs([t]))) && Ssa(After(w, t))
    ensures forall d :: d in InnerDefs(t) ==> d !in Defs(After(w, t)) && Uses(After(w, t), d) == 0
  {
    OriginalsErasable(w, t, t');
    ErasedInOrder(Inserted(w), DefsOf(Bfs([t])));
    ErasedDefs(t);
  }

  // ... every value that was not erased is unchanged and the new root has the value of the old one.
  lemma RootKeepsValues(w: Rewrite, t: Tree, t': Tree, c: Around, v: nat)
    requires Emits(w, t, t') && v !in InnerDefs(t) && v !in Defs(Lines(w))
    ensures Val(After(w, t), c, v) == Val(Before(w), c, v)
    ensures Val(After(w, t), c, NewRoot(w)) == Val(Before(w), c, w.r.def)
  {
    OriginalsErasable(w, t, t');
    ErasedDefs(t);
    InsertedKeeps(w, t, t', c, v);
    EraseAllKeeps(Inserted(w), DefsOf(Bfs([t])), c, v);
    LinesAreNew(w, t, t');
    RepresentsKinds(Before(w), t, w.r.def);
    NamesAppend([], Before(w));
    assert [] + Before(w) == Before(w);
    EraseAllKeeps(Inserted(w), DefsOf(Bfs([t])), c, NewRoot(w));
  }

  lemma {:induction false} DefAt(b: Block, i: nat)
    requires Ssa(b) && i < |b|
    ensures b[i].def in Defs(b) && LineOf(b, b[i].def) == b[i]
  {
    assert b == b[..i] + [b[i]] + b[i + 1..];
    RankOfLine(b[..i], b[i], b[i + 1..]);
  }

  lemma InsertedDefs(w: Rewrite)
    ensures Defs(Inserted(w)) == Defs(Before(w)) + Defs(Lines(w))
  {
    var tail := Subst(w.post, w.r.def, NewRoot(w));
    SubstNames(w.post, w.r.def, NewRoot(w));
    NamesAppend(w.pre + Lines(w) + [w.r], tail);
    NamesAppend(w.pre + Lines(w), [w.r]);
    NamesAppend(w.pre, Lines(w));
    NamesAppend(w.pre + [w.r], w.post);
    NamesAppend(w.pre, [w.r]);
  }

  // Which lines there are afterwards: those that were not erased, and the emitted ones.
  lemma AfterDefs(w: Rewrite, t: Tree, t': Tree)
    requires Emits(w, t, t')
    ensures forall d :: d in Defs(After(w, t)) <==> (d in Defs(Before(w)) && d !in InnerDefs(t)) || d in Defs(Lines(w))
    ensures Defs(Lines(w)) !! Defs(Before(w)) && w.r.def in InnerDefs(t) && w.r.def in Defs(Before(w))
    ensures Names(After(w, t)) <= Names(Before(w)) + Defs(Lines(w))
  {
    OriginalsErasable(w, t, t');
    ErasedInOrder(Inserted(w), DefsOf(Bfs([t])));
    ErasedDefs(t);
    RepresentsKinds(Before(w), t, w.r.def);
    LinesAreNew(w, t, t');
    InsertedDefs(w);
    InsertedNames(w, t, t');
    DefsNamed(Before(w));
  }

  lemma DefsNamed(b: Block)
    ensures Defs(b) <= Names(b)
  {
    NamesAppend([], b);
    assert [] + b == b;
  }

  lemma InsertedNames(w: Rewrite, t: Tree, t': Tree)
    requires Emits(w, t, t')
    ensures Names(Inserted(w)) <= Names(Before(w)) + Defs(Lines(w))
  {
    var tail := Subst(w.post, w.r.def, NewRoot(w));
    LinesAreNew(w, t, t');
    SubstNames(w.post, w.r.def, NewRoot(w));
    NamesAppend(w.pre + Lines(w) + [w.r], tail);
    NamesAppend(w.pre + Lines(w), [w.r]);
    NamesAppend(w.pre, Lines(w));
    BeforeNames(w);
    forall d | d in LeafDefs(t) ensures d in Names(Before(w)) {
      LeavesBefore(w, t, t', d);
    }
  }

  lemma {:induction false} EraseAllLine(b: Block, ds: seq<nat>, d: nat)
    requires Ssa(b) && ErasableInOrder(b, ds) && d in Defs(b) && d !in ds
    ensures d in Defs(EraseAll(b, ds)) && LineOf(EraseAll(b, ds), d) == LineOf(b, d)
    decreases |ds|
  {
    if ds != [] {
      EraseFacts(b, ds[0]);
      EraseAllLine(Erase(b, ds[0]), ds[1..], d);
    }
  }

  lemma {:induction false} LineOfSubst(b: Block, from: nat, to: nat, d: nat)
    requires d in Defs(b)
    ensures d in Defs(Subst(b, from, to)) && LineOf(Subst(b, from, to), d) == SubstLine(LineOf(b, d), from, to)
  {
    assert Init(Subst(b, from, to)) == Subst(Init(b), from, to);
    if Last(b).def != d {
      LineOfSubst(Init(b), from, to, d);
    }
  }

  lemma SubstNothing(l: Line, from: nat, to: nat)
    requires from !in Args(l)
    ensures SubstLine(l, from, to) == l
  {
    match l.inst
    case Bin(_, a, b) => assert a in Args(l) && b in Args(l);
    case Opaque(_, operands) => assert SubstArgs(operands, from, to) == operands;
  }

  // The new name of a value.
  ghost function Renamed(w: Rewrite, y: nat): nat {
    if y == w.r.def then NewRoot(w) else y
  }

  // A line before or behind the root, in both blocks.
  lemma OtherLine(w: Rewrite, t: Tree, t': Tree, d: nat)
    requires Emits(w, t, t') && d in Defs(Before(w)) && d != w.r.def
    ensures d in Defs(Inserted(w))
    ensures LineOf(Inserted(w), d) == SubstLine(LineOf(Before(w), d), w.r.def, NewRoot(w))
  {
    var tail := Subst(w.post, w.r.def, NewRoot(w));
    InsertedDefs(w);
    SubstNames(w.post, w.r.def, NewRoot(w));
    NamesAppend(w.pre + [w.r], w.post);
    NamesAppend(w.pre, [w.r]);
    if d in Defs(w.post) {
      LineOfSuffix(w.pre + [w.r], w.post, d);
      LineOfSubst(w.post, w.r.def, NewRoot(w), d);
      LineOfSuffix(w.pre + Lines(w) + [w.r], tail, d);
    } else {
      EarlierLine(w, t, t', d);
    }
  }

  lemma EarlierLine(w: Rewrite, t: Tree, t': Tree, d: nat)
    requires Emits(w, t, t') && d in Defs(w.pre) && d !in Defs(w.post)
    ensures d in Defs(Before(w)) && d in Defs(Inserted(w)) && w.r.def !in Args(LineOf(Before(w), d))
    ensures LineOf(Inserted(w), d) == SubstLine(LineOf(Before(w), d), w.r.def, NewRoot(w))
  {
    var tail := Subst(w.post, w.r.def, NewRoot(w));
    LinesAreNew(w, t, t');
    BeforeNames(w);
    SubstNames(w.post, w.r.def, NewRoot(w));
    SsaPrefix(w.pre + [w.r], w.post);
    assert Init(w.pre + [w.r]) == w.pre && Init([w.r]) == [];
    LineOfAppend(w.pre, [w.r], d);
    LineOfAppend(w.pre + [w.r], w.post, d);
    LineOfAppend(w.pre, Lines(w), d);
    LineOfAppend(w.pre + Lines(w), [w.r], d);
    LineOfAppend(w.pre + Lines(w) + [w.r], tail, d);
    LineNames(w.pre, d);
    SubstNothing(LineOf(w.pre, d), w.r.def, NewRoot(w));
  }

  // A line that is not erased keeps its operands, with the new root in place of the old one.
  lemma Survivor(w: Rewrite, t: Tree, t': Tree, d: nat)
    requires Emits(w, t, t') && d in Defs(Before(w)) && d !in InnerDefs(t)
    ensures d in Defs(After(w, t))
    ensures LineOf(After(w, t), d) == SubstLine(LineOf(Before(w), d), w.r.def, NewRoot(w))
  {
    AfterDefs(w, t, t');
    OtherLine(w, t, t', d);
    OriginalsErasable(w, t, t');
    ErasedDefs(t);
    EraseAllLine(Inserted(w), DefsOf(Bfs([t])), d);
  }

  lemma {:induction false} CodeIsArithmetic(code: seq<Instr>, base: nat, m: Modulus, d: nat)
    requires d in Defs(CodeLines(code, base, m))
    ensures LineOf(CodeLines(code, base, m), d).inst.Bin?
  {
    CodeInit(code, base, m);
    if Last(CodeLines(code, base, m)).def != d {
      CodeIsArithmetic(code[..|code| - 1], base, m, d);
    }
  }

  // An emitted line is arithmetic on leaves and on other emitted lines.
  lemma EmittedLine(w: Rewrite, t: Tree, t': Tree, d: nat)
    requires Emits(w, t, t') && d in Defs(Lines(w))
    ensures d in Defs(After(w, t)) && LineOf(After(w, t), d) == LineOf(Lines(w), d) && LineOf(Lines(w), d).inst.Bin?
    ensures forall x :: x in Args(LineOf(Lines(w), d)) ==> x in LeafDefs(t) || x in Defs(Lines(w))
  {
    AfterDefs(w, t, t');
    LinesAreNew(w, t, t');
    CodeIsArithmetic(w.code, w.base, w.r.m, d);
    LineNames(Lines(w), d);
    InsertedCode(w, t, t', d);
    OriginalsErasable(w, t, t');
    ErasedDefs(t);
    RepresentsKinds(Before(w), t, w.r.def);
    EraseAllLine(Inserted(w), DefsOf(Bfs([t])), d);
  }

  lemma InsertedCode(w: Rewrite, t: Tree, t': Tree, d: nat)
    requires Emits(w, t, t') && d in Defs(Lines(w))
    ensures d in Defs(Inserted(w)) && LineOf(Inserted(w), d) == LineOf(Lines(w), d)
  {
    var tail := Subst(w.post, w.r.def, NewRoot(w));
    LinesAreNew(w, t, t');
    BeforeNames(w);
    SubstNames(w.post, w.r.def, NewRoot(w));
    assert Init([w.r]) == [];
    LineOfSuffix(w.pre, Lines(w), d);
    LineOfAppend(w.pre + Lines(w), [w.r], d);
    LineOfAppend(w.pre + Lines(w) + [w.r], tail, d);
  }

  // A line that is not erased uses no erased value but the root.
  lemma OperandSurvives(w: Rewrite, t: Tree, t': Tree, d: nat, x: nat)
    requires Emits(w, t, t') && d in Defs(Before(w)) && d !in InnerDefs(t)
    requires x in Args(LineOf(Before(w), d)) && x != w.r.def
    ensures x !in InnerDefs(t) && x !in Defs(Lines(w))
  {
    var b := Before(w);
    RepresentsHeld(b, t, w.r.def);
    if x in InnerDefs(t) {
      var u := UserInside(b, t, x);
      assert x in multiset(Args(LineOf(b, d)));
      OneUser(b, x, u, d);
    }
    LineNames(b, d);
    LinesAreNew(w, t, t');
  }

  // Erasing keeps the order of the rest.
  lemma {:induction false} EraseOrder(b: Block, d: nat, x: nat, y: nat)
    requires Ssa(b) && d in Defs(b) && x in Defs(b) && y in Defs(b) && x != d && y != d
    ensures Rank(Erase(b, d), x) < Rank(Erase(b, d), y) <==> Rank(b, x) < Rank(b, y)
  {
    EraseFacts(b, d);
    if Last(b).def == d {
    } else {
      assert Init(Erase(b, d)) == Erase(Init(b), d);
      EraseFacts(Init(b), d);
      if Last(b).def != x && Last(b).def != y {
        EraseOrder(Init(b), d, x, y);
      }
    }
  }

  lemma {:induction false} EraseAllOrder(b: Block, ds: seq<nat>, x: nat, y: nat)
    requires Ssa(b) && ErasableInOrder(b, ds) && x in Defs(b) && y in Defs(b) && x !in ds && y !in ds
    ensures Rank(EraseAll(b, ds), x) < Rank(EraseAll(b, ds), y) <==> Rank(b, x) < Rank(b, y)
    decreases |ds|
  {
    if ds != [] {
      EraseFacts(b, ds[0]);
      EraseOrder(b, ds[0], x, y);
      EraseAllOrder(Erase(b, ds[0]), ds[1..], x, y);
    }
  }

  lemma {:induction false} RankAppend(a: Block, b: Block, d: nat)
    ensures Rank(a + b, d) == if d in Defs(b) then |a| + Rank(b, d) else Rank(a, d)
  {
    if b == [] {
      assert a + b == a;
    } else {
      InitAppend(a, b);
      RankAppend(a, Init(b), d);
    }
  }

  lemma {:induction false} RankSubst(b: Block, from: nat, to: nat, d: nat)
    ensures Rank(Subst(b, from, to), d) == Rank(b, d)
  {
    if b != [] {
      assert Init(Subst(b, from, to)) == Subst(Init(b), from, to);
      RankSubst(Init(b), from, to, d);
    }
  }

  // The ranks of the old lines and of the new root after the insertion.
  lemma InsertedRank(w: Rewrite, d: nat)
    requires d != w.r.def
    ensures d in Defs(w.post) ==>
      Rank(Inserted(w), d) == Rank(Before(w), d) + |Lines(w)| && Rank(Before(w), d) > |w.pre|
    ensures d in Defs(w.post) ==> Rank(Inserted(w), d) > |w.pre| + |Lines(w)|
    ensures d !in Defs(w.post) && d !in Defs(Lines(w)) ==>
      Rank(Inserted(w), d) == Rank(Before(w), d) && Rank(Before(w), d) <= |w.pre|
    ensures d !in Defs(w.post) ==> Rank(Inserted(w), d) <= |w.pre| + |Lines(w)|
    ensures d !in Defs(w.post) && d in Defs(Lines(w)) ==> Rank(Inserted(w), d) > |w.pre|
  {
    var tail := Subst(w.post, w.r.def, NewRoot(w));
    SubstNames(w.post, w.r.def, NewRoot(w));
    assert Init([w.r]) == [];
    RankAppend(w.pre + Lines(w) + [w.r], tail, d);
    RankAppend(w.pre + Lines(w), [w.r], d);
    RankAppend(w.pre, Lines(w), d);
    RankAppend(w.pre + [w.r], w.post, d);
    RankAppend(w.pre, [w.r], d);
    RankSubst(w.post, w.r.def, NewRoot(w), d);
  }

  // Lines that are not erased keep their order.
  lemma OrderKept(w: Rewrite, t: Tree, t': Tree, d: nat, e: nat)
    requires Emits(w, t, t') && d in Defs(Before(w)) && e in Defs(Before(w))
    requires d !in InnerDefs(t) && e !in InnerDefs(t)
    ensures Rank(After(w, t), d) < Rank(After(w, t), e) <==> Rank(Before(w), d) < Rank(Before(w), e)
  {
    AfterDefs(w, t, t');
    InsertedDefs(w);
    InsertedRank(w, d);
    InsertedRank(w, e);
    OriginalsErasable(w, t, t');
    ErasedDefs(t);
    EraseAllOrder(Inserted(w), DefsOf(Bfs([t])), d, e);
  }

  // What is behind the new root was behind the old one.
  lemma BehindRoot(w: Rewrite, t: Tree, t': Tree, d: nat)
    requires Emits(w, t, t') && d in Defs(After(w, t)) && d !in Defs(Lines(w))
    requires Rank(After(w, t), d) > Rank(After(w, t), NewRoot(w))
    ensures d in Defs(w.post)
  {
    NotErased(w, t, t', d);
    NotErased(w, t, t', NewRoot(w));
    OriginalsErasable(w, t, t');
    EraseAllOrder(Inserted(w), DefsOf(Bfs([t])), NewRoot(w), d);
    InsertedRank(w, d);
    InsertedRank(w, NewRoot(w));
  }

  lemma NotErased(w: Rewrite, t: Tree, t': Tree, d: nat)
    requires Emits(w, t, t') && d in Defs(After(w, t)) + {NewRoot(w)}
    ensures d in Defs(Inserted(w)) && d !in DefsOf(Bfs([t])) && d != w.r.def
    ensures NewRoot(w) in Defs(Lines(w)) && NewRoot(w) !in Defs(w.post)
  {
    AfterDefs(w, t, t');
    LinesAreNew(w, t, t');
    InsertedDefs(w);
    ErasedDefs(t);
    NamesAppend(w.pre + [w.r], w.post);
    RepresentsKinds(Before(w), t, w.r.def);
  }

  // Instructions that are not arithmetic.
  ghost predicate IsEffect(b: Block, d: nat) {
    d in Defs(b) && LineOf(b, d).inst.Opaque?
  }

  // The instruction of the same kind, whose operands have the same values, whatever the instructions around them mean.
  ghost predicate SameEffect(b: Block, b': Block, d: nat)
    requires d in Defs(b) && d in Defs(b')
  {
    var l, l' := LineOf(b, d), LineOf(b', d);
    l'.m == l.m && l'.inst.Opaque? && l.inst.Opaque? && l'.inst.kind == l.inst.kind && |Args(l')| == |Args(l)| &&
    (forall c: Around, i :: 0 <= i < |Args(l)| ==> Val(b', c, Args(l')[i]) == Val(b, c, Args(l)[i])) &&
    (forall c: Around :: Val(b', c, d) == Val(b, c, d))
  }

  // The same opaque instructions in the same order, on operands with the same values and with the same result.
  ghost predicate SameEffects(b: Block, b': Block) {
    Ssa(b') && (forall d :: IsEffect(b', d) <==> IsEffect(b, d)) &&
    (forall d :: IsEffect(b, d) ==> SameEffect(b, b', d)) && SameOrder(b, b')
  }

  ghost predicate SameOrder(b: Block, b': Block) {
    forall d, e :: IsEffect(b, d) && IsEffect(b, e) && Rank(b, d) < Rank(b, e) ==> Rank(b', d) < Rank(b', e)
  }

  lemma RootKeepsEffect(w: Rewrite, t: Tree, t': Tree, d: nat)
    requires Emits(w, t, t') && IsEffect(Before(w), d)
    ensures d !in InnerDefs(t) && d in Defs(After(w, t)) && SameEffect(Before(w), After(w, t), d)
  {
    RepresentsKinds(Before(w), t, w.r.def);
    AfterDefs(w, t, t');
    Survivor(w, t, t', d);
    var l, l' := LineOf(Before(w), d), LineOf(After(w, t), d);
    forall c: Around ensures Val(After(w, t), c, d) == Val(Before(w), c, d) {
      RootKeepsValues(w, t, t', c, d);
    }
    forall c: Around, i | 0 <= i < |Args(l)|
      ensures Val(After(w, t), c, Args(l')[i]) == Val(Before(w), c, Args(l)[i])
    {
      assert Args(l)[i] in Args(l);
      if Args(l)[i] != w.r.def {
        OperandSurvives(w, t, t', d, Args(l)[i]);
        RootKeepsValues(w, t, t', c, Args(l)[i]);
      } else {
        RootKeepsValues(w, t, t', c, d);
      }
    }
  }

  lemma RootKeepsEffects(w: Rewrite, t: Tree, t': Tree)
    requires Emits(w, t, t')
    ensures SameEffects(Before(w), After(w, t))
  {
    RootReplaced(w, t, t');
    AfterDefs(w, t, t');
    forall d | IsEffect(Before(w), d)
      ensures d !in InnerDefs(t) && d in Defs(After(w, t)) && SameEffect(Before(w), After(w, t), d)
    {
      RootKeepsEffect(w, t, t', d);
    }
    forall d | IsEffect(After(w, t), d) ensures IsEffect(Before(w), d) {
      if d in Defs(Lines(w)) {
        EmittedLine(w, t, t', d);
      } else {
        Survivor(w, t, t', d);
      }
    }
    EffectOrder(w, t, t');
  }

  lemma EffectOrder(w: Rewrite, t: Tree, t': Tree)
    requires Emits(w, t, t')
    ensures SameOrder(Before(w), After(w, t))
  {
    RepresentsKinds(Before(w), t, w.r.def);
    forall d, e | IsEffect(Before(w), d) && IsEffect(Before(w), e) && Rank(Before(w), d) < Rank(Before(w), e)
      ensures Rank(After(w, t), d) < Rank(After(w, t), e)
    {
      OrderKept(w, t, t', d, e);
    }
  }

  lemma SameEffectsTransitive(b: Block, b1: Block, b2: Block)
    requires SameEffects(b, b1) && SameEffects(b1, b2)
    ensures SameEffects(b, b2)
  {
    forall d | IsEffect(b, d) ensures SameEffect(b, b2, d) {
      assert SameEffect(b, b1, d) && SameEffect(b1, b2, d);
    }
  }
}
