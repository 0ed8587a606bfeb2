// Replacing one root makes no root of an instruction behind it.
module ThrScan {
  import opened ThrTree
  import opened ThrBfs
  import opened ThrEmit
  import opened ThrPass
  import opened ThrIr
  import opened ThrErase
  import opened ThrSplice
  import opened ThrReplaced

  ghost predicate RootCandidate(b: Block, v: nat)
    requires v in Defs(b)
  {
    Target(b, v) && exists x :: x in Args(LineOf(b, v)) && NodeCandidate(b, x)
  }

  // A root that has operands to regroup and is itself a node of its tree.
  ghost predicate Reducible(b: Block, v: nat)
    requires v in Defs(b)
  {
    match LineOf(b, v).inst
    case Bin(_, x, y) => Target(b, v) && (NodeCandidate(b, x) || NodeCandidate(b, y)) && NodeCandidate(b, v)
    case Opaque(_, _) => false
  }

  lemma ReducibleRoot(b: Block, v: nat)
    requires v in Defs(b)
    ensures Reducible(b, v) <==> RootCandidate(b, v) && NodeCandidate(b, v)
  {
    var l := LineOf(b, v);
    if l.inst.Bin? {
      assert Args(l) == [l.inst.a, l.inst.b];
      assert l.inst.a in Args(l) && l.inst.b in Args(l);
    }
  }

  lemma {:induction false} LineAt(b: Block, d: nat)
    requires d in Defs(b)
    ensures b[Rank(b, d) - 1] == LineOf(b, d)
  {
    if Last(b).def != d {
      LineAt(Init(b), d);
    }
  }

  // What is a root, on the lines of the block. Line i is an addition or multiplication that no comparison uses.
  ghost predicate Sums(b: Block, i: int)
    requires 0 <= i < |b|
  {
    b[i].inst.Bin? && forall j :: 0 <= j < |b| && b[j].inst.Opaque? && b[j].inst.kind.Cmp? ==>
      b[i].def !in b[j].inst.operands
  }

  // Exactly one operand of the block is v.
  ghost predicate OnlyUse(b: Block, v: nat) {
    exists i :: 0 <= i < |b| && OnlyIn(b, v, i)
  }

  ghost predicate OnlyIn(b: Block, v: nat, i: int)
    requires 0 <= i < |b|
  {
    multiset(Args(b[i]))[v] == 1 && forall j :: 0 <= j < |b| && j != i ==> v !in Args(b[j])
  }

  // x is computed for one instruction only.
  ghost predicate Absorbed(b: Block, x: nat) {
    OnlyUse(b, x) && exists j :: 0 <= j < |b| && b[j].def == x && Sums(b, j)
  }

  // Line i is not part of a larger tree: it is used just once, or by nothing that could have one.
  ghost predicate Topmost(b: Block, i: int)
    requires 0 <= i < |b|
  {
    OnlyUse(b, b[i].def) ||
    forall j :: 0 <= j < |b| && b[i].def in Args(b[j]) ==>
      !Sums(b, j) && !(b[j].inst.Opaque? && b[j].inst.kind.Elsewhere?)
  }

  lemma {:induction false} NoUses(b: Block, v: nat)
    ensures Uses(b, v) == 0 <==> forall j :: 0 <= j < |b| ==> v !in Args(b[j])
  {
    if b != [] {
      NoUses(Init(b), v);
      assert v in Args(Last(b)) <==> v in multiset(Args(Last(b)));
      assert forall j :: 0 <= j < |Init(b)| ==> Init(b)[j] == b[j];
      assert Last(b) == b[|b| - 1];
    }
  }

  lemma {:induction false} OneUse(b: Block, v: nat)
    ensures Uses(b, v) == 1 <==> OnlyUse(b, v)
  {
    if b != [] {
      OneUse(Init(b), v);
      NoUses(Init(b), v);
      OnlyUseLast(b, v);
    }
  }

  lemma OnlyUseLast(b: Block, v: nat)
    requires b != []
    ensures OnlyUse(b, v) <==>
      (OnlyUse(Init(b), v) && v !in Args(Last(b))) ||
      (multiset(Args(Last(b)))[v] == 1 && forall j :: 0 <= j < |Init(b)| ==> v !in Args(Init(b)[j]))
  {
    var n := |b| - 1;
    OnlyInLast(b, v);
    if OnlyUse(Init(b), v) && v !in Args(Last(b)) {
      var i :| 0 <= i < n && OnlyIn(Init(b), v, i);
      OnlyInInit(b, v, i);
    }
    if OnlyUse(b, v) {
      var i :| 0 <= i < |b| && OnlyIn(b, v, i);
      if i < n {
        OnlyInInit(b, v, i);
      }
    }
  }

  lemma OnlyInInit(b: Block, v: nat, i: int)
    requires 0 <= i < |b| - 1
    ensures OnlyIn(b, v, i) <==> OnlyIn(Init(b), v, i) && v !in Args(Last(b))
  {
    assert forall j :: 0 <= j < |b| - 1 ==> Init(b)[j] == b[j];
  }

  lemma OnlyInLast(b: Block, v: nat)
    requires b != []
    ensures OnlyIn(b, v, |b| - 1) <==>
      multiset(Args(Last(b)))[v] == 1 && forall j :: 0 <= j < |Init(b)| ==> v !in Args(Init(b)[j])
  {
    assert forall j :: 0 <= j < |b| - 1 ==> Init(b)[j] == b[j];
  }

  lemma TargetAt(b: Block, i: int)
    requires Ssa(b) && 0 <= i < |b|
    ensures Target(b, b[i].def) <==> Sums(b, i)
  {
    DefAt(b, i);
  }

  lemma OperandExplained(b: Block, v: nat, x: nat)
    requires Ssa(b) && Target(b, v) && x in Args(LineOf(b, v))
    ensures NodeCandidate(b, x) <==> Absorbed(b, x)
  {
    OperandCandidate(b, v, x);
    OneUse(b, x);
    if Target(b, x) {
      LineAt(b, x);
      TargetAt(b, Rank(b, x) - 1);
    }
    if j :| 0 <= j < |b| && b[j].def == x && Sums(b, j) {
      TargetAt(b, j);
    }
  }

  lemma TopmostExplained(b: Block, i: int)
    requires Ssa(b) && 0 <= i < |b| && Sums(b, i)
    ensures NodeCandidate(b, b[i].def) <==> Topmost(b, i)
  {
    TargetAt(b, i);
    OneUse(b, b[i].def);
    forall j | 0 <= j < |b| ensures Target(b, b[j].def) <==> Sums(b, j) {
      TargetAt(b, j);
    }
  }

  // A root: an addition or multiplication with an operand that is computed for it alone, at the top of its tree.
  lemma RootsExplained(b: Block, i: int)
    requires Ssa(b) && 0 <= i < |b|
    ensures b[i].def in Defs(b)
    ensures Reducible(b, b[i].def) <==>
      Sums(b, i) && (Absorbed(b, b[i].inst.a) || Absorbed(b, b[i].inst.b)) && Topmost(b, i)
  {
    DefAt(b, i);
    TargetAt(b, i);
    if Sums(b, i) {
      TopmostExplained(b, i);
      assert Args(b[i]) == [b[i].inst.a, b[i].inst.b];
      assert b[i].inst.a in Args(b[i]) && b[i].inst.b in Args(b[i]);
      OperandExplained(b, b[i].def, b[i].inst.a);
      OperandExplained(b, b[i].def, b[i].inst.b);
    }
  }

  ghost predicate CmpUse(l: Line, v: nat) {
    l.inst.Opaque? && l.inst.kind.Cmp? && v in Args(l)
  }

  lemma CmpUser(b: Block, v: nat)
    requires Ssa(b)
    ensures UsedByCmp(b, v) <==> exists d :: d in Defs(b) && CmpUse(LineOf(b, d), v)
  {
    if UsedByCmp(b, v) {
      var i :| 0 <= i < |b| && b[i].inst.Opaque? && b[i].inst.kind.Cmp? && v in Args(b[i]);
      DefAt(b, i);
      assert CmpUse(LineOf(b, b[i].def), v);
    }
    if d :| d in Defs(b) && CmpUse(LineOf(b, d), v) {
      LineAt(b, d);
    }
  }

  lemma SubstUse(l: Line, from: nat, to: nat, y: nat)
    requires to !in Args(l) && y != to && from != to
    ensures (if y == from then to else y) in Args(SubstLine(l, from, to)) <==> y in Args(l)
  {
    var s, r := Args(l), Args(SubstLine(l, from, to));
    assert |r| == |s| && forall i :: 0 <= i < |s| ==> r[i] == if s[i] == from then to else s[i];
    if y in s {
      var i :| 0 <= i < |s| && s[i] == y;
      assert r[i] == if y == from then to else y;
    }
  }

  // A value that is still there, under its new name.
  ghost predicate Stays(w: Rewrite, t: Tree, y: nat) {
    y !in Defs(Lines(w)) && (y == w.r.def || y !in InnerDefs(t))
  }

  // A line that is not erased uses a value before if and only if it uses its new name afterwards.
  lemma SameUser(w: Rewrite, t: Tree, t': Tree, d: nat, y: nat)
    requires Emits(w, t, t') && d in Defs(Before(w)) && d !in InnerDefs(t) && Stays(w, t, y)
    ensures d in Defs(After(w, t))
    ensures Renamed(w, y) in Args(LineOf(After(w, t), d)) <==> y in Args(LineOf(Before(w), d))
  {
    Survivor(w, t, t', d);
    LinesAreNew(w, t, t');
    LineNames(Before(w), d);
    BeforeNames(w);
    SubstUse(LineOf(Before(w), d), w.r.def, NewRoot(w), y);
  }

  lemma CmpKept(w: Rewrite, t: Tree, t': Tree, y: nat, d: nat)
    requires Emits(w, t, t') && Stays(w, t, y) && d in Defs(Before(w)) && CmpUse(LineOf(Before(w), d), y)
    ensures d in Defs(After(w, t)) && CmpUse(LineOf(After(w, t), d), Renamed(w, y))
  {
    RepresentsKinds(Before(w), t, w.r.def);
    Survivor(w, t, t', d);
    SameUser(w, t, t', d, y);
  }

  lemma CmpFrom(w: Rewrite, t: Tree, t': Tree, y: nat, d: nat)
    requires Emits(w, t, t') && Stays(w, t, y) && d in Defs(After(w, t))
    requires CmpUse(LineOf(After(w, t), d), Renamed(w, y))
    ensures d in Defs(Before(w)) && CmpUse(LineOf(Before(w), d), y)
  {
    AfterDefs(w, t, t');
    if d in Defs(Lines(w)) {
      EmittedLine(w, t, t', d);
      assert false;
    } else {
      Survivor(w, t, t', d);
      SameUser(w, t, t', d, y);
    }
  }

  lemma SameCmp(w: Rewrite, t: Tree, t': Tree, y: nat)
    requires Emits(w, t, t') && Stays(w, t, y)
    ensures UsedByCmp(After(w, t), Renamed(w, y)) <==> UsedByCmp(Before(w), y)
  {
    RootReplaced(w, t, t');
    CmpUser(Before(w), y);
    CmpUser(After(w, t), Renamed(w, y));
    if d :| d in Defs(Before(w)) && CmpUse(LineOf(Before(w), d), y) {
      CmpKept(w, t, t', y, d);
    }
    if d :| d in Defs(After(w, t)) && CmpUse(LineOf(After(w, t), d), Renamed(w, y)) {
      CmpFrom(w, t, t', y, d);
    }
  }

  // A value that stays is a target as before; the new root is one as the old root was.
  lemma SameTarget(w: Rewrite, t: Tree, t': Tree, y: nat)
    requires Emits(w, t, t') && Stays(w, t, y)
    ensures Target(After(w, t), Renamed(w, y)) <==> Target(Before(w), y)
  {
    SameCmp(w, t, t', y);
    AfterDefs(w, t, t');
    LinesAreNew(w, t, t');
    if y == w.r.def {
      EmittedLine(w, t, t', NewRoot(w));
    } else if y in Defs(Before(w)) {
      Survivor(w, t, t', y);
    }
  }

  lemma {:induction false} EraseAllUses(b: Block, ds: seq<nat>, x: nat)
    requires Ssa(b) && ErasableInOrder(b, ds)
    requires forall d :: d in ds && d in Defs(b) ==> x !in Args(LineOf(b, d))
    ensures Uses(EraseAll(b, ds), x) == Uses(b, x)
    decreases |ds|
  {
    if ds != [] {
      EraseFacts(b, ds[0]);
      assert ds[0] in ds;
      assert UsesIn(LineOf(b, ds[0]), x) == 0;
      EraseAllUses(Erase(b, ds[0]), ds[1..], x);
    }
  }

  lemma {:induction false} InnerOperands(b: Block, t: Tree, d: nat, x: nat)
    requires Held(b, t) && d in InnerDefs(t) && d in Defs(b) && x in Args(LineOf(b, d))
    ensures x in InnerDefs(t) || x in LeafDefs(t)
  {
    if d == t.n.def {
    } else if d in InnerDefs(t.l) {
      InnerOperands(b, t.l, d, x);
    } else {
      InnerOperands(b, t.r, d, x);
    }
  }

  // What the erased lines did not use has as many uses as after the insertion.
  lemma ErasedUses(w: Rewrite, t: Tree, t': Tree, x: nat)
    requires Emits(w, t, t') && x !in InnerDefs(t) && x !in LeafDefs(t)
    ensures Uses(After(w, t), x) == Uses(Inserted(w), x)
  {
    OriginalsErasable(w, t, t');
    ErasedDefs(t);
    RepresentsHeld(Before(w), t, w.r.def);
    forall d | d in DefsOf(Bfs([t])) && d in Defs(Inserted(w)) ensures x !in Args(LineOf(Inserted(w), d)) {
      InsertedLine(w, t, t', d);
      if x in Args(LineOf(Inserted(w), d)) {
        InnerOperands(Before(w), t, d, x);
      }
    }
    EraseAllUses(Inserted(w), DefsOf(Bfs([t])), x);
  }

  // Values outside the tree have as many uses as before.
  lemma UsesKept(w: Rewrite, t: Tree, t': Tree, x: nat)
    requires Emits(w, t, t') && x !in InnerDefs(t) && x !in LeafDefs(t) && x !in Defs(Lines(w))
    ensures Uses(After(w, t), x) == Uses(Before(w), x)
  {
    ErasedUses(w, t, t', x);
    AfterDefs(w, t, t');
    LinesAreNew(w, t, t');
    InsertedUsesOf(w, x);
  }

  lemma InsertedUsesOf(w: Rewrite, x: nat)
    requires x !in Names(Lines(w)) && x != w.r.def && x != NewRoot(w)
    ensures Uses(Inserted(w), x) == Uses(Before(w), x)
  {
    var tail := Subst(w.post, w.r.def, NewRoot(w));
    NoUse(Lines(w), x);
    SubstNames(w.post, w.r.def, NewRoot(w));
    UsesSplit(w.pre, Lines(w), [w.r], tail, x);
    UsesSplit(w.pre, [], [w.r], w.post, x);
    assert w.pre + [] == w.pre;
  }

  lemma {:induction false} SubstCount(s: seq<nat>, r: seq<nat>, from: nat, to: nat)
    requires |r| == |s| && forall i :: 0 <= i < |s| && s[i] == from ==> r[i] == to
    ensures multiset(r)[to] >= multiset(s)[from]
  {
    if s != [] {
      SubstCount(s[1..], r[1..], from, to);
      assert s == [s[0]] + s[1..] && r == [r[0]] + r[1..];
    }
  }

  lemma {:induction false} SubstUses(b: Block, from: nat, to: nat)
    ensures Uses(Subst(b, from, to), to) >= Uses(b, from)
  {
    if b != [] {
      SubstUses(Init(b), from, to);
      assert Init(Subst(b, from, to)) == Subst(Init(b), from, to);
      SubstLineUses(Last(b), from, to);
    }
  }

  lemma SubstLineUses(l: Line, from: nat, to: nat)
    ensures UsesIn(SubstLine(l, from, to), to) >= UsesIn(l, from)
  {
    SubstCount(Args(l), Args(SubstLine(l, from, to)), from, to);
  }

  // The new root has at least the uses of the old one.
  lemma NewRootUses(w: Rewrite, t: Tree, t': Tree)
    requires Emits(w, t, t')
    ensures Uses(After(w, t), NewRoot(w)) >= Uses(Before(w), w.r.def)
  {
    var tail := Subst(w.post, w.r.def, NewRoot(w));
    LinesAreNew(w, t, t');
    RepresentsKinds(Before(w), t, w.r.def);
    DefsNamed(Before(w));
    ErasedUses(w, t, t', NewRoot(w));
    SubstUses(w.post, w.r.def, NewRoot(w));
    UsesSplit(w.pre, Lines(w), [w.r], tail, NewRoot(w));
    UsesSplit(w.pre, [], [w.r], w.post, w.r.def);
    assert w.pre + [] == w.pre;
    RootUnusedBefore(w);
  }

  lemma {:induction false} DenotedLeaf(o: Operand, t: Tree, code: seq<Instr>, x: nat) returns (j: nat)
    requires Denotes(o, t, code) && t.Inner? && x in LeafDefs(t)
    ensures j < |code| && (code[j].a == Ext(x) || code[j].b == Ext(x))
    decreases t
  {
    var c, before := code[o.i], code[..o.i];
    j := o.i;
    var a, b := if Denotes(c.a, t.l, before) && Denotes(c.b, t.r, before) then c.a else c.b,
                if Denotes(c.a, t.l, before) && Denotes(c.b, t.r, before) then c.b else c.a;
    assert Denotes(a, t.l, before) && Denotes(b, t.r, before);
    if x in LeafDefs(t.l) {
      if t.l.Inner? { j := DenotedLeaf(a, t.l, before, x); }
    } else {
      if t.r.Inner? { j := DenotedLeaf(b, t.r, before, x); }
    }
  }

  lemma {:induction false} CodeLineAt(code: seq<Instr>, base: nat, m: Modulus, j: nat)
    requires j < |code|
    ensures base + j in Defs(CodeLines(code, base, m))
    ensures Args(LineOf(CodeLines(code, base, m), base + j)) == [Ref(code[j].a, base), Ref(code[j].b, base)]
  {
    CodeInit(code, base, m);
    if j < |code| - 1 {
      CodeLineAt(code[..|code| - 1], base, m, j);
    }
  }

  // The emitted code uses every leaf of the tree.
  lemma LeafUsed(w: Rewrite, t: Tree, t': Tree, x: nat) returns (u: nat)
    requires Emits(w, t, t') && x in LeafDefs(t)
    ensures u in Defs(Lines(w)) && u in Defs(After(w, t)) && x in Args(LineOf(After(w, t), u))
  {
    var j := CodeUsesLeaf(w, t, t', x);
    u := w.base + j;
    CodeLineAt(w.code, w.base, w.r.m, j);
    EmittedLine(w, t, t', u);
  }

  lemma CodeUsesLeaf(w: Rewrite, t: Tree, t': Tree, x: nat) returns (j: nat)
    requires Emits(w, t, t') && x in LeafDefs(t)
    ensures j < |w.code| && (w.code[j].a == Ext(x) || w.code[j].b == Ext(x))
  {
    FlatInner2(t, t');
    SameLeafDefs(t, t');
    j := DenotedLeaf(w.result, t', w.code, x);
  }

  // A leaf that is also used behind the root has two uses.
  lemma LeafUsedTwice(w: Rewrite, t: Tree, t': Tree, v: nat, x: nat)
    requires Emits(w, t, t') && x in LeafDefs(t) && v in Defs(After(w, t)) && v !in Defs(Lines(w))
    requires x in Args(LineOf(After(w, t), v))
    ensures Uses(After(w, t), x) >= 2
  {
    var u := LeafUsed(w, t, t', x);
    assert x in multiset(Args(LineOf(After(w, t), u))) && x in multiset(Args(LineOf(After(w, t), v)));
    TwoLineUses(After(w, t), u, v, x);
  }

  // Behind the root no line is erased.
  lemma BehindStays(w: Rewrite, t: Tree, t': Tree, v: nat)
    requires Emits(w, t, t') && v in Defs(w.post)
    ensures v in Defs(Before(w)) && v != w.r.def && v !in InnerDefs(t) && v !in LeafDefs(t) && v !in Defs(Lines(w))
    ensures Rank(Before(w), v) > Rank(Before(w), w.r.def)
  {
    var b := Before(w);
    NamesAppend(w.pre + [w.r], w.post);
    NamesAppend([w.r], w.post);
    RankOfLine(w.pre, w.r, w.post);
    RankAppend(w.pre + [w.r], w.post, v);
    RepresentsHeld(b, t, w.r.def);
    if v in InnerDefs(t) {
      InnerRanks(b, t, v);
    }
    if v in LeafDefs(t) {
      LeavesBefore(w, t, t', v);
    }
    AfterDefs(w, t, t');
  }

  // A user of a value behind the root is not erased either.
  lemma UserStays(w: Rewrite, t: Tree, t': Tree, v: nat, u: nat)
    requires Emits(w, t, t') && v in Defs(w.post) && u in Defs(Before(w)) && v in Args(LineOf(Before(w), u))
    ensures u !in InnerDefs(t) && u !in Defs(Lines(w))
  {
    var b := Before(w);
    BehindStays(w, t, t', v);
    OperandsEarlier(b, u, v);
    RepresentsHeld(b, t, w.r.def);
    if u in InnerDefs(t) {
      InnerRanks(b, t, u);
    }
    AfterDefs(w, t, t');
  }

  lemma UsedByTargetKept(w: Rewrite, t: Tree, t': Tree, v: nat)
    requires Emits(w, t, t') && v in Defs(w.post) && UsedByTarget(Before(w), v)
    ensures UsedByTarget(After(w, t), v)
  {
    var b, b' := Before(w), After(w, t);
    BehindStays(w, t, t', v);
    RootReplaced(w, t, t');
    var i :| 0 <= i < |b| && v in Args(b[i]) && IsTargetLine(b, b[i]);
    DefAt(b, i);
    var u := b[i].def;
    UserStays(w, t, t', v, u);
    Survivor(w, t, t', u);
    SameUser(w, t, t', u, v);
    SameTarget(w, t, t', u);
    AfterDefs(w, t, t');
    LineAt(b', u);
    var j :| 0 <= j < |b'| && b'[j] == LineOf(b', u);
    assert v in Args(b'[j]) && IsTargetLine(b', b'[j]);
  }

  // An operand of a target is a node of its tree if and only if it is a target with no other use.
  lemma OperandCandidate(b: Block, v: nat, x: nat)
    requires Target(b, v) && x in Args(LineOf(b, v))
    ensures NodeCandidate(b, x) <==> Uses(b, x) == 1 && Target(b, x)
  {
    OperandOfTarget(b, v, x);
  }

  lemma OperandUsed(b: Block, v: nat, x: nat)
    requires v in Defs(b) && x in Args(LineOf(b, v))
    ensures Uses(b, x) >= 1
  {
    assert x in multiset(Args(LineOf(b, v)));
    LineUses(b, v, x);
  }

  // The operand of a target behind the root is no new candidate.
  lemma NoNewCandidate(w: Rewrite, t: Tree, t': Tree, v: nat, x: nat)
    requires Emits(w, t, t') && v in Defs(w.post) && Stays(w, t, x) && v in Defs(After(w, t))
    requires Target(Before(w), v) && x in Args(LineOf(Before(w), v))
    requires Target(After(w, t), v) && Renamed(w, x) in Args(LineOf(After(w, t), v))
    requires NodeCandidate(After(w, t), Renamed(w, x))
    ensures NodeCandidate(Before(w), x)
  {
    BehindStays(w, t, t', v);
    OperandCandidate(Before(w), v, x);
    OperandCandidate(After(w, t), v, Renamed(w, x));
    SameTarget(w, t, t', x);
    OperandUsed(Before(w), v, x);
    if x == w.r.def {
      NewRootUses(w, t, t');
    } else if x in LeafDefs(t) {
      LeafUsedTwice(w, t, t', v, x);
      assert false;
    } else {
      UsesKept(w, t, t', x);
    }
  }

  lemma SameNode(w: Rewrite, t: Tree, t': Tree, v: nat)
    requires Emits(w, t, t') && v in Defs(w.post)
    ensures Target(After(w, t), v) <==> Target(Before(w), v)
    ensures Target(Before(w), v) && NodeCandidate(After(w, t), v) ==> NodeCandidate(Before(w), v)
  {
    BehindStays(w, t, t', v);
    SameTarget(w, t, t', v);
    UsesKept(w, t, t', v);
    if UsedByTarget(Before(w), v) {
      UsedByTargetKept(w, t, t', v);
    }
  }

  // No instruction behind the root becomes a root.
  lemma NoNewRoot(w: Rewrite, t: Tree, t': Tree, v: nat)
    requires Emits(w, t, t') && v in Defs(w.post) && v in Defs(After(w, t)) && Reducible(After(w, t), v)
    ensures v in Defs(Before(w)) && Reducible(Before(w), v)
  {
    BehindStays(w, t, t', v);
    ReducibleRoot(After(w, t), v);
    ReducibleRoot(Before(w), v);
    SameNode(w, t, t', v);
    Survivor(w, t, t', v);
    var x' :| x' in Args(LineOf(After(w, t), v)) && NodeCandidate(After(w, t), x');
    var x := OldOperand(w, t, t', v, x');
    NoNewCandidate(w, t, t', v, x);
  }

  // The operand before that is x' afterwards.
  lemma OldOperand(w: Rewrite, t: Tree, t': Tree, v: nat, x': nat) returns (x: nat)
    requires Emits(w, t, t') && v in Defs(Before(w)) && v !in InnerDefs(t)
    requires x' in Args(SubstLine(LineOf(Before(w), v), w.r.def, NewRoot(w)))
    ensures x in Args(LineOf(Before(w), v)) && x' == Renamed(w, x) && Stays(w, t, x)
  {
    SubstLineFrom(LineOf(Before(w), v), w.r.def, NewRoot(w));
    SubstLineArgs(LineOf(Before(w), v), w.r.def, NewRoot(w));
    LinesAreNew(w, t, t');
    LineNames(Before(w), v);
    AfterDefs(w, t, t');
    x := if x' == NewRoot(w) then w.r.def else x';
    if x != w.r.def {
      OperandSurvives(w, t, t', v, x);
    }
  }
}
