// createIRs and eraseOrgInsts on the block: the emitted instructions replace those of the tree.
module ThrSplice {
  import opened Modular
  import opened ThrTree
  import opened ThrBfs
  import opened ThrRebuilt
  import opened ThrMeaning
  import opened ThrEmit
  import opened ThrPass
  import opened ThrIr
  import opened ThrErase

  // The name of an operand when instruction i of the emitted code defines base + i.
  function Ref(o: Operand, base: nat): nat {
    match o
    case Ext(d) => d
    case Res(i) => base + i
  }

  function CodeLines(code: seq<Instr>, base: nat, m: Modulus): (b: Block)
    ensures |b| == |code|
  {
    if code == [] then [] else
      var n := |code| - 1;
      CodeLines(code[..n], base, m) + [Line(base + n, m, Bin(code[n].op, Ref(code[n].a, base), Ref(code[n].b, base)))]
  }

  lemma {:induction false} CodeInit(code: seq<Instr>, base: nat, m: Modulus)
    requires code != []
    ensures Init(CodeLines(code, base, m)) == CodeLines(code[..|code| - 1], base, m)
  {
  }

  lemma ScopedInit(code: seq<Instr>, leaves: set<nat>)
    requires code != [] && Scoped(code, leaves)
    ensures Scoped(code[..|code| - 1], leaves)
  {
  }

  lemma {:induction false} CodeNames(code: seq<Instr>, base: nat, m: Modulus, leaves: set<nat>)
    requires Scoped(code, leaves)
    ensures forall x :: x in Defs(CodeLines(code, base, m)) <==> base <= x < base + |code|
    ensures forall x :: x in Names(CodeLines(code, base, m)) ==> x in leaves || base <= x < base + |code|
    ensures forall x :: x in Defs(CodeLines(code, base, m)) ==> TypeOf(CodeLines(code, base, m), x) == m
  {
    if code != [] {
      CodeInit(code, base, m);
      ScopedInit(code, leaves);
      CodeNames(code[..|code| - 1], base, m, leaves);
    }
  }

  // Every name of the block is below base.
  ghost predicate NamedBelow(names: set<nat>, base: nat) {
    forall x :: x in names ==> x < base
  }

  // A value from outside the tree has the type of the tree, or is from outside the block.
  ghost predicate LeavesTyped(b: Block, leaves: set<nat>, m: Modulus) {
    forall d :: d in leaves ==> TypeOf(b, d) == 0 || TypeOf(b, d) == m
  }

  lemma {:induction false} CodeSsa(pre: Block, code: seq<Instr>, base: nat, m: Modulus, leaves: set<nat>)
    requires Ssa(pre) && NamedBelow(Names(pre), base) && NamedBelow(leaves, base) && Scoped(code, leaves)
    requires LeavesTyped(pre, leaves, m)
    ensures Ssa(pre + CodeLines(code, base, m))
  {
    var lines := CodeLines(code, base, m);
    if code == [] {
      assert pre + lines == pre;
    } else {
      var before := code[..|code| - 1];
      CodeInit(code, base, m);
      ScopedInit(code, leaves);
      CodeSsa(pre, before, base, m, leaves);
      CodeNames(before, base, m, leaves);
      InitAppend(pre, lines);
      NamesAppend(pre, Init(lines));
      OperandTyped(pre, before, base, m, leaves, code[|before|].a);
      OperandTyped(pre, before, base, m, leaves, code[|before|].b);
    }
  }

  lemma OperandTyped(pre: Block, code: seq<Instr>, base: nat, m: Modulus, leaves: set<nat>, o: Operand)
    requires Scoped(code, leaves) && OperandOk(o, |code|, leaves) && LeavesTyped(pre, leaves, m)
    requires NamedBelow(leaves, base)
    ensures var ty := TypeOf(pre + CodeLines(code, base, m), Ref(o, base)); ty == 0 || ty == m
  {
    CodeNames(code, base, m, leaves);
    TypeOfAppend(pre, CodeLines(code, base, m), Ref(o, base));
  }

  // The emitted lines compute the values that the operands stand for.
  lemma {:induction false} CodeValue(pre: Block, code: seq<Instr>, base: nat, m: Modulus, leaves: set<nat>, c: Around,
                                     o: Operand)
    requires Scoped(code, leaves) && OperandOk(o, |code|, leaves)
    requires NamedBelow(Names(pre), base) && NamedBelow(leaves, base)
    ensures Val(pre + CodeLines(code, base, m), c, Ref(o, base)) % m == Value(o, code, Values(pre, c), m)
    decreases |code|
  {
    var lines := CodeLines(code, base, m);
    CodeNames(code, base, m, leaves);
    match o
    case Ext(d) =>
      Skip(pre, lines, c, d);
    case Res(i) =>
      var n := |code| - 1;
      var before := code[..n];
      CodeInit(code, base, m);
      ScopedInit(code, leaves);
      InitAppend(pre, lines);
      if i == n {
        CodeValue(pre, before, base, m, leaves, c, code[n].a);
        CodeValue(pre, before, base, m, leaves, c, code[n].b);
        LastValue(pre + Init(lines), Last(lines), c, code[n].op, Ref(code[n].a, base), Ref(code[n].b, base));
      } else {
        CodeValue(pre, before, base, m, leaves, c, o);
        assert before[..i] == code[..i];
      }
  }

  // Operands may be reduced to the type of the result first.
  lemma LastValue(b: Block, l: Line, c: Around, op: Opcode, x: nat, y: nat)
    requires l.inst == Bin(op, x, y)
    ensures LineVal(l, c, Values(b, c)) % l.m == Apply(op, Val(b, c, x) % l.m, Val(b, c, y) % l.m) % l.m
  {
    var a, d, m := Val(b, c, x), Val(b, c, y), l.m;
    ModApply(op, a, d, m);
    assert LineVal(l, c, Values(b, c)) == Apply(op, a, d) % m;
    UniqueRemainder(Apply(op, a, d) % m, 0, Apply(op, a, d) % m, m);
  }

  lemma LastUnused(b: Block, l: Line, c: Around)
    requires b != [] && Last(b).def !in Args(l)
    ensures LineVal(l, c, Values(Init(b), c)) == LineVal(l, c, Values(b, c))
  {
    forall x | x in Args(l) ensures Values(Init(b), c)(x) == Values(b, c)(x) {
    }
    SameLineVal(l, c, Values(Init(b), c), Values(b, c));
  }

  // A line defines its value from the values of its operands after the block.
  lemma {:induction false} Equation(b: Block, d: nat, c: Around)
    requires Ssa(b) && d in Defs(b)
    ensures Val(b, c, d) == LineVal(LineOf(b, d), c, Values(b, c))
  {
    if Last(b).def != d {
      Equation(Init(b), d, c);
      LineNames(Init(b), d);
    }
    LastUnused(b, LineOf(b, d), c);
  }

  // Operands of arithmetic have the type of the result.
  lemma {:induction false} OperandTypes(b: Block, v: nat)
    requires Ssa(b) && v in Defs(b) && LineOf(b, v).inst.Bin?
    ensures WellTyped(b, LineOf(b, v))
  {
    var l := LineOf(b, v);
    if Last(b).def != v {
      OperandTypes(Init(b), v);
      LineNames(Init(b), v);
    }
    forall x | x in Args(l) ensures TypeOf(b, x) == TypeOf(Init(b), x) {
    }
  }

  // The whole tree is in one type.
  lemma {:induction false} TreeTyped(b: Block, t: Tree, v: nat, m: Modulus)
    requires Ssa(b) && Represents(b, t, v) && (TypeOf(b, v) == 0 || TypeOf(b, v) == m)
    ensures LeavesTyped(b, LeafDefs(t), m) && (t.Inner? ==> LineOf(b, v).m == m)
  {
    if t.Inner? {
      LineType(b, v);
      OperandTypes(b, v);
      var i := LineOf(b, v).inst;
      assert i.a in Args(LineOf(b, v)) && i.b in Args(LineOf(b, v));
      TreeTyped(b, t.l, i.a, m);
      TreeTyped(b, t.r, i.b, m);
    }
  }

  // The value of the tree is the value of its root in the block.
  lemma {:induction false} RepresentedValue(b: Block, t: Tree, v: nat, m: Modulus, c: Around)
    requires Ssa(b) && Represents(b, t, v) && (TypeOf(b, v) == 0 || TypeOf(b, v) == m)
    ensures Eval(t, Values(b, c), m) == Val(b, c, v) % m
  {
    if t.Inner? {
      var l := LineOf(b, v);
      TreeTyped(b, t, v, m);
      OperandTypes(b, v);
      assert l.inst.a in Args(l) && l.inst.b in Args(l);
      Equation(b, v, c);
      RepresentedValue(b, t.l, l.inst.a, m, c);
      RepresentedValue(b, t.r, l.inst.b, m, c);
      LastValue(b, l, c, l.inst.op, l.inst.a, l.inst.b);
    }
  }

  lemma {:induction false} EvalAgrees(t: Tree, f: nat -> int, g: nat -> int, m: nat)
    requires m > 0 && forall d :: d in LeafDefs(t) ==> f(d) == g(d)
    ensures Eval(t, f, m) == Eval(t, g, m)
  {
    match t
    case Leaf(n) => assert n.def in LeafDefs(t);
    case Inner(_, l, r) =>
      EvalAgrees(l, f, g, m);
      EvalAgrees(r, f, g, m);
  }

  lemma {:induction false} RepresentsKinds(b: Block, t: Tree, v: nat)
    requires Represents(b, t, v)
    ensures forall d :: d in LeafDefs(t) ==> !NodeCandidate(b, d)
    ensures forall d :: d in InnerDefs(t) ==> NodeCandidate(b, d) && d in Defs(b) && LineOf(b, d).inst.Bin?
  {
    if t.Inner? {
      RepresentsKinds(b, t.l, LineOf(b, v).inst.a);
      RepresentsKinds(b, t.r, LineOf(b, v).inst.b);
    }
  }

  lemma {:induction false} LeafRanks(b: Block, t: Tree, d: nat)
    requires Ssa(b) && Held(b, t) && t.Inner? && d in LeafDefs(t)
    ensures Rank(b, d) < Rank(b, t.n.def)
  {
    KidUsed(b, t);
    OperandsEarlier(b, t.n.def, t.l.n.def);
    OperandsEarlier(b, t.n.def, t.r.n.def);
    if d in LeafDefs(t.l) {
      if t.l.Inner? { LeafRanks(b, t.l, d); }
    } else {
      if t.r.Inner? { LeafRanks(b, t.r, d); }
    }
  }

  lemma {:induction false} RankSplit(a: Block, b: Block, d: nat)
    requires Rank(a + b, d) <= |a|
    ensures d !in Defs(b) && Rank(a, d) == Rank(a + b, d)
  {
    if b == [] {
      assert a + b == a;
    } else {
      InitAppend(a, b);
      RankSplit(a, Init(b), d);
    }
  }

  lemma {:induction false} RankOfLine(pre: Block, r: Line, post: Block)
    requires Ssa(pre + [r] + post)
    ensures Rank(pre + [r] + post, r.def) == |pre| + 1
    ensures LineOf(pre + [r] + post, r.def) == r
  {
    LaterDefs(pre + [r], post);
    NamesAppend(pre, [r]);
    NamesAppend([], [r]);
    if post == [] {
      assert pre + [r] + post == pre + [r];
    } else {
      InitAppend(pre + [r], post);
      RankOfLine(pre, r, Init(post));
    }
  }

  // What one root is replaced by. The names of the emitted lines start at base.
  datatype Rewrite = Rewrite(pre: Block, r: Line, post: Block, code: seq<Instr>, result: Operand, base: nat)

  ghost function Before(w: Rewrite): Block {
    w.pre + [w.r] + w.post
  }

  ghost function Lines(w: Rewrite): Block {
    CodeLines(w.code, w.base, w.r.m)
  }

  ghost function NewRoot(w: Rewrite): nat {
    Ref(w.result, w.base)
  }

  ghost function Inserted(w: Rewrite): Block {
    Spliced(w.pre, Lines(w), w.r, w.post, NewRoot(w))
  }

  // The tree t of the value v is not a leaf, and the code denotes its reduction.
  ghost predicate EmitsFor(b: Block, v: nat, t: Tree, t': Tree, code: seq<Instr>, result: Operand) {
    Represents(b, t, v) && t.Inner? && Arithmetic(t) &&
    Reduced(t, t') && Denotes(result, t', code) && Scoped(code, LeafDefs(t))
  }

  ghost predicate Emits(w: Rewrite, t: Tree, t': Tree) {
    Ssa(Before(w)) && NamedBelow(Names(Before(w)), w.base) && EmitsFor(Before(w), w.r.def, t, t', w.code, w.result)
  }

  lemma LeavesBefore(w: Rewrite, t: Tree, t': Tree, d: nat)
    requires Emits(w, t, t') && d in LeafDefs(t)
    ensures d in Names(Before(w)) && d !in Defs([w.r] + w.post)
  {
    var b := Before(w);
    RepresentsHeld(b, t, w.r.def);
    LeafRanks(b, t, d);
    RankOfLine(w.pre, w.r, w.post);
    assert b == w.pre + ([w.r] + w.post);
    RankSplit(w.pre, [w.r] + w.post, d);
    LeavesNamed(b, t, d);
  }

  lemma {:induction false} LeavesNamed(b: Block, t: Tree, d: nat)
    requires Held(b, t) && t.Inner? && d in LeafDefs(t)
    ensures d in Names(b)
  {
    KidUsed(b, t);
    LineNames(b, t.n.def);
    if t.l.Inner? && d in LeafDefs(t.l) {
      LeavesNamed(b, t.l, d);
    } else if t.r.Inner? && d in LeafDefs(t.r) {
      LeavesNamed(b, t.r, d);
    }
  }

  // The names of the emitted lines.
  lemma LinesAreNew(w: Rewrite, t: Tree, t': Tree)
    requires Emits(w, t, t')
    ensures Defs(Lines(w)) !! Names(Before(w)) && NewRoot(w) in Defs(Lines(w))
    ensures Names(Lines(w)) <= LeafDefs(t) + Defs(Lines(w))
    ensures NamedBelow(LeafDefs(t), w.base) && NamedBelow(Names(Before(w)), w.base)
    ensures OperandOk(w.result, |w.code|, LeafDefs(t)) && TypeOf(Lines(w), NewRoot(w)) == w.r.m
  {
    FlatInner2(t, t');
    CodeNames(w.code, w.base, w.r.m, LeafDefs(t));
    forall d | d in LeafDefs(t) ensures d < w.base {
      LeavesBefore(w, t, t', d);
    }
  }

  lemma BeforeNames(w: Rewrite)
    ensures Names(Before(w)) == Names(w.pre) + Names([w.r]) + Names(w.post)
    ensures Defs(w.post) <= Names(w.post) && Defs(w.pre) <= Names(w.pre)
    ensures w.r.def in Names([w.r]) && forall x :: x in Args(w.r) ==> x in Names([w.r])
  {
    NamesAppend(w.pre + [w.r], w.post);
    NamesAppend(w.pre, [w.r]);
    NamesAppend([], w.pre);
    assert [] + w.pre == w.pre && Last([w.r]) == w.r;
  }

  lemma RootType(w: Rewrite)
    requires Ssa(Before(w))
    ensures TypeOf(Before(w), w.r.def) == w.r.m
  {
    RankOfLine(w.pre, w.r, w.post);
    LineType(Before(w), w.r.def);
  }

  // The tree has the value of the root already from the values before the root.
  lemma ValueBefore(w: Rewrite, t: Tree, t': Tree, c: Around)
    requires Emits(w, t, t')
    ensures Eval(t, Values(w.pre, c), w.r.m) == LineVal(w.r, c, Values(w.pre, c))
  {
    var b := Before(w);
    assert b == w.pre + ([w.r] + w.post);
    forall d | d in LeafDefs(t) ensures Values(w.pre, c)(d) == Values(b, c)(d) {
      LeavesBefore(w, t, t', d);
      Skip(w.pre, [w.r] + w.post, c, d);
    }
    EvalAgrees(t, Values(w.pre, c), Values(b, c), w.r.m);
    ValueAfter(w, t, t', c);
  }

  lemma ValueAfter(w: Rewrite, t: Tree, t': Tree, c: Around)
    requires Emits(w, t, t')
    ensures Eval(t, Values(Before(w), c), w.r.m) == LineVal(w.r, c, Values(w.pre, c))
  {
    RootType(w);
    RepresentedValue(Before(w), t, w.r.def, w.r.m, c);
    LineEquation(w.pre, w.r, w.post, c);
    RankOfLine(w.pre, w.r, w.post);
    assert w.r.def in Defs(Before(w));
    ValInType(Before(w), c, w.r.def);
  }

  // The emitted code computes the value of the root.
  lemma CodeComputes(w: Rewrite, t: Tree, t': Tree, c: Around)
    requires Emits(w, t, t')
    ensures Val(w.pre + Lines(w), c, NewRoot(w)) == LineVal(w.r, c, Values(w.pre, c))
  {
    LinesAreNew(w, t, t');
    BeforeNames(w);
    CodeValue(w.pre, w.code, w.base, w.r.m, LeafDefs(t), c, w.result);
    EmittedIsEquivalent(t, t', w.code, w.result, Values(w.pre, c), w.r.m);
    ValueBefore(w, t, t', c);
    NamesAppend(w.pre, Lines(w));
    TypeOfAppend(w.pre, Lines(w), NewRoot(w));
    ValInType(w.pre + Lines(w), c, NewRoot(w));
  }

  lemma CodeReplaces(w: Rewrite, t: Tree, t': Tree, c: Around)
    requires Emits(w, t, t')
    ensures Replaces(w.pre, Lines(w), w.r, NewRoot(w), c)
  {
    LinesAreNew(w, t, t');
    BeforeNames(w);
    CodeComputes(w, t, t', c);
  }

  // Neither the root nor a later line defines a name of the emitted lines.
  lemma LinesUseEarlier(w: Rewrite, t: Tree, t': Tree)
    requires Emits(w, t, t')
    ensures Defs([w.r] + w.post) !! Names(Lines(w))
  {
    LinesAreNew(w, t, t');
    BeforeNames(w);
    NamesAppend([w.r], w.post);
    forall d | d in LeafDefs(t) ensures d !in Defs([w.r] + w.post) {
      LeavesBefore(w, t, t', d);
    }
  }

  lemma LeavesTypedBefore(w: Rewrite, t: Tree, t': Tree)
    requires Emits(w, t, t')
    ensures LeavesTyped(w.pre, LeafDefs(t), w.r.m)
  {
    var b := Before(w);
    RootType(w);
    TreeTyped(b, t, w.r.def, w.r.m);
    assert b == w.pre + ([w.r] + w.post);
    forall d | d in LeafDefs(t) ensures TypeOf(w.pre, d) == TypeOf(b, d) {
      LeavesBefore(w, t, t', d);
      TypeOfAppend(w.pre, [w.r] + w.post, d);
    }
  }

  lemma InsertedSsa(w: Rewrite, t: Tree, t': Tree)
    requires Emits(w, t, t')
    ensures Ssa(Inserted(w))
  {
    LinesAreNew(w, t, t');
    LinesUseEarlier(w, t, t');
    BeforeNames(w);
    NamesAppend([w.r], w.post);
    NamesAppend([], Lines(w));
    assert [] + Lines(w) == Lines(w);
    SsaPrefix(w.pre + [w.r], w.post);
    SsaPrefix(w.pre, [w.r]);
    LeavesTypedBefore(w, t, t');
    CodeSsa(w.pre, w.code, w.base, w.r.m, LeafDefs(t));
    LaterDefs(w.pre + [w.r], w.post);
    NamesAppend(w.pre, [w.r]);
    SpliceSsa(w.pre, Lines(w), w.r, w.post, NewRoot(w));
  }

  // The other values do not see the insertion, and the new root has the value of the old one.
  lemma InsertedKeeps(w: Rewrite, t: Tree, t': Tree, c: Around, v: nat)
    requires Emits(w, t, t') && v !in Defs(Lines(w))
    ensures Val(Inserted(w), c, v) == Val(Before(w), c, v)
    ensures Val(Inserted(w), c, NewRoot(w)) == Val(Before(w), c, w.r.def)
  {
    CodeReplaces(w, t, t', c);
    LinesAreNew(w, t, t');
    BeforeNames(w);
    LaterDefs(w.pre + [w.r], w.post);
    NamesAppend(w.pre, [w.r]);
    SpliceKeeps(w.pre, Lines(w), w.r, w.post, NewRoot(w), c, v);
  }

  lemma {:induction false} LineOfAppend(a: Block, b: Block, d: nat)
    requires d in Defs(a) && d !in Defs(b)
    ensures d in Defs(a + b) && LineOf(a + b, d) == LineOf(a, d)
  {
    if b == [] {
      assert a + b == a;
    } else {
      InitAppend(a, b);
      LineOfAppend(a, Init(b), d);
    }
  }

  lemma {:induction false} LineOfSuffix(a: Block, b: Block, d: nat)
    requires d in Defs(b)
    ensures d in Defs(a + b) && LineOf(a + b, d) == LineOf(b, d)
  {
    InitAppend(a, b);
    if Last(b).def != d {
      LineOfSuffix(a, Init(b), d);
    }
  }

  // An inner node of the tree keeps its line, and those below the root keep their uses.
  lemma InsertedLine(w: Rewrite, t: Tree, t': Tree, d: nat)
    requires Emits(w, t, t') && d in InnerDefs(t)
    ensures SameLine(Before(w), Inserted(w), d)
  {
    var b := Before(w);
    var tail := Subst(w.post, w.r.def, NewRoot(w));
    RepresentsHeld(b, t, w.r.def);
    InnerRanks(b, t, d);
    RankOfLine(w.pre, w.r, w.post);
    RankSplit(w.pre + [w.r], w.post, d);
    NamesAppend(w.pre + [w.r], w.post);
    SubstNames(w.post, w.r.def, NewRoot(w));
    LineOfAppend(w.pre + [w.r], w.post, d);
    NamesAppend(w.pre, [w.r]);
    LinesAreNew(w, t, t');
    BeforeNames(w);
    if d == w.r.def {
      LineOfSuffix(w.pre, [w.r], d);
      LineOfSuffix(w.pre + Lines(w), [w.r], d);
    } else {
      LineOfAppend(w.pre, [w.r], d);
      LineOfAppend(w.pre, Lines(w), d);
      NamesAppend(w.pre, Lines(w));
      LineOfAppend(w.pre + Lines(w), [w.r], d);
    }
    LineOfAppend(w.pre + Lines(w) + [w.r], tail, d);
  }

  lemma UsesSplit(a: Block, b: Block, e: Block, f: Block, d: nat)
    ensures Uses(a + b + e + f, d) == Uses(a, d) + Uses(b, d) + Uses(e, d) + Uses(f, d)
  {
    UsesAppend(a + b + e, f, d);
    UsesAppend(a + b, e, d);
    UsesAppend(a, b, d);
  }

  lemma NodeNotInLines(w: Rewrite, t: Tree, t': Tree, d: nat)
    requires Emits(w, t, t') && d in InnerDefs(t)
    ensures Uses(Lines(w), d) == 0 && d != NewRoot(w) && w.r.def != NewRoot(w)
  {
    var b := Before(w);
    LinesAreNew(w, t, t');
    RepresentsKinds(b, t, w.r.def);
    BeforeNames(w);
    NamesAppend([], b);
    assert [] + b == b;
    NoUse(Lines(w), d);
  }

  lemma InsertedUses(w: Rewrite, t: Tree, t': Tree, d: nat)
    requires Emits(w, t, t') && d in InnerDefs(t)
    ensures d != w.r.def ==> Uses(Inserted(w), d) == Uses(Before(w), d)
    ensures d == w.r.def ==> Uses(Inserted(w), d) == 0
  {
    var tail := Subst(w.post, w.r.def, NewRoot(w));
    NodeNotInLines(w, t, t', d);
    SubstNames(w.post, w.r.def, NewRoot(w));
    UsesSplit(w.pre, Lines(w), [w.r], tail, d);
    UsesSplit(w.pre, [], [w.r], w.post, d);
    assert w.pre + [] == w.pre;
    RootUnusedBefore(w);
  }

  lemma RootUnusedBefore(w: Rewrite)
    requires Ssa(Before(w))
    ensures Uses(w.pre, w.r.def) == 0 && Uses([w.r], w.r.def) == 0
  {
    SsaPrefix(w.pre + [w.r], w.post);
    assert Init(w.pre + [w.r]) == w.pre;
    NoUse(w.pre, w.r.def);
    assert Init([w.r]) == [];
  }

  // The originals can be erased in the order in which they were collected.
  lemma OriginalsErasable(w: Rewrite, t: Tree, t': Tree)
    requires Emits(w, t, t')
    ensures Ssa(Inserted(w)) && ErasableInOrder(Inserted(w), DefsOf(Bfs([t])))
  {
    var b := Before(w);
    InsertedSsa(w, t, t');
    RepresentsHeld(b, t, w.r.def);
    NoDupHeld(b, t);
    forall d | d in InnerDefs(t) ensures SameLine(b, Inserted(w), d) {
      InsertedLine(w, t, t', d);
    }
    forall d | d in BelowDefs(t) ensures Uses(Inserted(w), d) == Uses(b, d) {
      InsertedUses(w, t, t', d);
    }
    HeldFrame(b, Inserted(w), t);
    InsertedUses(w, t, t', w.r.def);
    TreeErasesInOrder(Inserted(w), t);
  }
}
