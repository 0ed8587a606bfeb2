// The instructions of a basic block, their values, and what splicing in and erasing lines keeps.
module ThrIr {
  import opened Collections
  import opened ThrTree
  import opened ThrMeaning

  datatype Kind = Phi | Cmp | Elsewhere | Plain

  // Values are numbers. Integer additions and multiplications are spelled out; every other instruction is opaque.
  // Uses in other blocks, by phis for instance, are operands of opaque lines at the end; those by additions and
  // multiplications that could be targets there are of kind Elsewhere.
  datatype Inst = Bin(op: Opcode, a: nat, b: nat) | Opaque(kind: Kind, operands: seq<nat>)

  // The modulus of the integer type of a value.
  type Modulus = m: nat | m > 0 witness 1

  datatype Line = Line(def: nat, m: Modulus, inst: Inst)
  type Block = seq<Line>

  function Args(l: Line): (a: seq<nat>) {
    match l.inst
    case Bin(_, a, b) => [a, b]
    case Opaque(_, operands) => operands
  }

  function Init(b: Block): Block
    requires b != []
  {
    b[..|b| - 1]
  }

  function Last(b: Block): Line
    requires b != []
  {
    b[|b| - 1]
  }

  function Defs(b: Block): set<nat> {
    if b == [] then {} else Defs(Init(b)) + {Last(b).def}
  }

  // Everything defined or used.
  function Names(b: Block): set<nat> {
    if b == [] then {} else Names(Init(b)) + {Last(b).def} + (set x | x in Args(Last(b)))
  }

  // The type of a value of the block, 0 for a value from outside.
  function TypeOf(b: Block, v: nat): nat {
    if b == [] then 0 else if Last(b).def == v then Last(b).m else TypeOf(Init(b), v)
  }

  // Operands of the block have the type of the result.
  predicate WellTyped(b: Block, l: Line) {
    forall x :: x in Args(l) ==> TypeOf(b, x) == 0 || TypeOf(b, x) == l.m
  }

  // Definitions are distinct and come before all their uses, and arithmetic is within one type.
  predicate Ssa(b: Block) {
    b == [] ||
    (Ssa(Init(b)) && Last(b).def !in Names(Init(b)) && Last(b).def !in Args(Last(b)) &&
     (Last(b).inst.Bin? ==> IsCommutative(Last(b).inst.op) && WellTyped(Init(b), Last(b))))
  }

  function UsesIn(l: Line, v: nat): nat {
    multiset(Args(l))[v]
  }

  // The number of operands that are v.
  function Uses(b: Block, v: nat): nat {
    if b == [] then 0 else Uses(Init(b), v) + UsesIn(Last(b), v)
  }

  // Values of outside names and meaning of opaque instructions.
  datatype Around = Around(env: nat -> int, meaning: (nat, seq<int>) -> int)

  function LineVal(l: Line, c: Around, val: nat -> int): int
  {
    match l.inst
    case Bin(op, a, b) => Apply(op, val(a), val(b)) % l.m
    case Opaque(_, operands) => c.meaning(l.def, Map(val, operands)) % l.m
  }

  // The value of v after the block.
  function Val(b: Block, c: Around, v: nat): int
    decreases |b|, 0
  {
    if b == [] then c.env(v)
    else if Last(b).def == v then LineVal(Last(b), c, Values(Init(b), c))
    else Val(Init(b), c, v)
  }

  function Values(b: Block, c: Around): nat -> int
    decreases |b|, 1
  {
    (x: nat) => Val(b, c, x)
  }

  lemma InitAppend(a: Block, b: Block)
    requires b != []
    ensures Init(a + b) == a + Init(b) && Last(a + b) == Last(b)
  {
  }

  lemma {:induction false} NamesAppend(a: Block, b: Block)
    ensures Names(a + b) == Names(a) + Names(b)
    ensures Defs(a + b) == Defs(a) + Defs(b)
    ensures Defs(b) <= Names(b)
  {
    if b == [] {
      assert a + b == a;
    } else {
      InitAppend(a, b);
      NamesAppend(a, Init(b));
    }
  }

  lemma {:induction false} UsesAppend(a: Block, b: Block, v: nat)
    ensures Uses(a + b, v) == Uses(a, v) + Uses(b, v)
  {
    if b == [] {
      assert a + b == a;
    } else {
      InitAppend(a, b);
      UsesAppend(a, Init(b), v);
    }
  }

  lemma {:induction false} NoUse(b: Block, v: nat)
    requires v !in Names(b)
    ensures Uses(b, v) == 0
  {
    if b != [] {
      NoUse(Init(b), v);
    }
  }

  // Lines that do not define v do not change it.
  lemma {:induction false} Skip(a: Block, b: Block, c: Around, v: nat)
    requires v !in Defs(b)
    ensures Val(a + b, c, v) == Val(a, c, v)
  {
    if b == [] {
      assert a + b == a;
    } else {
      InitAppend(a, b);
      Skip(a, Init(b), c, v);
    }
  }

  // A value of the block is a value of its type.
  lemma {:induction false} ValInType(b: Block, c: Around, v: nat)
    requires v in Defs(b)
    ensures TypeOf(b, v) > 0 && Val(b, c, v) % TypeOf(b, v) == Val(b, c, v)
  {
    if Last(b).def != v {
      ValInType(Init(b), c, v);
    }
  }

  lemma {:induction false} TypeOfAppend(a: Block, b: Block, v: nat)
    ensures TypeOf(a + b, v) == if v in Defs(b) then TypeOf(b, v) else TypeOf(a, v)
    ensures v !in Defs(b) ==> TypeOf(b, v) == 0
  {
    if b == [] {
      assert a + b == a;
    } else {
      InitAppend(a, b);
      TypeOfAppend(a, Init(b), v);
    }
  }

  lemma {:induction false} LineType(b: Block, d: nat)
    requires d in Defs(b)
    ensures LineOf(b, d).m == TypeOf(b, d)
  {
    if Last(b).def != d {
      LineType(Init(b), d);
    }
  }

  lemma SameLineVal(l: Line, c: Around, f: nat -> int, g: nat -> int)
    requires forall x :: x in Args(l) ==> f(x) == g(x)
    ensures LineVal(l, c, f) == LineVal(l, c, g)
  {
    match l.inst
    case Bin(_, a, b) =>
      assert a in Args(l) && b in Args(l);
    case Opaque(_, operands) =>
      assert Map(f, operands) == Map(g, operands);
  }

  // A prefix of a block is a block.
  lemma {:induction false} SsaPrefix(a: Block, b: Block)
    requires Ssa(a + b)
    ensures Ssa(a)
  {
    if b == [] {
      assert a + b == a;
    } else {
      InitAppend(a, b);
      SsaPrefix(a, Init(b));
    }
  }

  // In such a block a line defines its value from the values that its operands have after the block.
  lemma LineEquation(pre: Block, l: Line, post: Block, c: Around)
    requires Ssa(pre + [l] + post)
    ensures Val(pre + [l] + post, c, l.def) == LineVal(l, c, Values(pre, c))
    ensures Val(pre + [l] + post, c, l.def) == LineVal(l, c, Values(pre + [l] + post, c))
    ensures forall x :: x in Args(l) ==> Val(pre + [l] + post, c, x) == Val(pre, c, x)
  {
    LaterDefs(pre + [l], post);
    SsaPrefix(pre + [l], post);
    assert Init(pre + [l]) == pre && Last(pre + [l]) == l;
    assert Names([l]) == {l.def} + (set x | x in Args(l)) by {
      assert Init([l]) == [];
    }
    NamesAppend(pre, [l]);
    Skip(pre + [l], post, c, l.def);
    forall x | x in Args(l) ensures Val(pre + [l] + post, c, x) == Val(pre, c, x) {
      Skip(pre + [l], post, c, x);
    }
    SameLineVal(l, c, Values(pre, c), Values(pre + [l] + post, c));
  }

  // Later definitions are not named before.
  lemma {:induction false} LaterDefs(a: Block, b: Block)
    requires Ssa(a + b)
    ensures Names(a) !! Defs(b)
  {
    if b != [] {
      InitAppend(a, b);
      LaterDefs(a, Init(b));
      NamesAppend(a, Init(b));
    }
  }

  // Replacing all uses.
  function SubstArgs(s: seq<nat>, from: nat, to: nat): (r: seq<nat>) {
    Map(x => if x == from then to else x, s)
  }

  function SubstLine(l: Line, from: nat, to: nat): Line {
    match l.inst
    case Bin(op, a, b) => Line(l.def, l.m, Bin(op, if a == from then to else a, if b == from then to else b))
    case Opaque(kind, operands) => Line(l.def, l.m, Opaque(kind, SubstArgs(operands, from, to)))
  }

  function Subst(b: Block, from: nat, to: nat): (r: Block)
    ensures |r| == |b|
  {
    if b == [] then [] else Subst(Init(b), from, to) + [SubstLine(Last(b), from, to)]
  }

  lemma SubstLineArgs(l: Line, from: nat, to: nat)
    ensures forall x :: x in Args(SubstLine(l, from, to)) ==> x == to || (x != from && x in Args(l))
    ensures from != to ==> from !in Args(SubstLine(l, from, to))
    ensures forall v :: v != from && v != to ==> UsesIn(SubstLine(l, from, to), v) == UsesIn(l, v)
  {
    var s, r := Args(l), Args(SubstLine(l, from, to));
    assert |r| == |s| && forall i :: 0 <= i < |s| ==> r[i] == if s[i] == from then to else s[i];
    forall v | v != from && v != to ensures multiset(r)[v] == multiset(s)[v] {
      SameCount(s, r, v);
    }
  }

  lemma {:induction false} SameCount(s: seq<nat>, r: seq<nat>, v: nat)
    requires |s| == |r| && forall i :: 0 <= i < |s| ==> (r[i] == v <==> s[i] == v)
    ensures multiset(r)[v] == multiset(s)[v]
  {
    if s != [] {
      SameCount(s[1..], r[1..], v);
      assert s == [s[0]] + s[1..] && r == [r[0]] + r[1..];
    }
  }

  lemma {:induction false} SubstNames(b: Block, from: nat, to: nat)
    ensures Defs(Subst(b, from, to)) == Defs(b)
    ensures forall v :: TypeOf(Subst(b, from, to), v) == TypeOf(b, v)
    ensures Names(Subst(b, from, to)) <= Names(b) + {to}
    ensures from != to ==> Uses(Subst(b, from, to), from) == 0
    ensures forall v :: v != from && v != to ==> Uses(Subst(b, from, to), v) == Uses(b, v)
  {
    if b != [] {
      SubstNames(Init(b), from, to);
      SubstLineArgs(Last(b), from, to);
      assert Init(Subst(b, from, to)) == Subst(Init(b), from, to);
    }
  }

  // The block after the code has been inserted before the line r and its value replaces that of r.
  function Spliced(pre: Block, code: Block, r: Line, post: Block, to: nat): Block {
    pre + code + [r] + Subst(post, r.def, to)
  }

  lemma SplicedInit(pre: Block, code: Block, r: Line, post: Block, to: nat)
    requires post != []
    ensures Init(Spliced(pre, code, r, post, to)) == Spliced(pre, code, r, Init(post), to)
    ensures Last(Spliced(pre, code, r, post, to)) == SubstLine(Last(post), r.def, to)
    ensures Init(pre + [r] + post) == pre + [r] + Init(post) && Last(pre + [r] + post) == Last(post)
  {
  }

  // The code is new to the block and computes the value of r in to.
  ghost predicate Replaces(pre: Block, code: Block, r: Line, to: nat, c: Around) {
    to in Defs(code) && Defs(code) !! Names(pre) && r.def !in Defs(code) &&
    (forall x :: x in Args(r) ==> x !in Defs(code)) &&
    Val(pre + code, c, to) == LineVal(r, c, Values(pre, c))
  }

  // The line r does not change when the code is before it.
  lemma SpliceRoot(pre: Block, code: Block, r: Line, to: nat, c: Around, v: nat)
    requires Replaces(pre, code, r, to, c) && v !in Defs(code)
    ensures Val(pre + code + [r], c, v) == Val(pre + [r], c, v)
    ensures Val(pre + code + [r], c, to) == Val(pre + [r], c, r.def)
  {
    assert Init(pre + code + [r]) == pre + code && Init(pre + [r]) == pre;
    Skip(pre, code, c, v);
    forall x | x in Args(r) ensures Val(pre + code, c, x) == Val(pre, c, x) {
      Skip(pre, code, c, x);
    }
    SameLineVal(r, c, Values(pre + code, c), Values(pre, c));
  }

  // When the new value is the value of r, every value that was there is unchanged.
  lemma {:induction false} SpliceKeeps(pre: Block, code: Block, r: Line, post: Block, to: nat, c: Around, v: nat)
    requires Replaces(pre, code, r, to, c) && v !in Defs(code)
    requires Names(post) !! Defs(code) && r.def !in Defs(post)
    ensures Val(Spliced(pre, code, r, post, to), c, v) == Val(pre + [r] + post, c, v)
    ensures Val(Spliced(pre, code, r, post, to), c, to) == Val(pre + [r] + post, c, r.def)
    decreases |post|
  {
    if post == [] {
      assert Spliced(pre, code, r, post, to) == pre + code + [r];
      assert pre + [r] + post == pre + [r];
      SpliceRoot(pre, code, r, to, c, v);
    } else {
      SplicedInit(pre, code, r, post, to);
      var l := Last(post);
      var p, q := pre + [r] + Init(post), Spliced(pre, code, r, Init(post), to);
      SpliceKeeps(pre, code, r, Init(post), to, c, v);
      if v == l.def {
        forall x | x in Args(l) ensures Val(q, c, if x == r.def then to else x) == Val(p, c, x) {
          SpliceKeeps(pre, code, r, Init(post), to, c, x);
        }
        SubstLineVal(l, r.def, to, c, Values(p, c), Values(q, c));
      }
    }
  }

  lemma SubstLineVal(l: Line, from: nat, to: nat, c: Around, f: nat -> int, g: nat -> int)
    requires forall x :: x in Args(l) ==> g(if x == from then to else x) == f(x)
    ensures LineVal(SubstLine(l, from, to), c, g) == LineVal(l, c, f)
  {
    match l.inst
    case Bin(_, a, b) =>
      assert a in Args(l) && b in Args(l);
    case Opaque(_, operands) =>
      assert Map(g, SubstArgs(operands, from, to)) == Map(f, operands);
  }

  lemma SpliceRootSsa(pre: Block, code: Block, r: Line)
    requires Ssa(pre + [r]) && Ssa(pre + code) && r.def !in Names(code) && forall x :: x in Args(r) ==> x !in Defs(code)
    ensures Ssa(pre + code + [r]) && Names(pre + code + [r]) == Names(pre + [r]) + Names(code)
  {
    NamesAppend(pre, [r]);
    NamesAppend(pre, code);
    NamesAppend(pre + code, [r]);
    assert Init(pre + [r]) == pre && Init(pre + code + [r]) == pre + code;
    forall x | x in Args(r) ensures TypeOf(pre + code, x) == TypeOf(pre, x) {
      TypeOfAppend(pre, code, x);
    }
  }

  // The types after the insertion.
  lemma SplicedType(pre: Block, code: Block, r: Line, post: Block, to: nat, v: nat)
    ensures v !in Defs(code) ==> TypeOf(Spliced(pre, code, r, post, to), v) == TypeOf(pre + [r] + post, v)
    ensures v in Defs(code) && v != r.def && v !in Defs(post) ==>
      TypeOf(Spliced(pre, code, r, post, to), v) == TypeOf(code, v)
    ensures v == r.def && v !in Defs(post) ==> TypeOf(pre + [r] + post, v) == r.m
  {
    SubstNames(post, r.def, to);
    TypeOfFour(pre, code, r, Subst(post, r.def, to), v);
    TypeOfFour(pre, [], r, post, v);
    assert pre + [] == pre;
  }

  lemma TypeOfFour(pre: Block, code: Block, r: Line, post: Block, v: nat)
    ensures TypeOf(pre + code + [r] + post, v) ==
      if v in Defs(post) then TypeOf(post, v) else if v == r.def then r.m
      else if v in Defs(code) then TypeOf(code, v) else TypeOf(pre, v)
  {
    assert Init([r]) == [];
    TypeOfAppend(pre + code + [r], post, v);
    TypeOfAppend(pre + code, [r], v);
    TypeOfAppend(pre, code, v);
  }

  // The code is new, and its result has the type of the line it replaces.
  ghost predicate Fitting(code: Block, r: Line, to: nat) {
    to in Defs(code) && Defs(code) <= Names(code) && TypeOf(code, to) == r.m && r.def !in Names(code)
  }

  lemma {:induction false} SpliceSsa(pre: Block, code: Block, r: Line, post: Block, to: nat)
    requires Ssa(pre + [r] + post) && Ssa(pre + code) && Fitting(code, r, to)
    requires Defs(post) !! Names(code) && r.def !in Defs(post)
    requires (forall x :: x in Args(r) ==> x !in Defs(code)) && Names(post) !! Defs(code)
    ensures Ssa(Spliced(pre, code, r, post, to))
    ensures Names(Spliced(pre, code, r, post, to)) <= Names(pre + [r] + post) + Names(code)
    decreases |post|
  {
    if post == [] {
      assert Spliced(pre, code, r, post, to) == pre + code + [r];
      assert pre + [r] + post == pre + [r];
      SpliceRootSsa(pre, code, r);
    } else {
      SplicedInit(pre, code, r, post, to);
      SpliceSsa(pre, code, r, Init(post), to);
      SubstLineArgs(Last(post), r.def, to);
      SplicedTyped(pre, code, r, Init(post), to, Last(post));
    }
  }

  lemma SplicedTyped(pre: Block, code: Block, r: Line, post: Block, to: nat, l: Line)
    requires Fitting(code, r, to) && Defs(post) !! Names(code) && r.def !in Defs(post)
    requires forall x :: x in Args(l) ==> x !in Defs(code)
    ensures WellTyped(pre + [r] + post, l) ==> WellTyped(Spliced(pre, code, r, post, to), SubstLine(l, r.def, to))
  {
    SplicedType(pre, code, r, post, to, to);
    SplicedType(pre, code, r, post, to, r.def);
    SubstLineFrom(l, r.def, to);
    forall y | y in Args(SubstLine(l, r.def, to)) && y != to
      ensures TypeOf(Spliced(pre, code, r, post, to), y) == TypeOf(pre + [r] + post, y)
    {
      SplicedType(pre, code, r, post, to, y);
    }
  }

  lemma SubstLineFrom(l: Line, from: nat, to: nat)
    ensures forall y :: y in Args(SubstLine(l, from, to)) ==> y in Args(l) || (y == to && from in Args(l))
  {
    var s, r := Args(l), Args(SubstLine(l, from, to));
    assert |r| == |s| && forall i :: 0 <= i < |s| ==> r[i] == if s[i] == from then to else s[i];
  }

  // eraseFromParent.
  function Erase(b: Block, d: nat): Block {
    if b == [] then [] else if Last(b).def == d then Init(b) else Erase(Init(b), d) + [Last(b)]
  }

  // The line that defines d.
  function LineOf(b: Block, d: nat): (l: Line)
    requires d in Defs(b)
    ensures l.def == d && l in b
  {
    if Last(b).def == d then Last(b) else LineOf(Init(b), d)
  }

  lemma {:induction false} LineUses(b: Block, d: nat, v: nat)
    requires d in Defs(b)
    ensures UsesIn(LineOf(b, d), v) <= Uses(b, v)
  {
    if Last(b).def != d {
      LineUses(Init(b), d, v);
    }
  }

  // Two different lines use v at most as often as the block.
  lemma {:induction false} TwoLineUses(b: Block, d: nat, e: nat, v: nat)
    requires d in Defs(b) && e in Defs(b) && d != e
    ensures UsesIn(LineOf(b, d), v) + UsesIn(LineOf(b, e), v) <= Uses(b, v)
  {
    if Last(b).def == d {
      LineUses(Init(b), e, v);
    } else if Last(b).def == e {
      LineUses(Init(b), d, v);
    } else {
      TwoLineUses(Init(b), d, e, v);
    }
  }

  lemma {:induction false} EraseTypes(b: Block, d: nat, v: nat)
    requires Ssa(b)
    ensures TypeOf(Erase(b, d), v) == if v == d then 0 else TypeOf(b, v)
  {
    if b != [] {
      EraseTypes(Init(b), d, v);
      if Last(b).def == d {
        NamesAppend([], Init(b));
        assert [] + Init(b) == Init(b);
        TypeOfAppend([], Init(b), d);
      } else {
        assert Init(Erase(b, d)) == Erase(Init(b), d);
      }
    }
  }

  lemma {:induction false} EraseFacts(b: Block, d: nat)
    requires Ssa(b) && d in Defs(b)
    ensures Ssa(Erase(b, d)) && Defs(Erase(b, d)) == Defs(b) - {d}
    ensures Names(Erase(b, d)) <= Names(b) && |Erase(b, d)| + 1 == |b|
    ensures forall v :: Uses(Erase(b, d), v) + UsesIn(LineOf(b, d), v) == Uses(b, v)
    ensures forall e :: e in Defs(b) && e != d ==> LineOf(Erase(b, d), e) == LineOf(b, e)
  {
    NamesAppend([], Init(b));
    assert [] + Init(b) == Init(b);
    if Last(b).def != d {
      EraseFacts(Init(b), d);
      assert Init(Erase(b, d)) == Erase(Init(b), d);
      ErasedTyped(Init(b), d, Last(b));
    }
  }

  lemma ErasedTyped(b: Block, d: nat, l: Line)
    requires Ssa(b)
    ensures WellTyped(b, l) ==> WellTyped(Erase(b, d), l)
  {
    forall x | x in Args(l) ensures TypeOf(Erase(b, d), x) == 0 || TypeOf(Erase(b, d), x) == TypeOf(b, x) {
      EraseTypes(b, d, x);
    }
  }

  // Erasing a line without users changes no other value.
  lemma {:induction false} EraseKeeps(b: Block, d: nat, c: Around, v: nat)
    requires Uses(b, d) == 0 && v != d
    ensures Val(Erase(b, d), c, v) == Val(b, c, v)
    decreases |b|
  {
    if b != [] && Last(b).def != d {
      assert Init(Erase(b, d)) == Erase(Init(b), d);
      forall x | x in Args(Last(b)) ensures Val(Erase(Init(b), d), c, x) == Val(Init(b), c, x) {
        EraseKeeps(Init(b), d, c, x);
      }
      SameLineVal(Last(b), c, Values(Erase(Init(b), d), c), Values(Init(b), c));
      if v != Last(b).def {
        EraseKeeps(Init(b), d, c, v);
      }
    }
  }

  // A number above all names.
  function Unused(b: Block): (n: nat)
    ensures forall x :: x in Names(b) ==> x < n
  {
    if b == [] then 0 else
      var n := Unused(Init(b));
      var n := if Last(b).def < n then n else Last(b).def + 1;
      Above(Args(Last(b)), n)
  }

  function Above(s: seq<nat>, n0: nat): (n: nat)
    ensures n0 <= n && forall x :: x in s ==> x < n
  {
    if s == [] then n0 else
      assert s == [s[0]] + s[1..];
      Above(s[1..], if s[0] < n0 then n0 else s[0] + 1)
  }
}
