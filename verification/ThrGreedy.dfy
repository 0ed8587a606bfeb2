// Why merging the two lowest latencies is optimal: a list of latencies can be combined into a binary
// tree of latency at most x exactly when its Kraft sum at x is at most one.
module ThrGreedy {
  import opened Collections

  function Pow2(e: nat): (p: nat)
    ensures p > 0
  {
    if e == 0 then 1 else 2 * Pow2(e - 1)
  }

  lemma {:induction false} Pow2Split(e: nat, f: nat)
    requires e <= f
    ensures Pow2(f) == Pow2(f - e) * Pow2(e)
    ensures Pow2(e) <= Pow2(f)
  {
    if f > e {
      Pow2Split(e, f - 1);
      Twice(Pow2(f - 1 - e), Pow2(e));
    }
  }

  lemma Twice(a: nat, b: nat)
    ensures 2 * (a * b) == (2 * a) * b
  {
  }

  // How many more operations of latency c a value ready at lat can pass before x.
  function Slots(lat: real, c: real, x: real): int
    requires c > 0.0
  {
    ((x - lat) / c).Floor
  }

  lemma SameFactor(a: real, b: real, c: real)
    requires c > 0.0 && a * c == b * c
    ensures a == b
  {
  }

  lemma SlotsLaws(a: real, b: real, c: real, x: real)
    requires c > 0.0
    ensures a <= x <==> Slots(a, c, x) >= 0
    ensures a <= b ==> Slots(a, c, x) >= Slots(b, c, x)
    ensures Slots(a + c, c, x) == Slots(a, c, x) - 1
  {
    var p, q, r := (x - a) / c, (x - b) / c, (x - (a + c)) / c;
    assert p * c == x - a && q * c == x - b && r * c == x - a - c;
    SameFactor(r, p - 1.0, c);
    if a <= b && p < q {
      assert p * c < q * c;
    }
    assert a <= x <==> p >= 0.0 by {
      if p < 0.0 { assert p * c < 0.0; } else { assert p * c >= 0.0; }
    }
  }

  function Room(c: real, x: real): nat
    requires c > 0.0
  {
    if x < 0.0 then 0 else SlotsLaws(0.0, 0.0, c, x); Slots(0.0, c, x)
  }

  // The share of the room at x that a value ready at lat takes, in units of 1 / Pow2(Room(c, x)).
  function Weight(lat: real, c: real, x: real): nat
    requires c > 0.0
  {
    if lat > x then Pow2(Room(c, x)) + 1
    else if lat < 0.0 then 1
    else
      SlotsLaws(0.0, lat, c, x);
      Pow2(Room(c, x) - Slots(lat, c, x))
  }

  ghost function WeightOf(c: real, x: real): real -> nat
    requires c > 0.0
  {
    lat => Weight(lat, c, x)
  }

  ghost predicate NonNegative(lats: seq<real>) {
    forall i :: 0 <= i < |lats| ==> lats[i] >= 0.0
  }

  ghost predicate AllWithin(lats: seq<real>, x: real) {
    forall i :: 0 <= i < |lats| ==> lats[i] <= x
  }

  // Some binary tree over values ready at lats is finished by x, if every operation takes c.
  ghost predicate Fits(lats: seq<real>, c: real, x: real)
    requires c >= 0.0
  {
    if c == 0.0 then AllWithin(lats, x)
    else SumBy(WeightOf(c, x), lats) <= Pow2(Room(c, x))
  }

  lemma WeightLaws(a: real, b: real, c: real, x: real)
    requires c > 0.0 && 0.0 <= a <= b
    ensures 0 < Weight(a, c, x) <= Weight(b, c, x)
    ensures Weight(a, c, x) <= Pow2(Room(c, x)) <==> a <= x
    ensures b + c <= x ==> Weight(b + c, c, x) == 2 * Weight(b, c, x)
    ensures b <= x < b + c ==> Weight(b, c, x) == Pow2(Room(c, x))
  {
    SlotsLaws(a, b, c, x);
    SlotsLaws(b, b, c, x);
    SlotsLaws(b + c, b, c, x);
    SlotsLaws(0.0, a, c, x);
    SlotsLaws(0.0, b, c, x);
    if a <= x {
      Pow2Split(Room(c, x) - Slots(a, c, x), Room(c, x));
    }
    if b <= x {
      Pow2Split(Room(c, x) - Slots(a, c, x), Room(c, x) - Slots(b, c, x));
    }
  }

  // Later values take a multiple of the share of an earlier one.
  lemma WeightMultiple(a: real, b: real, c: real, x: real) returns (q: nat)
    requires c > 0.0 && 0.0 <= a <= b <= x
    ensures Weight(b, c, x) == q * Weight(a, c, x)
  {
    SlotsLaws(a, b, c, x);
    SlotsLaws(0.0, a, c, x);
    SlotsLaws(0.0, b, c, x);
    SlotsLaws(b, b, c, x);
    var e, f := Room(c, x) - Slots(a, c, x), Room(c, x) - Slots(b, c, x);
    Pow2Split(e, f);
    q := Pow2(f - e);
  }

  lemma CapMultiple(a: real, c: real, x: real) returns (q: nat)
    requires c > 0.0 && 0.0 <= a <= x
    ensures Pow2(Room(c, x)) == q * Weight(a, c, x)
  {
    SlotsLaws(a, a, c, x);
    SlotsLaws(0.0, a, c, x);
    var e := Room(c, x) - Slots(a, c, x);
    Pow2Split(e, Room(c, x));
    q := Pow2(Room(c, x) - e);
  }

  lemma {:induction false} SumMultiple(lats: seq<real>, a: real, c: real, x: real) returns (q: nat)
    requires c > 0.0 && 0.0 <= a
    requires forall i :: 0 <= i < |lats| ==> a <= lats[i] <= x
    ensures SumBy(WeightOf(c, x), lats) == q * Weight(a, c, x)
  {
    if lats == [] {
      q := 0;
    } else {
      var h := WeightMultiple(a, lats[0], c, x);
      var t := SumMultiple(lats[1..], a, c, x);
      q := h + t;
      Multiples(h, t, Weight(a, c, x));
    }
  }

  lemma {:induction false} FitsAll(lats: seq<real>, c: real, x: real)
    requires c >= 0.0 && NonNegative(lats) && Fits(lats, c, x)
    ensures AllWithin(lats, x)
  {
    if c > 0.0 && lats != [] {
      WeightLaws(lats[0], lats[0], c, x);
      FitsAll(lats[1..], c, x);
    }
  }

  lemma WithinPerm(lats: seq<real>, perm: seq<real>, x: real)
    requires multiset(lats) == multiset(perm) && AllWithin(lats, x)
    ensures AllWithin(perm, x)
  {
    forall i | 0 <= i < |perm|
      ensures perm[i] <= x
    {
      assert perm[i] in multiset(lats);
    }
  }

  lemma {:induction false} FitsPerm(lats: seq<real>, perm: seq<real>, c: real, x: real)
    requires c >= 0.0 && multiset(lats) == multiset(perm)
    ensures Fits(lats, c, x) == Fits(perm, c, x)
  {
    if c > 0.0 {
      SumByPerm(WeightOf(c, x), lats, perm);
    } else {
      if AllWithin(lats, x) { WithinPerm(lats, perm, x); }
      if AllWithin(perm, x) { WithinPerm(perm, lats, x); }
    }
  }

  ghost predicate TwoLowest(lats: seq<real>)
    requires |lats| >= 2
  {
    lats[0] <= lats[1] && forall i :: 2 <= i < |lats| ==> lats[1] <= lats[i]
  }

  // Merging the two lowest values never loses a deadline that could be met.
  lemma MergeFits(lats: seq<real>, c: real, x: real)
    requires |lats| >= 2 && TwoLowest(lats) && NonNegative(lats) && c >= 0.0
    requires Fits(lats, c, x)
    ensures Fits(lats[2..] + [lats[1] + c], c, x)
  {
    FitsAll(lats, c, x);
    if c > 0.0 {
      var a, b, rest := lats[0], lats[1], lats[2..];
      SumByTwo(WeightOf(c, x), lats);
      SumBySnoc(WeightOf(c, x), rest, b + c);
      MergeRoom(rest, a, b, c, x);
    }
  }

  lemma MergeRoom(rest: seq<real>, a: real, b: real, c: real, x: real)
    requires c > 0.0 && 0.0 <= a <= b <= x
    requires forall i :: 0 <= i < |rest| ==> b <= rest[i] <= x
    requires Weight(a, c, x) + Weight(b, c, x) + SumBy(WeightOf(c, x), rest) <= Pow2(Room(c, x))
    ensures SumBy(WeightOf(c, x), rest) + Weight(b + c, c, x) <= Pow2(Room(c, x))
  {
    WeightLaws(a, b, c, x);
    var q := SumMultiple(rest, b, c, x);
    var p := CapMultiple(b, c, x);
    RoomForOneMore(q, p, Weight(b, c, x));
  }

  // Multiples of w below a multiple of w leave room for one w more.
  lemma RoomForOneMore(q: nat, p: nat, w: nat)
    requires w + q * w < p * w
    ensures q * w + 2 * w <= p * w
  {
    Multiples(q, 1, w);
    Multiples(q, 2, w);
    if p <= q + 1 {
      Multiples(p, q + 1 - p, w);
    } else {
      Multiples(q + 2, p - (q + 2), w);
    }
  }

  lemma Multiples(a: nat, b: nat, w: nat)
    ensures (a + b) * w == a * w + b * w && b * w >= 0
  {
  }
}
