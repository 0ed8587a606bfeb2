// Sequences: sums that do not depend on the order of the elements, permutations and distinct elements.
module Collections {

  function Map<T, U>(f: T -> U, s: seq<T>): (r: seq<U>)
    ensures |r| == |s|
    ensures forall i :: 0 <= i < |s| ==> r[i] == f(s[i])
  {
    if s == [] then [] else [f(s[0])] + Map(f, s[1..])
  }

  // The union of the multisets f(x), for x in s.
  ghost function UnionBy<T, X>(f: T -> multiset<X>, s: seq<T>): multiset<X> {
    if s == [] then multiset{} else f(s[0]) + UnionBy(f, s[1..])
  }

  ghost function SumBy<T>(f: T -> nat, s: seq<T>): nat {
    if s == [] then 0 else f(s[0]) + SumBy(f, s[1..])
  }

  ghost predicate NoDup<X>(m: multiset<X>) {
    forall x :: x in m ==> m[x] == 1
  }

  lemma {:induction false} UnionByAppend<T, X>(f: T -> multiset<X>, a: seq<T>, b: seq<T>)
    ensures UnionBy(f, a + b) == UnionBy(f, a) + UnionBy(f, b)
  {
    if a == [] {
      assert a + b == b;
    } else {
      assert (a + b)[1..] == a[1..] + b;
      UnionByAppend(f, a[1..], b);
    }
  }

  lemma {:induction false} SumByAppend<T>(f: T -> nat, a: seq<T>, b: seq<T>)
    ensures SumBy(f, a + b) == SumBy(f, a) + SumBy(f, b)
  {
    if a == [] {
      assert a + b == b;
    } else {
      assert (a + b)[1..] == a[1..] + b;
      SumByAppend(f, a[1..], b);
    }
  }

  lemma UnionByCons<T, X>(f: T -> multiset<X>, x: T, s: seq<T>)
    ensures UnionBy(f, [x] + s) == f(x) + UnionBy(f, s)
    ensures UnionBy(f, [x]) == f(x)
  {
    assert ([x] + s)[1..] == s;
  }

  lemma SumByCons<T>(f: T -> nat, x: T, s: seq<T>)
    ensures SumBy(f, [x] + s) == f(x) + SumBy(f, s)
    ensures SumBy(f, [x]) == f(x)
  {
    assert ([x] + s)[1..] == s;
  }

  lemma SumByTwo<T>(f: T -> nat, s: seq<T>)
    requires |s| >= 2
    ensures SumBy(f, s) == f(s[0]) + f(s[1]) + SumBy(f, s[2..])
  {
    assert s[1..][1..] == s[2..];
  }

  lemma SumBySnoc<T>(f: T -> nat, s: seq<T>, x: T)
    ensures SumBy(f, s + [x]) == SumBy(f, s) + f(x)
  {
    SumByAppend(f, s, [x]);
    SumByCons(f, x, []);
  }

  lemma UnionByTwo<T, X>(f: T -> multiset<X>, s: seq<T>)
    requires |s| >= 2
    ensures UnionBy(f, s) == f(s[0]) + f(s[1]) + UnionBy(f, s[2..])
  {
    assert s[1..][1..] == s[2..];
  }

  lemma UnionBySnoc<T, X>(f: T -> multiset<X>, s: seq<T>, x: T)
    ensures UnionBy(f, s + [x]) == UnionBy(f, s) + f(x)
  {
    UnionByAppend(f, s, [x]);
    UnionByCons(f, x, []);
  }

  lemma {:induction false} InUnion<T, X>(f: T -> multiset<X>, s: seq<T>, i: nat, x: X)
    requires i < |s| && x in f(s[i])
    ensures x in UnionBy(f, s)
  {
    if i > 0 {
      InUnion(f, s[1..], i - 1, x);
    }
  }

  lemma NoDupIndex<T>(s: seq<T>, i: nat, j: nat)
    requires NoDup(multiset(s)) && i < j < |s|
    ensures s[i] != s[j]
  {
    assert s == s[..j] + ([s[j]] + s[j + 1..]);
    assert s[i] in s[..j];
    assert multiset(s) == multiset(s[..j]) + (multiset{s[j]} + multiset(s[j + 1..]));
    assert s[i] in multiset(s[..j]) && s[j] in multiset(s);
    assert multiset(s)[s[j]] == multiset(s[..j])[s[j]] + (1 + multiset(s[j + 1..])[s[j]]);
  }

  lemma Shift<T>(a: seq<T>, x: T, b: seq<T>)
    ensures a + ([x] + b) == (a + [x]) + b
  {
  }

  lemma ShiftAppend<T>(a: seq<T>, x: T, b: seq<T>, c: seq<T>)
    ensures (a + ([x] + b)) + c == (a + [x]) + (b + c)
  {
  }

  lemma Assoc<T>(a: seq<T>, b: seq<T>, c: seq<T>)
    ensures a + (b + c) == (a + b) + c
  {
  }

  // Where the head of s stands in a permutation of s, and that the rest still is a permutation.
  lemma PermHead<T>(s: seq<T>, p: seq<T>) returns (i: nat)
    requires s != [] && multiset(s) == multiset(p)
    ensures i < |p| && p[i] == s[0]
    ensures p == p[..i] + ([s[0]] + p[i + 1..])
    ensures multiset(s[1..]) == multiset(p[..i] + p[i + 1..])
  {
    assert s[0] in multiset(p);
    i :| 0 <= i < |p| && p[i] == s[0];
    assert p == p[..i] + ([p[i]] + p[i + 1..]);
    assert s == [s[0]] + s[1..];
    assert multiset(s) == multiset{s[0]} + multiset(s[1..]);
    assert multiset(p) == multiset(p[..i]) + (multiset{p[i]} + multiset(p[i + 1..]));
    assert multiset(p[..i] + p[i + 1..]) == multiset(p) - multiset{s[0]};
    assert multiset(s[1..]) == multiset(s) - multiset{s[0]};
  }

  lemma PermElements<T>(s: seq<T>, p: seq<T>)
    requires multiset(s) == multiset(p)
    ensures forall x :: x in p ==> x in s
  {
    forall x | x in p
      ensures x in s
    {
      assert x in multiset(p);
    }
  }

  lemma {:induction false} UnionByPerm<T, X>(f: T -> multiset<X>, s: seq<T>, p: seq<T>)
    requires multiset(s) == multiset(p)
    ensures UnionBy(f, s) == UnionBy(f, p)
  {
    if s == [] {
      assert |multiset(p)| == 0;
    } else {
      var i := PermHead(s, p);
      UnionByPerm(f, s[1..], p[..i] + p[i + 1..]);
      UnionByAppend(f, p[..i], [s[0]] + p[i + 1..]);
      UnionByAppend(f, p[..i], p[i + 1..]);
      assert ([s[0]] + p[i + 1..])[1..] == p[i + 1..];
    }
  }

  lemma {:induction false} SumByPerm<T>(f: T -> nat, s: seq<T>, p: seq<T>)
    requires multiset(s) == multiset(p)
    ensures SumBy(f, s) == SumBy(f, p)
  {
    if s == [] {
      assert |multiset(p)| == 0;
    } else {
      var i := PermHead(s, p);
      SumByPerm(f, s[1..], p[..i] + p[i + 1..]);
      SumByAppend(f, p[..i], [s[0]] + p[i + 1..]);
      SumByAppend(f, p[..i], p[i + 1..]);
      assert ([s[0]] + p[i + 1..])[1..] == p[i + 1..];
    }
  }

  lemma {:induction false} MapAppend<T, U>(f: T -> U, a: seq<T>, b: seq<T>)
    ensures Map(f, a + b) == Map(f, a) + Map(f, b)
  {
  }

  lemma {:induction false} MapPerm<T, U>(f: T -> U, s: seq<T>, p: seq<T>)
    requires multiset(s) == multiset(p)
    ensures multiset(Map(f, s)) == multiset(Map(f, p))
  {
    if s == [] {
      assert |multiset(p)| == 0;
    } else {
      var i := PermHead(s, p);
      MapPerm(f, s[1..], p[..i] + p[i + 1..]);
      MapAppend(f, p[..i], [s[0]] + p[i + 1..]);
      MapAppend(f, p[..i], p[i + 1..]);
      assert Map(f, [s[0]] + p[i + 1..]) == [f(s[0])] + Map(f, p[i + 1..]);
      assert Map(f, s) == [f(s[0])] + Map(f, s[1..]);
    }
  }

  ghost function Members<T>(s: seq<T>): set<T> {
    set x | x in s
  }

  ghost predicate Distinct<T>(s: seq<T>) {
    forall i, j :: 0 <= i < j < |s| ==> s[i] != s[j]
  }

  lemma DistinctCons<T>(x: T, s: seq<T>)
    requires Distinct(s) && x !in s
    ensures Distinct([x] + s)
  {
    forall i, j | 0 <= i < j < |[x] + s|
      ensures ([x] + s)[i] != ([x] + s)[j]
    {
      assert ([x] + s)[j] == s[j - 1];
    }
  }

  lemma DistinctAt<T>(s: seq<T>, i: nat)
    requires Distinct(s) && i < |s|
    ensures s[i] !in s[..i]
  {
    assert forall j :: 0 <= j < i ==> s[..i][j] != s[i];
  }

  lemma TakeOut<T>(g: seq<T>, i: nat)
    requires i < |g|
    ensures multiset(g) == multiset{g[i]} + multiset(g[..i] + g[i + 1..])
  {
    assert g == g[..i] + ([g[i]] + g[i + 1..]);
  }

  lemma SameRest<T>(others: seq<T>, y: T, rest: seq<T>, g: seq<T>, z: T)
    requires multiset(g) == multiset([y] + rest) && multiset(g) == multiset{y} + multiset(others)
    ensures multiset(others + [z]) == multiset(rest + [z])
  {
    assert multiset([y] + rest) == multiset{y} + multiset(rest);
    assert multiset(others) == multiset(g) - multiset{y};
  }

  lemma SwapLast<T>(a: seq<T>, s: T, t: T)
    ensures multiset(a + [s] + [t]) == multiset([s] + a + [t])
  {
  }

  lemma Rotated<T>(a: seq<T>, s: T, t: T)
    ensures multiset(a + [s] + [t]) == multiset([t] + a + [s])
  {
  }

  lemma Ends<T>(z: T, rest: seq<T>, s: T)
    ensures multiset([z] + rest + [s]) == multiset([z, s] + rest)
  {
  }

  lemma Parts<T>(z: T, r: T, rest: seq<T>, others: seq<T>, s: T)
    requires multiset(rest) == multiset{r} + multiset(others)
    ensures multiset([z] + rest + [s]) == multiset([z, r] + (others + [s]))
  {
    assert multiset([z] + rest + [s]) == multiset{z} + multiset(rest) + multiset{s};
    assert multiset([z, r] + (others + [s])) == multiset{z, r} + (multiset(others) + multiset{s});
  }

  lemma Cancel<T>(p: seq<T>, q: seq<T>, i: nat)
    requires i < |p| && multiset(p) == multiset([p[i]] + q)
    ensures multiset(p[..i] + p[i + 1..]) == multiset(q)
  {
    TakeOut(p, i);
    var a, b := multiset(p[..i] + p[i + 1..]), multiset(q);
    assert multiset([p[i]] + q) == multiset{p[i]} + b;
    forall y ensures a[y] == b[y] {
      assert (multiset{p[i]} + a)[y] == (multiset{p[i]} + b)[y];
    }
  }

  lemma SameLength<T>(s: seq<T>, p: seq<T>)
    requires multiset(s) == multiset(p)
    ensures |s| == |p|
  {
    assert |multiset(s)| == |s| && |multiset(p)| == |p|;
  }
}
