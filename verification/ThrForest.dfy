// Forests of disjoint linked trees, and the vector operations of constructOptimizedSubtree on their roots.
module ThrForest {
  import opened Collections
  import opened ThrTree
  import opened ThrBfs

  ghost function ForestNodes(f: seq<Tree>): multiset<Node> {
    UnionBy(NodesMOf(), f)
  }

  lemma {:induction false} UnionCount<X>(u: Tree -> multiset<X>, f: seq<Tree>, i: nat, j: nat, x: X)
    requires i < j < |f| && x in u(f[i]) && x in u(f[j])
    ensures UnionBy(u, f)[x] >= 2
  {
    if i == 0 {
      InUnion(u, f[1..], j - 1, x);
    } else {
      UnionCount(u, f[1..], i - 1, j - 1, x);
    }
  }

  lemma NodesAreCounted(t: Tree, x: Node)
    ensures x in Nodes(t) <==> x in NodesM(t)
  {
  }

  lemma {:induction false} CountedOnce(f: seq<Tree>, i: nat, x: Node)
    requires i < |f|
    ensures UnionBy(NodesMOf(), f)[x] >= NodesM(f[i])[x]
  {
    if i > 0 {
      CountedOnce(f[1..], i - 1, x);
    }
  }

  // Trees of a duplicate-free forest share no node with each other or with the spare nodes.
  lemma ForestApart(f: seq<Tree>, spare: seq<Node>, i: nat)
    requires NoDup(ForestNodes(f) + multiset(spare)) && i < |f|
    ensures NoDup(NodesM(f[i]))
    ensures forall x :: x in Nodes(f[i]) ==> x !in spare
    ensures forall j, x :: 0 <= j < |f| && j != i && x in Nodes(f[i]) ==> x !in Nodes(f[j])
  {
    var all := ForestNodes(f) + multiset(spare);
    forall x | x in NodesM(f[i])
      ensures NodesM(f[i])[x] == 1 && x !in spare
    {
      CountedOnce(f, i, x);
      assert x in all && all[x] == 1;
      assert x in spare <==> x in multiset(spare);
    }
    forall x | x in Nodes(f[i])
      ensures x !in spare
    {
      NodesAreCounted(f[i], x);
    }
    forall j, x | 0 <= j < |f| && j != i && x in Nodes(f[i])
      ensures x !in Nodes(f[j])
    {
      NodesAreCounted(f[i], x);
      NodesAreCounted(f[j], x);
      CountedOnce(f, i, x);
      assert x in all && all[x] == ForestNodes(f)[x] + multiset(spare)[x];
      if x in Nodes(f[j]) {
        UnionCount(NodesMOf(), f, if i < j then i else j, if i < j then j else i, x);
        assert false;
      }
    }
  }

  predicate Less(a: Node, b: Node)
    reads a, b
  {
    a.latency < b.latency || (a.latency == b.latency && a.totalCost < b.totalCost)
  }

  // The order of std::sort: by latency, then by total cost, ties in any order.
  ghost predicate Ordered(s: seq<Node>)
    reads s
  {
    forall i, j :: 0 <= i < j < |s| ==> !Less(s[j], s[i])
  }

  method PlaceFor(sorted: seq<Node>, x: Node) returns (at: nat)
    requires Ordered(sorted)
    ensures at <= |sorted| && Ordered(sorted[..at] + ([x] + sorted[at..]))
  {
    at := |sorted|;
    while at > 0 && Less(x, sorted[at - 1])
      invariant 0 <= at <= |sorted|
      invariant forall j :: at <= j < |sorted| ==> !Less(sorted[j], x)
    {
      at := at - 1;
    }
    InsertOrdered(sorted, at, x);
  }

  lemma InsertOrdered(s: seq<Node>, at: nat, x: Node)
    requires Ordered(s) && at <= |s|
    requires at > 0 ==> !Less(x, s[at - 1])
    requires forall j :: at <= j < |s| ==> !Less(s[j], x)
    ensures Ordered(s[..at] + ([x] + s[at..]))
  {
    var r := s[..at] + ([x] + s[at..]);
    forall i | 0 <= i < at
      ensures !Less(x, s[i])
    {
      if i < at - 1 { assert !Less(s[at - 1], s[i]); }
    }
    forall i, j | 0 <= i < j < |r|
      ensures !Less(r[j], r[i])
    {
      assert r[i] == if i < at then s[i] else if i == at then x else s[i - 1];
      assert r[j] == if j < at then s[j] else if j == at then x else s[j - 1];
    }
  }

  method SortLeaves(leaves: seq<Node>, ghost f: seq<Tree>) returns (sorted: seq<Node>, ghost p: seq<Tree>)
    requires leaves == Tops(f)
    ensures sorted == Tops(p) && multiset(p) == multiset(f) && Ordered(sorted)
    ensures forall i, j :: 0 <= i < j < |sorted| ==>
      sorted[i].latency < sorted[j].latency ||
      (sorted[i].latency == sorted[j].latency && sorted[i].totalCost <= sorted[j].totalCost)
  {
    sorted, p := [], [];
    for i := 0 to |leaves|
      invariant sorted == Tops(p)
      invariant multiset(p) == multiset(f[..i])
      invariant Ordered(sorted)
    {
      var at := PlaceFor(sorted, leaves[i]);
      InsertTops(p, at, f[i]);
      InsertPerm(p, at, f, i);
      sorted := sorted[..at] + ([leaves[i]] + sorted[at..]);
      p := p[..at] + ([f[i]] + p[at..]);
    }
    assert f[..|leaves|] == f;
  }

  lemma InsertTops(p: seq<Tree>, at: nat, t: Tree)
    requires at <= |p|
    ensures Tops(p[..at] + ([t] + p[at..])) == Tops(p)[..at] + ([t.n] + Tops(p)[at..])
  {
  }

  lemma InsertPerm(p: seq<Tree>, at: nat, f: seq<Tree>, i: nat)
    requires at <= |p| && i < |f| && multiset(p) == multiset(f[..i])
    ensures multiset(p[..at] + ([f[i]] + p[at..])) == multiset(f[..i + 1])
  {
    assert p == p[..at] + p[at..];
    assert f[..i + 1] == f[..i] + [f[i]];
  }

  function Without(s: seq<Node>, n: Node): seq<Node> {
    if s == [] then [] else if s[0] == n then Without(s[1..], n) else [s[0]] + Without(s[1..], n)
  }

  lemma {:induction false} WithoutAbsent(s: seq<Node>, n: Node)
    requires n !in s
    ensures Without(s, n) == s
  {
    if s != [] {
      WithoutAbsent(s[1..], n);
    }
  }

  // All occurrences of n are gone, and nothing else.
  lemma {:induction false} WithoutKeeps(s: seq<Node>, n: Node)
    ensures multiset(Without(s, n)) == multiset(s)[n := 0]
  {
    if s != [] {
      WithoutKeeps(s[1..], n);
      assert s == [s[0]] + s[1..];
    }
  }

  // removeNodeFromLeaves: erases every occurrence.
  method RemoveNodeFromLeaves(leaves: seq<Node>, n: Node) returns (kept: seq<Node>)
    ensures kept == Without(leaves, n)
  {
    kept := leaves;
    var begin := 0;
    while begin < |kept|
      invariant begin <= |kept|
      invariant Without(leaves, n) == kept[..begin] + Without(kept[begin..], n)
      decreases |kept| - begin
    {
      assert kept[begin..] == [kept[begin]] + kept[begin + 1..];
      if kept[begin] == n {
        ghost var was := kept;
        kept := kept[..begin] + kept[begin + 1..];
        assert kept[begin..] == was[begin + 1..];
      } else {
        assert kept[..begin] + [kept[begin]] == kept[..begin + 1];
        begin := begin + 1;
      }
    }
    assert kept[..begin] == kept;
  }

  // Erasing both operands leaves the other roots and the new one.
  lemma RemoveOperands(a: Node, b: Node, rest: seq<Node>)
    requires Distinct([a] + ([b] + rest))
    ensures Without(Without([a] + ([b] + rest), a), b) == rest
  {
    WithoutHead(a, [b] + rest);
    WithoutHead(b, rest);
  }

  lemma WithoutHead(n: Node, rest: seq<Node>)
    requires Distinct([n] + rest)
    ensures Without([n] + rest, n) == rest && Distinct(rest)
  {
    var s := [n] + rest;
    assert s[1..] == rest;
    forall i | 0 <= i < |rest|
      ensures rest[i] != n
    {
      assert s[0] != s[i + 1];
    }
    forall i, j | 0 <= i < j < |rest|
      ensures rest[i] != rest[j]
    {
      assert s[i + 1] != s[j + 1];
    }
    WithoutAbsent(rest, n);
  }
}
