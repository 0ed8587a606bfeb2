// recursive_copy_lowering as used by lower_chunk_copy: a chunk copied scalar by scalar.
module CopyLowering {
  import opened Wrappers
  import opened Modular
  import opened Cells
  import opened CsroaTypes

  // The scalars of a type, depth first; an aggregate without elements has none.
  function ScalarPaths(ty: Ty): seq<seq<nat>>
    decreases ty, 1
  {
    if ty.Scalar? then [[]] else ScalarPathsUpTo(ty, NumKids(ty))
  }

  function ScalarPathsUpTo(ty: Ty, i: nat): seq<seq<nat>>
    requires i <= NumKids(ty)
    decreases ty, 0, i
  {
    if i == 0 then [] else ScalarPathsUpTo(ty, i - 1) + Prefixed(i - 1, ScalarPaths(Kid(ty, i - 1)))
  }

  // The paths of fitting objects of a type behind one pointer.
  function ChunkPaths(ty: Ty, fitting: nat): seq<seq<nat>> {
    if fitting == 0 then [] else ChunkPaths(ty, fitting - 1) + Prefixed(fitting - 1, ScalarPaths(ty))
  }

  // Every path goes behind the indices collected so far.
  function Behind(idxs: seq<nat>, paths: seq<seq<nat>>): (r: seq<seq<nat>>)
    ensures |r| == |paths| && forall k :: 0 <= k < |paths| ==> r[k] == idxs + paths[k]
  {
    if paths == [] then [] else [idxs + paths[0]] + Behind(idxs, paths[1..])
  }

  lemma {:induction false} BehindAppend(idxs: seq<nat>, a: seq<seq<nat>>, b: seq<seq<nat>>)
    ensures Behind(idxs, a + b) == Behind(idxs, a) + Behind(idxs, b)
  {
    if a == [] {
      assert a + b == b;
    } else {
      assert (a + b)[1..] == a[1..] + b;
      BehindAppend(idxs, a[1..], b);
    }
  }

  lemma BehindPrefixed(idxs: seq<nat>, i: nat, paths: seq<seq<nat>>)
    ensures Behind(idxs, Prefixed(i, paths)) == Behind(idxs + [i], paths)
  {
    forall k | 0 <= k < |paths|
      ensures Behind(idxs, Prefixed(i, paths))[k] == Behind(idxs + [i], paths)[k]
    {
      assert idxs + ([i] + paths[k]) == idxs + [i] + paths[k];
    }
  }

  lemma CopyStep(code: seq<seq<nat>>, idxs: seq<nat>, before: seq<seq<nat>>, i: nat, paths: seq<seq<nat>>)
    ensures (code + Behind(idxs, before)) + Behind(idxs + [i], paths)
        == code + Behind(idxs, before + Prefixed(i, paths))
  {
    BehindPrefixed(idxs, i, paths);
    BehindAppend(idxs, before, Prefixed(i, paths));
  }

  // One lowered load and store per path, appended to the code at the load and at the store.
  method RecursiveCopyLowering(ty: Ty, idxs: seq<nat>, fitting: nat, code: seq<seq<nat>>) returns (code': seq<seq<nat>>)
    requires idxs != [] || fitting > 1 || !ty.Scalar?
    ensures code' == code + Behind(idxs, if fitting > 1 then ChunkPaths(ty, fitting) else ScalarPaths(ty))
    decreases ty, fitting
  {
    code' := code;
    if fitting > 1 {
      for i := 0 to fitting
        invariant code' == code + Behind(idxs, ChunkPaths(ty, i))
      {
        code' := RecursiveCopyLowering(ty, idxs + [i], 1, code');
        CopyStep(code, idxs, ChunkPaths(ty, i), i, ScalarPaths(ty));
      }
    } else if !ty.Scalar? {
      for i := 0 to NumKids(ty)
        invariant code' == code + Behind(idxs, ScalarPathsUpTo(ty, i))
      {
        code' := RecursiveCopyLowering(Kid(ty, i), idxs + [i], 1, code');
        CopyStep(code, idxs, ScalarPathsUpTo(ty, i), i, ScalarPaths(Kid(ty, i)));
      }
    } else {
      assert idxs + [] == idxs;
      code' := code + [idxs];
    }
  }

  // The truncated ratio; a division by 0 has no number that could be truncated, and gives anything.
  function Fitting(chunk: nat, size: nat, anything: nat): nat {
    if size == 0 then anything else chunk / size
  }

  // The lowered copies for the sizes of the chunk and of the type behind the pointers. The ratio is truncated, but
  // compared with 1 before that. Without any index the assertion on the emitted address computations fails.
  function CopyCode(ty: Ty, chunk: nat, size: nat, anything: nat): Option<seq<seq<nat>>> {
    if size > 0 && chunk == size then Some(Prefixed(0, ScalarPaths(ty)))
    else if Fitting(chunk, size, anything) > 1 then Some(ChunkPaths(ty, Fitting(chunk, size, anything)))
    else if ty.Scalar? then None
    else Some(ScalarPaths(ty))
  }

  method LowerChunkCopy(ty: Ty, chunk: nat, size: nat, anything: nat) returns (code: Option<seq<seq<nat>>>)
    ensures code == CopyCode(ty, chunk, size, anything)
  {
    var idxs := if size > 0 && chunk == size then [0] else [];
    var fitting := Fitting(chunk, size, anything);
    if idxs == [] && fitting <= 1 && ty.Scalar? {
      return None;
    }
    var paths := RecursiveCopyLowering(ty, idxs, fitting, []);
    if idxs != [] {
      QuotientIs(1, chunk, size);
    }
    BehindIs(idxs, if fitting > 1 then ChunkPaths(ty, fitting) else ScalarPaths(ty));
    assert paths == Behind(idxs, if fitting > 1 then ChunkPaths(ty, fitting) else ScalarPaths(ty));
    code := Some(paths);
  }

  lemma BehindIs(idxs: seq<nat>, paths: seq<seq<nat>>)
    ensures idxs == [] ==> Behind(idxs, paths) == paths
    ensures |idxs| == 1 ==> Behind(idxs, paths) == Prefixed(idxs[0], paths)
  {
    assert idxs == [] ==> forall k :: 0 <= k < |paths| ==> Behind(idxs, paths)[k] == paths[k];
    assert |idxs| == 1 ==> forall k :: 0 <= k < |paths| ==> Behind(idxs, paths)[k] == Prefixed(idxs[0], paths)[k];
  }

  // The objects that fit are copied if and only if the chunk is exactly one object or at least two.
  // A type without scalars has nothing to copy.
  lemma CopiesFitting(ty: Ty, chunk: nat, size: nat, anything: nat)
    requires size > 0
    ensures CopyCode(ty, chunk, size, anything) == Some(ChunkPaths(ty, chunk / size))
       <==> chunk == size || chunk >= 2 * size || Count(ty) == 0
  {
    var n := chunk / size;
    assert chunk == n * size + chunk % size;
    ScalarPathsRank(ty);
    if Count(ty) == 0 {
      NothingToCopy(ty, n);
    } else if chunk >= 2 * size {
      AtLeastTwice(n, chunk, size);
    } else if chunk >= size {
      QuotientIs(1, chunk, size);
      OneObject(ty);
    } else {
      QuotientIs(0, chunk, size);
    }
  }

  // So the whole chunk is copied if and only if the ratio is a whole number, not 0.
  lemma CopiesWholeChunk(ty: Ty, chunk: nat, size: nat, anything: nat)
    requires size > 0
    ensures (exists n: nat :: n * size == chunk && CopyCode(ty, chunk, size, anything) == Some(ChunkPaths(ty, n)))
       <==> chunk % size == 0 && (chunk > 0 || Count(ty) == 0)
  {
    var n := chunk / size;
    assert chunk == n * size + chunk % size;
    CopiesFitting(ty, chunk, size, anything);
    forall m: nat | m * size == chunk
      ensures m == n && chunk % size == 0
    {
      QuotientIs(m, chunk, size);
    }
    if chunk % size == 0 && chunk > 0 && chunk != size {
      NotSmaller(n, chunk, size);
    }
  }

  lemma NotSmaller(n: nat, chunk: nat, size: nat)
    requires n * size == chunk && chunk > 0 && chunk != size
    ensures chunk >= 2 * size
  {
    assert n >= 2 ==> n * size >= 2 * size;
  }

  // An object of size 0 has no scalars, and nothing is copied whatever the division gives.
  lemma CopiesNothing(ty: Ty, chunk: nat, size: nat, anything: nat)
    requires Count(ty) == 0
    ensures CopyCode(ty, chunk, size, anything) == Some([])
  {
    NothingToCopy(ty, Fitting(chunk, size, anything));
  }

  lemma NothingToCopy(ty: Ty, n: nat)
    requires Count(ty) == 0
    ensures ScalarPaths(ty) == [] && ChunkPaths(ty, n) == [] && !ty.Scalar?
    ensures Prefixed(0, ScalarPaths(ty)) == []
  {
    ScalarPathsRank(ty);
    ChunkPositions(ty, n);
    assert |ChunkPaths(ty, n)| == n * 0;
  }

  // A leading index makes a difference.
  lemma OneObject(ty: Ty)
    ensures ChunkPaths(ty, 1) == Prefixed(0, ScalarPaths(ty))
    ensures ScalarPaths(ty) != [] ==> ChunkPaths(ty, 1) != ScalarPaths(ty)
  {
    assert ChunkPaths(ty, 1) == ChunkPaths(ty, 0) + Prefixed(0, ScalarPaths(ty));
    if ScalarPaths(ty) != [] {
      assert Prefixed(0, ScalarPaths(ty))[0] == [0] + ScalarPaths(ty)[0];
      assert |Prefixed(0, ScalarPaths(ty))[0]| != |ScalarPaths(ty)[0]|;
    }
  }

  lemma QuotientIs(q: nat, chunk: nat, size: nat)
    requires size > 0 && q * size <= chunk < q * size + size
    ensures chunk / size == q && chunk % size == chunk - q * size
  {
    UniqueRemainder(chunk, q, chunk - q * size, size);
    SmallMultiple(chunk / size - q, size, 0);
  }

  lemma AtLeastTwice(n: nat, chunk: nat, size: nat)
    requires size > 0 && chunk >= 2 * size && n == chunk / size
    ensures n >= 2
  {
    assert n <= 1 ==> n * size <= size;
  }

  // The position of a scalar behind the pointer, in scalars.
  ghost function Position(ty: Ty, path: seq<nat>): nat
    requires path != [] && FullPath(ty, path[1..])
  {
    path[0] * Count(ty) + Rank(ty, path[1..])
  }

  lemma {:induction false} ScalarPathsRank(ty: Ty)
    ensures |ScalarPaths(ty)| == Count(ty)
    ensures forall k :: 0 <= k < Count(ty) ==> FullPath(ty, ScalarPaths(ty)[k]) && Rank(ty, ScalarPaths(ty)[k]) == k
    decreases ty, 1
  {
    if !ty.Scalar? {
      ScalarPathsUpToRank(ty, NumKids(ty));
      CountIsOffset(ty);
    }
  }

  lemma {:induction false} ScalarPathsUpToRank(ty: Ty, i: nat)
    requires i <= NumKids(ty)
    ensures var ps := ScalarPathsUpTo(ty, i);
      |ps| == Offset(ty, i) && forall k :: 0 <= k < |ps| ==> FullPath(ty, ps[k]) && Rank(ty, ps[k]) == k
    decreases ty, 0, i
  {
    if i > 0 {
      ScalarPathsUpToRank(ty, i - 1);
      ScalarPathsRank(Kid(ty, i - 1));
      PrefixedRank(ty, i - 1, ScalarPaths(Kid(ty, i - 1)));
    }
  }

  lemma PrefixedRank(ty: Ty, i: nat, ps: seq<seq<nat>>)
    requires i < NumKids(ty)
    requires forall k :: 0 <= k < |ps| ==> FullPath(Kid(ty, i), ps[k]) && Rank(Kid(ty, i), ps[k]) == k
    ensures forall k :: 0 <= k < |ps| ==>
      FullPath(ty, Prefixed(i, ps)[k]) && Rank(ty, Prefixed(i, ps)[k]) == Offset(ty, i) + k
  {
    forall k | 0 <= k < |ps|
      ensures FullPath(ty, Prefixed(i, ps)[k]) && Rank(ty, Prefixed(i, ps)[k]) == Offset(ty, i) + k
    {
      assert ([i] + ps[k])[1..] == ps[k];
    }
  }

  // The paths lead to the scalars from a position on, in order.
  ghost predicate Consecutive(ty: Ty, paths: seq<seq<nat>>, from: nat) {
    forall k :: 0 <= k < |paths| ==>
      paths[k] != [] && FullPath(ty, paths[k][1..]) && Position(ty, paths[k]) == from + k
  }

  lemma ConsecutiveAppend(ty: Ty, a: seq<seq<nat>>, b: seq<seq<nat>>)
    requires Consecutive(ty, a, 0) && Consecutive(ty, b, |a|)
    ensures Consecutive(ty, a + b, 0)
  {
  }

  // The lowered copies touch every scalar of the chunk once, in order.
  lemma {:induction false} ChunkPositions(ty: Ty, fitting: nat)
    ensures |ChunkPaths(ty, fitting)| == fitting * Count(ty) && Consecutive(ty, ChunkPaths(ty, fitting), 0)
    decreases fitting
  {
    if fitting > 0 {
      ChunkPositions(ty, fitting - 1);
      ObjectPositions(ty, fitting - 1, (fitting - 1) * Count(ty));
      ConsecutiveAppend(ty, ChunkPaths(ty, fitting - 1), Prefixed(fitting - 1, ScalarPaths(ty)));
      assert fitting * Count(ty) == (fitting - 1) * Count(ty) + Count(ty);
    }
  }

  // The scalars of one object.
  lemma ObjectPositions(ty: Ty, i: nat, from: nat)
    requires from == i * Count(ty)
    ensures |Prefixed(i, ScalarPaths(ty))| == Count(ty) && Consecutive(ty, Prefixed(i, ScalarPaths(ty)), from)
  {
    ScalarPathsRank(ty);
    var last := Prefixed(i, ScalarPaths(ty));
    forall k | 0 <= k < |last|
      ensures last[k] != [] && FullPath(ty, last[k][1..]) && Position(ty, last[k]) == from + k
    {
      assert last[k][1..] == ScalarPaths(ty)[k];
    }
  }

  type Memory = map<int, int>

  // The chunk copy: the scalars at the source when the load runs, at the destination when the store runs.
  ghost function CopiedCell(atLoad: Memory, atStore: Memory, src: int, dst: int, n: nat, a: int): int {
    if dst <= a < dst + n then ReadCell(atLoad, src + (a - dst)) else ReadCell(atStore, a)
  }

  ghost predicate ChunkCopied(atLoad: Memory, atStore: Memory, src: int, dst: int, n: nat, after: Memory) {
    forall a :: ReadCell(after, a) == CopiedCell(atLoad, atStore, src, dst, n, a)
  }

  // The lowered stores, each of the value that its own lowered load has read.
  ghost function RunStores(code: seq<seq<nat>>, ty: Ty, atLoad: Memory, atStore: Memory, src: int, dst: int): Memory
    requires forall k :: 0 <= k < |code| ==> code[k] != [] && FullPath(ty, code[k][1..])
  {
    if code == [] then atStore
    else
      var n := |code| - 1;
      var o := Position(ty, code[n]);
      RunStores(code[..n], ty, atLoad, atStore, src, dst)[dst + o := ReadCell(atLoad, src + o)]
  }

  lemma OneMoreCell(atLoad: Memory, atStore: Memory, src: int, dst: int, n: nat, m: Memory)
    requires ChunkCopied(atLoad, atStore, src, dst, n, m)
    ensures ChunkCopied(atLoad, atStore, src, dst, n + 1, m[dst + n := ReadCell(atLoad, src + n)])
  {
    var v, next := ReadCell(atLoad, src + n), n + 1;
    var m' := m[dst + n := v];
    forall a
      ensures ReadCell(m', a) == CopiedCell(atLoad, atStore, src, dst, next, a)
    {
      ReadWritten(m, dst + n, v, a);
      CopyNext(atLoad, atStore, src, dst, n, a);
    }
  }

  lemma CopyNext(atLoad: Memory, atStore: Memory, src: int, dst: int, n: nat, a: int)
    ensures CopiedCell(atLoad, atStore, src, dst, n + 1, a)
         == if a == dst + n then ReadCell(atLoad, src + n) else CopiedCell(atLoad, atStore, src, dst, n, a)
  {
    assert a == dst + n ==> src + (a - dst) == src + n;
  }

  lemma {:induction false} StoresCopy(code: seq<seq<nat>>, ty: Ty, atLoad: Memory, atStore: Memory, src: int, dst: int)
    requires forall k :: 0 <= k < |code| ==> code[k] != [] && FullPath(ty, code[k][1..]) && Position(ty, code[k]) == k
    ensures ChunkCopied(atLoad, atStore, src, dst, |code|, RunStores(code, ty, atLoad, atStore, src, dst))
  {
    if code != [] {
      var n := |code| - 1;
      StoresCopy(code[..n], ty, atLoad, atStore, src, dst);
      OneMoreCell(atLoad, atStore, src, dst, n, RunStores(code[..n], ty, atLoad, atStore, src, dst));
    }
  }

  // The lowered copy does what the chunk copy did, whether or not source and destination overlap and
  // whatever was written between the load and the store.
  lemma LoweredCopyIsChunkCopy(ty: Ty, fitting: nat, atLoad: Memory, atStore: Memory, src: int, dst: int)
    requires fitting >= 1
    ensures var code := ChunkPaths(ty, fitting);
      (forall k :: 0 <= k < |code| ==> code[k] != [] && FullPath(ty, code[k][1..])) &&
      ChunkCopied(atLoad, atStore, src, dst, fitting * Count(ty), RunStores(code, ty, atLoad, atStore, src, dst))
  {
    ChunkPositions(ty, fitting);
    StoresCopy(ChunkPaths(ty, fitting), ty, atLoad, atStore, src, dst);
  }
}
