/**
  The sample kernel `sample_copy` and its use through `exec2d` in `main`.

  `sample_copy(nx, ny, fn, f)` is a FOR_EACH2D over the nx-by-ny domain
  whose body copies `f[ij]` into `fn[ij]` at the flattened index
  `ij = i + j*nx`, computed in C `int`. The element type (`real`, a double
  in the source) only moves, so it is a type parameter here.
 */
module Sample {
  import opened CInt
  import opened ForeachLoops
  import opened ForeachDispatch

  /** The flattened index `ij = i + j*nx` of a coordinate: row `j` of the
      domain occupies the indices [j*nx, (j+1)*nx), in the order of `i`. */
  function Flat(c: Coord, nx: int): (ij: int)
    ensures 0 <= c.i < nx ==> c.j * nx <= ij < (c.j + 1) * nx
  {
    assert (c.j + 1) * nx == c.j * nx + nx;
    c.i + c.j * nx
  }

  lemma {:induction false} RowsFlatten(nx: nat, m: nat, k: int)
    requires 0 <= k < |Rows(nx, m)|
    ensures Flat(Rows(nx, m)[k], nx) == k
  {
    var front := Rows(nx, m - 1);
    RowsLength(nx, m - 1);
    if k < |front| {
      RowsFlatten(nx, m - 1, k);
    } else {
      assert Rows(nx, m)[k] == Coord(k - nx * (m - 1), m - 1);
    }
  }

  /** The k-th coordinate FOR_EACH2D visits has flattened index k: the 2D loop
      with ij = i + j*nx walks [0, nx*ny) in the order FOR_EACH1D does. */
  lemma RowMajorFlattens(nx: int, ny: int, k: int)
    requires 0 <= k < |RowMajor(nx, ny)|
    ensures Flat(RowMajor(nx, ny)[k], nx) == k
  {
    if nx <= 0 {
      RowsOfNothing(Extent(ny));
      assert false;
    }
    RowsFlatten(Extent(nx), Extent(ny), k);
  }

  /** For 0 <= i < nx and 0 <= j < ny the index i + j*nx lies in [0, nx*ny). */
  lemma FlatInRange(nx: int, ny: int, c: Coord)
    requires InDomain(c, nx, ny)
    ensures 0 <= Flat(c, nx) < Cells(nx, ny)
  {
    var visited := RowMajor(nx, ny);
    RowMajorMembers(nx, ny, c);
    var p :| 0 <= p < |visited| && visited[p] == c;
    RowMajorFlattens(nx, ny, p);
    RowMajorLength(nx, ny);
  }

  /** Distinct in-range coordinates have distinct flattened indices. */
  lemma FlatInjective(nx: int, ny: int, c1: Coord, c2: Coord)
    requires InDomain(c1, nx, ny) && InDomain(c2, nx, ny)
    requires Flat(c1, nx) == Flat(c2, nx)
    ensures c1 == c2
  {
    var visited := RowMajor(nx, ny);
    RowMajorMembers(nx, ny, c1);
    RowMajorMembers(nx, ny, c2);
    var p1 :| 0 <= p1 < |visited| && visited[p1] == c1;
    var p2 :| 0 <= p2 < |visited| && visited[p2] == c2;
    RowMajorFlattens(nx, ny, p1);
    RowMajorFlattens(nx, ny, p2);
  }

  /** Every index in [0, nx*ny) is the flattened index of an in-range
      coordinate, namely of the one FOR_EACH2D visits k-th. */
  lemma FlatOnto(nx: int, ny: int, k: int)
    requires 0 <= k < Cells(nx, ny)
    ensures k < |RowMajor(nx, ny)|
    ensures InDomain(RowMajor(nx, ny)[k], nx, ny) && Flat(RowMajor(nx, ny)[k], nx) == k
  {
    RowMajorLength(nx, ny);
    RowMajorMembers(nx, ny, RowMajor(nx, ny)[k]);
    RowMajorFlattens(nx, ny, k);
  }

  /** The body of sample_copy on the contents of `fn`: fn[ij] = f[ij]. An
      index outside either array (undefined behaviour in C) leaves `fn` as it
      is; the visits of sample_copy never produce one. */
  function CopyBody<T(!new)>(f: seq<T>, nx: int): (body: (seq<T>, Coord) -> Step<seq<T>>)
    ensures forall fn: seq<T>, c: Coord :: body(fn, c).Finished? && |body(fn, c).state| == |fn|
    ensures forall fn: seq<T>, c: Coord, k {:trigger body(fn, c).state[k]} :: 0 <= k < |fn| ==>
              body(fn, c).state[k] == if k == Flat(c, nx) && k < |f| then f[k] else fn[k]
  {
    (fn: seq<T>, c: Coord) =>
      var ij := Flat(c, nx);
      if 0 <= ij < |fn| && ij < |f| then Finished(fn[ij := f[ij]]) else Finished(fn)
  }

  /** Running the copy body over coordinates whose flattened indices are
      0, 1, ..., n - 1 copies the first n elements of f and keeps the rest. */
  lemma {:induction false} CopyRunCopiesPrefix<T(!new)>(fn: seq<T>, f: seq<T>, nx: int, ks: seq<Coord>)
    requires |ks| <= |fn| && |ks| <= |f|
    requires forall k :: 0 <= k < |ks| ==> Flat(ks[k], nx) == k
    ensures Run(fn, ks, CopyBody(f, nx)) == f[..|ks|] + fn[|ks|..]
  {
    if ks != [] {
      var n := |ks| - 1;
      CopyRunCopiesPrefix(fn, f, nx, ks[..n]);
      var before := f[..n] + fn[n..];
      assert Flat(ks[n], nx) == n;
      assert CopyBody(f, nx)(before, ks[n]).state == before[n := f[n]];
      assert before[n := f[n]] == f[..n + 1] + fn[n + 1..];
    }
  }

  /** What the FOR_EACH2D of sample_copy computes: fn equals f on [0, nx*ny)
      and is unchanged beyond. */
  lemma CopyKernelCopiesDomain<T(!new)>(fn: seq<T>, f: seq<T>, nx: int, ny: int)
    requires Cells(nx, ny) <= |fn| && Cells(nx, ny) <= |f|
    ensures Run(fn, RowMajor(nx, ny), CopyBody(f, nx)) == f[..Cells(nx, ny)] + fn[Cells(nx, ny)..]
  {
    RowMajorLength(nx, ny);
    forall k | 0 <= k < |RowMajor(nx, ny)| ensures Flat(RowMajor(nx, ny)[k], nx) == k {
      RowMajorFlattens(nx, ny, k);
    }
    CopyRunCopiesPrefix(fn, f, nx, RowMajor(nx, ny));
  }

  /** Running sample_copy a second time leaves fn as the first run left it. */
  lemma CopyKernelIdempotent<T(!new)>(fn: seq<T>, f: seq<T>, nx: int, ny: int)
    requires Cells(nx, ny) <= |fn| && Cells(nx, ny) <= |f|
    ensures var once := Run(fn, RowMajor(nx, ny), CopyBody(f, nx));
            Run(once, RowMajor(nx, ny), CopyBody(f, nx)) == once
  {
    var n := Cells(nx, ny);
    CopyKernelCopiesDomain(fn, f, nx, ny);
    var once := f[..n] + fn[n..];
    CopyKernelCopiesDomain(once, f, nx, ny);
    assert once[..n] == f[..n] && once[n..] == fn[n..];
  }

  /** `sample_copy(nx, ny, fn, f)` on the host. The source demands that every
      index i + j*nx fits in `int` and that both arrays hold nx*ny elements;
      `f` may be the same array as `fn`. */
  method SampleCopy<T(!new)>(nx: int32, ny: int32, fn: array<T>, f: array<T>)
    requires Cells(nx as int, ny as int) <= INT_MAX + 1
    requires Cells(nx as int, ny as int) <= fn.Length && Cells(nx as int, ny as int) <= f.Length
    modifies fn
    ensures forall k :: 0 <= k < Cells(nx as int, ny as int) ==> fn[k] == old(f[k])
    ensures forall k :: Cells(nx as int, ny as int) <= k < fn.Length ==> fn[k] == old(fn[k])
    ensures f[..] == old(f[..])
    ensures nx <= 0 || ny <= 0 ==> fn[..] == old(fn[..])
    ensures fn[..] == Run(old(fn[..]), RowMajor(nx as int, ny as int), CopyBody(old(f[..]), nx as int))
  {
    ghost var fn0, f0 := fn[..], f[..];
    ghost var width := Extent(nx as int);
    ghost var done := 0;
    var j: int32 := 0;
    while j < ny
      invariant 0 <= j as int <= Extent(ny as int)
      invariant done == j as int * width <= Cells(nx as int, ny as int)
      invariant f[..] == f0
      invariant forall k :: 0 <= k < done ==> fn[k] == f0[k]
      invariant forall k :: done <= k < fn.Length ==> fn[k] == fn0[k]
    {
      var i: int32 := 0;
      while i < nx
        invariant 0 <= i as int <= width
        invariant done == j as int * width + i as int <= Cells(nx as int, ny as int)
        invariant f[..] == f0
        invariant forall k :: 0 <= k < done ==> fn[k] == f0[k]
        invariant forall k :: done <= k < fn.Length ==> fn[k] == fn0[k]
      {
        FlatInRange(nx as int, ny as int, Coord(i as int, j as int));
        var ij: int32 := i + j * nx;
        fn[ij] := f[ij];
        done := done + 1;
        i := i + 1;
      }
      assert (j as int + 1) * width == j as int * width + width;
      j := j + 1;
    }
    assert done == Cells(nx as int, ny as int);
    assert fn[..] == f0[..done] + fn0[done..];
    CopyKernelCopiesDomain(fn0, f0, nx as int, ny as int);
  }

  /** `exec2d<policy>(nx, ny, [=]() { sample_copy(nx, ny, fn, f); })`. On the
      host path the lambda, and so sample_copy, runs once, and sample_copy's
      demands on the extents and the arrays apply; a tag that takes neither
      path changes nothing; the device launch is not modelled. */
  method Exec2dSampleCopy<T(!new)>(policy: Policy, useNvcc: bool, nx: int32, ny: int32, fn: array<T>, f: array<T>)
    requires IsBackend(policy)
    requires policy == Cuda && useNvcc ==>
               nx as int + Nth as int <= INT_MAX && ny as int + Nth as int <= INT_MAX
    requires policy == OpenMP ==> Cells(nx as int, ny as int) <= INT_MAX + 1
    requires policy == OpenMP ==>
               Cells(nx as int, ny as int) <= fn.Length && Cells(nx as int, ny as int) <= f.Length
    modifies fn
    ensures policy == OpenMP ==>
              fn[..] == old(f[..])[..Cells(nx as int, ny as int)] + old(fn[..])[Cells(nx as int, ny as int)..]
    ensures policy != OpenMP && !(policy == Cuda && useNvcc) ==> fn[..] == old(fn[..])
  {
    var calls := Exec2d(policy, useNvcc, nx, ny);
    InvocationsCountInvoke(calls);
    if Invoke in calls {
      SampleCopy(nx, ny, fn, f);
      CopyKernelCopiesDomain(old(fn[..]), old(f[..]), nx as int, ny as int);
    }
  }

  /** `main` on a host build (USE_NVCC not defined, so `opti` is `openmp`):
      a 1024 x 1024 copy dispatched through exec2d. Allocation is not
      modelled; the arrays are given. */
  method SampleMain<T(!new)>(fn: array<T>, f: array<T>)
    requires 1024 * 1024 <= fn.Length && 1024 * 1024 <= f.Length
    modifies fn
    ensures forall k :: 0 <= k < 1024 * 1024 ==> fn[k] == old(f[k])
  {
    var nx: int32 := 1024;
    var ny: int32 := 1024;
    assert Cells(nx as int, ny as int) == 1024 * 1024 <= INT_MAX;
    Exec2dSampleCopy(Opti(false), false, nx, ny, fn, f);
  }
}
