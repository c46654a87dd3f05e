/**
  Host (non-device) expansions of the looping macros of foreach.h.

  `FOR_EACH2D(I, J, NX, NY)` expands on the host into two counted `int`
  loops, `J` over [0, NY) outside and `I` over [0, NX) inside, followed by the
  kernel author's body. `FOR_EACH1D(IJK, NN)` is one counted loop over
  [0, NN). `SKIP_FOR()` is `continue`.

  The kernel body is an arbitrary piece of code; here it is a total function
  from the current state and the loop coordinate to a `Step`, which records
  whether the body ran to its end or left early through `SKIP_FOR()`, and
  the state it left behind in either case.
 */
module ForeachLoops {
  import opened CInt

  /** One coordinate of the 2D domain: `I` (inner, x) and `J` (outer, y). */
  datatype Coord = Coord(i: int, j: int)

  /** What one execution of the kernel body did. */
  datatype Step<S> =
    | Finished(state: S)  // the body ran to its closing brace
    | Skipped(state: S)   // the body executed SKIP_FOR()

  /** Number of iterations of `for (int K = 0; K < n; K++)`. */
  function Extent(n: int): nat {
    if n < 0 then 0 else n
  }

  /** Number of in-range cells of an nx-by-ny domain. */
  function Cells(nx: int, ny: int): nat {
    Extent(nx) * Extent(ny)
  }

  predicate InDomain(c: Coord, nx: int, ny: int) {
    0 <= c.i < nx && 0 <= c.j < ny
  }

  /** Row-major order: by `j` first, then by `i`. */
  predicate Before(a: Coord, b: Coord) {
    a.j < b.j || (a.j == b.j && a.i < b.i)
  }

  /** The first `n` coordinates of row `j`. */
  function RowPrefix(n: nat, j: int): seq<Coord> {
    seq(n, i => Coord(i, j))
  }

  /** The coordinates of the first `m` complete rows of width `nx`. */
  function Rows(nx: nat, m: nat): seq<Coord> {
    if m == 0 then [] else Rows(nx, m - 1) + RowPrefix(nx, m - 1)
  }

  /** The coordinates the host FOR_EACH2D hands to its body, in order. */
  function RowMajor(nx: int, ny: int): seq<Coord> {
    Rows(Extent(nx), Extent(ny))
  }

  /** The indices the host FOR_EACH1D hands to its body, in order. */
  function Range(n: int): seq<int> {
    seq(Extent(n), k => k)
  }

  /** The state after running `body` on each of `ks` in turn, from `s`. A
      skipped iteration continues the loop exactly like a finished one. */
  function Run<S, K>(s: S, ks: seq<K>, body: (S, K) -> Step<S>): S
    decreases |ks|
  {
    if ks == [] then s else body(Run(s, ks[..|ks| - 1], body), ks[|ks| - 1]).state
  }

  /** Host FOR_EACH2D(i, j, nx, ny) { body }: visits every coordinate of the
      domain in row-major order and threads the state through the body. */
  method ForEach2D<S>(nx: int32, ny: int32, body: (S, Coord) -> Step<S>, s0: S)
    returns (s: S, visited: seq<Coord>)
    ensures visited == RowMajor(nx as int, ny as int)
    ensures s == Run(s0, visited, body)
  {
    s, visited := s0, [];
    var j: int32 := 0;
    while j < ny
      invariant 0 <= j as int <= Extent(ny as int)
      invariant visited == Rows(Extent(nx as int), j as nat)
      invariant s == Run(s0, visited, body)
    {
      var i: int32 := 0;
      while i < nx
        invariant 0 <= i as int <= Extent(nx as int)
        invariant visited == Rows(Extent(nx as int), j as nat) + RowPrefix(i as nat, j as int)
        invariant s == Run(s0, visited, body)
      {
        var c := Coord(i as int, j as int);
        // Finished or Skipped (SKIP_FOR() is `continue`): on to the next i.
        s := body(s, c).state;
        assert RowPrefix(i as nat + 1, j as int) == RowPrefix(i as nat, j as int) + [c];
        visited := visited + [c];
        i := i + 1;
      }
      j := j + 1;
    }
  }

  /** Host FOR_EACH1D(ijk, nn) { body }: visits 0, 1, ..., nn - 1. */
  method ForEach1D<S>(nn: int32, body: (S, int) -> Step<S>, s0: S)
    returns (s: S, visited: seq<int>)
    ensures visited == Range(nn as int)
    ensures s == Run(s0, visited, body)
  {
    s, visited := s0, [];
    var ijk: int32 := 0;
    while ijk < nn
      invariant 0 <= ijk as int <= Extent(nn as int)
      invariant visited == Range(ijk as int)
      invariant s == Run(s0, visited, body)
    {
      s := body(s, ijk as int).state;
      assert Range(ijk as int + 1) == Range(ijk as int) + [ijk as int];
      visited := visited + [ijk as int];
      ijk := ijk + 1;
    }
  }

  // ---------------------------------------------------------------------
  // What the iteration order guarantees

  lemma {:induction false} RowsLength(nx: nat, m: nat)
    ensures |Rows(nx, m)| == nx * m
  {
    if m > 0 {
      RowsLength(nx, m - 1);
      assert nx * m == nx * (m - 1) + nx;
    }
  }

  /** FOR_EACH2D runs its body once per cell: |RowMajor| is the cell count. */
  lemma RowMajorLength(nx: int, ny: int)
    ensures |RowMajor(nx, ny)| == Cells(nx, ny)
  {
    RowsLength(Extent(nx), Extent(ny));
  }

  lemma {:induction false} RowsMembers(nx: nat, m: nat, c: Coord)
    ensures c in Rows(nx, m) <==> 0 <= c.i < nx && 0 <= c.j < m
  {
    if m > 0 {
      RowsMembers(nx, m - 1, c);
      if 0 <= c.i < nx && c.j == m - 1 {
        assert RowPrefix(nx, m - 1)[c.i] == c;
      }
    }
  }

  /** FOR_EACH2D hands its body exactly the in-range coordinates. */
  lemma RowMajorMembers(nx: int, ny: int, c: Coord)
    ensures c in RowMajor(nx, ny) <==> InDomain(c, nx, ny)
  {
    RowsMembers(Extent(nx), Extent(ny), c);
  }

  lemma {:induction false} RowsOrdered(nx: nat, m: nat)
    ensures forall p, q :: 0 <= p < q < |Rows(nx, m)| ==> Before(Rows(nx, m)[p], Rows(nx, m)[q])
  {
    if m > 0 {
      RowsOrdered(nx, m - 1);
      var front, row := Rows(nx, m - 1), RowPrefix(nx, m - 1);
      forall p, q | 0 <= p < q < |front + row|
        ensures Before((front + row)[p], (front + row)[q])
      {
        if q >= |front| && p < |front| {
          RowsMembers(nx, m - 1, front[p]);
        }
      }
    }
  }

  /** FOR_EACH2D visits coordinates in strictly increasing row-major order:
      `j` outside, `i` inside. */
  lemma RowMajorOrdered(nx: int, ny: int)
    ensures forall p, q :: 0 <= p < q < |RowMajor(nx, ny)| ==>
              Before(RowMajor(nx, ny)[p], RowMajor(nx, ny)[q])
  {
    RowsOrdered(Extent(nx), Extent(ny));
  }

  /** In a sequence without repetitions every element occurs exactly once. */
  lemma {:induction false} DistinctOccursOnce<T>(s: seq<T>, x: T)
    requires forall p, q :: 0 <= p < q < |s| ==> s[p] != s[q]
    ensures multiset(s)[x] == if x in s then 1 else 0
  {
    if s != [] {
      var init, last := s[..|s| - 1], s[|s| - 1];
      assert s == init + [last];
      DistinctOccursOnce(init, x);
      forall p | 0 <= p < |init| ensures init[p] != last {
        assert s[p] != s[|s| - 1];
      }
    }
  }

  /** The host FOR_EACH2D runs its body exactly once for each in-range
      coordinate and never for any other. */
  lemma RowMajorExactlyOnce(nx: int, ny: int, c: Coord)
    ensures multiset(RowMajor(nx, ny))[c] == if InDomain(c, nx, ny) then 1 else 0
  {
    var s := RowMajor(nx, ny);
    RowMajorOrdered(nx, ny);
    forall p, q | 0 <= p < q < |s| ensures s[p] != s[q] {
      assert Before(s[p], s[q]);
    }
    DistinctOccursOnce(s, c);
    RowMajorMembers(nx, ny, c);
  }

  lemma {:induction false} RowsOfNothing(m: nat)
    ensures Rows(0, m) == []
  {
    if m > 0 {
      RowsOfNothing(m - 1);
    }
  }

  /** With NX <= 0 or NY <= 0 the host FOR_EACH2D never runs its body, and
      the state is left as it was. */
  lemma EmptyDomainRunsNothing<S>(nx: int, ny: int, body: (S, Coord) -> Step<S>, s: S)
    requires nx <= 0 || ny <= 0
    ensures RowMajor(nx, ny) == []
    ensures Run(s, RowMajor(nx, ny), body) == s
  {
    if nx <= 0 {
      RowsOfNothing(Extent(ny));
    }
  }

  /** The host FOR_EACH1D runs its body exactly once for each index in
      [0, NN), in increasing order, and never for any other. */
  lemma RangeExactlyOnce(nn: int, x: int)
    ensures forall p, q :: 0 <= p < q < |Range(nn)| ==> Range(nn)[p] < Range(nn)[q]
    ensures multiset(Range(nn))[x] == if 0 <= x < nn then 1 else 0
  {
    DistinctOccursOnce(Range(nn), x);
    if 0 <= x < nn {
      assert Range(nn)[x] == x;
    }
  }

  /** `body` with every SKIP_FOR() replaced by running to the end with the
      same state. */
  function AsFinished<S, K>(body: (S, K) -> Step<S>): (S, K) -> Step<S> {
    (s: S, k: K) => Finished(body(s, k).state)
  }

  /** SKIP_FOR() is `continue`: it ends only the iteration it fires in. A loop
      whose body skips behaves exactly like one whose body finishes in the same
      state, so every later iteration still runs, from that state. */
  lemma {:induction false} SkipEndsOnlyItsIteration<S, K>(s: S, ks: seq<K>, body: (S, K) -> Step<S>)
    ensures Run(s, ks, body) == Run(s, ks, AsFinished(body))
  {
    if ks != [] {
      SkipEndsOnlyItsIteration(s, ks[..|ks| - 1], body);
    }
  }
}
