/**
  Policy tags and the 2D dispatcher `foreach::exec2d` of foreach.h.

  The tags `backend`, `openmp : backend` and `cuda : backend` are types the
  dispatcher branches on; any other type a caller supplies is `Other`, with a
  flag saying whether it derives from `backend`. The dispatcher itself does no
  work of its own: it calls the callable, or launches it on the device and
  waits. It is modelled by the sequence of calls it makes, with the callable,
  its arguments and the device runtime left opaque.
 */
module ForeachDispatch {
  import opened CInt

  datatype Policy =
    | Backend
    | OpenMP
    | Cuda
    | Other(derivedFromBackend: bool)

  /** `std::is_base_of<backend, P>::value` (true for `backend` itself). */
  predicate IsBackend(p: Policy) {
    match p
    case Other(derived) => derived
    case _ => true
  }

  /** The build-time alias `opti`: `cuda` when USE_NVCC is defined. */
  function Opti(useNvcc: bool): (p: Policy)
    ensures IsBackend(p)
    ensures p == Cuda <==> useNvcc
    ensures p == OpenMP <==> !useNvcc
  {
    if useNvcc then Cuda else OpenMP
  }

  /** Threads per block along each axis: `nth_x` and `nth_y` are both 16. */
  const Nth: int32 := 16

  datatype Dim2 = Dim2(x: int, y: int)

  /** One call the dispatcher makes. */
  datatype Call =
    | Invoke                              // func(args...) on the host
    | Launch(grid: Dim2, block: Dim2)     // exec2d_gpu<<<grid, block>>>(func, args...)
    | DeviceSynchronize                   // cudaDeviceSynchronize()

  function Invocations(calls: seq<Call>): nat {
    if calls == [] then 0
    else Invocations(calls[..|calls| - 1]) + (if calls[|calls| - 1] == Invoke then 1 else 0)
  }

  lemma {:induction false} InvocationsCountInvoke(calls: seq<Call>)
    ensures Invocations(calls) > 0 <==> Invoke in calls
  {
    if calls != [] {
      var init := calls[..|calls| - 1];
      InvocationsCountInvoke(init);
      assert calls == init + [calls[|calls| - 1]];
    }
  }

  predicate Launches(calls: seq<Call>) {
    exists k :: 0 <= k < |calls| && calls[k].Launch?
  }

  /** `(n + nth - 1) / nth` with nth = 16 in C `int` arithmetic, evaluated
      left to right: the number of blocks of 16 threads that cover `n`
      coordinates. The source demands that `n + 16` does not overflow. For
      n >= 0 the result is the least block count whose threads reach n. */
  function BlockCount(n: int32): (r: int32)
    requires n as int + Nth as int <= INT_MAX
    ensures n >= 0 ==> 0 <= r && n as int <= r as int * 16 && (r as int - 1) * 16 < n as int
    ensures n <= 0 ==> r <= 0
  {
    var sum: int32 := n + Nth;
    var top: int32 := sum - 1;
    CDiv(top as int, Nth as int) as int32
  }

  /** Grid sizes of the examples: 17 coordinates need 2 blocks, 0 need none,
      the sample's 1024 need 64. */
  lemma BlockCountExamples()
    ensures BlockCount(17) == 2 && BlockCount(16) == 1
    ensures BlockCount(0) == 0 && BlockCount(1024) == 64
  {
  }

  /** `exec2d_cpu(func, args...)`: one synchronous call of the callable. */
  function Exec2dCpu(): (calls: seq<Call>)
    ensures |calls| == 1 && Invocations(calls) == 1
    ensures !Launches(calls)
  {
    [Invoke]
  }

  /** The `cuda` branch of `exec2d` on a build with USE_NVCC: the launch of
      `exec2d_gpu` on a grid of bx × by blocks of 16 × 16 threads, then the
      wait for the device. */
  function DeviceLaunch(nx: int32, ny: int32): (calls: seq<Call>)
    requires nx as int + Nth as int <= INT_MAX && ny as int + Nth as int <= INT_MAX
    ensures |calls| == 2 && calls[0].Launch? && calls[1] == DeviceSynchronize
    ensures Invocations(calls) == 0
    ensures calls[0].block == Dim2(Nth as int, Nth as int)
    ensures nx >= 0 ==> nx as int <= calls[0].grid.x * 16 && (calls[0].grid.x - 1) * 16 < nx as int
    ensures ny >= 0 ==> ny as int <= calls[0].grid.y * 16 && (calls[0].grid.y - 1) * 16 < ny as int
  {
    var bx := BlockCount(nx);
    var bY := BlockCount(ny);  // `by` (a keyword in Dafny)
    var launch := Launch(Dim2(bx as int, bY as int), Dim2(Nth as int, Nth as int));
    assert [launch, DeviceSynchronize][..1] == [launch] && [launch][..0] == [];
    assert Invocations([launch]) == 0;
    [launch, DeviceSynchronize]
  }

  /** The calls `exec2d<policy>(nx, ny, func, args...)` makes, in order.
      `useNvcc` says whether USE_NVCC is defined for the build; the
      `static_assert` that rejects a tag not derived from `backend` is the
      first precondition. */
  function Exec2d(policy: Policy, useNvcc: bool, nx: int32, ny: int32): (calls: seq<Call>)
    requires IsBackend(policy)
    requires policy == Cuda && useNvcc ==>
               nx as int + Nth as int <= INT_MAX && ny as int + Nth as int <= INT_MAX
    ensures Invocations(calls) == if policy == OpenMP then 1 else 0
    ensures Launches(calls) <==> policy == Cuda && useNvcc
    ensures calls == [] <==> policy != OpenMP && !(policy == Cuda && useNvcc)
    ensures forall k :: 0 <= k < |calls| && calls[k] == DeviceSynchronize ==> 0 < k && calls[k - 1].Launch?
    ensures forall k :: 0 <= k < |calls| && calls[k].Launch? ==>
              && calls[k].block == Dim2(Nth as int, Nth as int)
              && (nx >= 0 ==> nx as int <= calls[k].grid.x * 16 && (calls[k].grid.x - 1) * 16 < nx as int)
              && (ny >= 0 ==> ny as int <= calls[k].grid.y * 16 && (calls[k].grid.y - 1) * 16 < ny as int)
              && calls[k + 1..] == [DeviceSynchronize]
  {
    if policy == Cuda then
      if useNvcc then
        var calls := DeviceLaunch(nx, ny);
        assert calls[2..] == [];
        calls
      else
        []
    else if policy == OpenMP then
      Exec2dCpu()
    else
      []
  }
}
