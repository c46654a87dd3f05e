# foreach: a verified model of the host semantics of the dispatch header

`foreach.h` lets one kernel body run either as a CPU loop or as a GPU kernel.
It supplies three looping macros (`FOR_EACH2D`, `FOR_EACH1D`, `SKIP_FOR`),
three policy tags (`backend`, `openmp`, `cuda`) and the build-time alias
`opti`, and a dispatcher `foreach::exec2d`. The sample program defines a
copy kernel `sample_copy` and dispatches it over a 1024 × 1024 domain.

This project models:

- **The host expansions of the macros** (`foreach_loops.dfy`, module
  `ForeachLoops`). `ForEach2D` and `ForEach1D` are methods with the same
  counted `int` loops as the macros. The kernel body is an arbitrary total
  function from a state and a coordinate to a `Step`. The step says whether
  the body finished or executed `SKIP_FOR()`, and which state it left. Each
  method is proved against the specification functions `RowMajor` and `Range`
  and the fold `Run`. Lemmas then prove what the loops promise: every
  in-range coordinate is visited exactly once, in row-major order; an empty
  extent runs nothing; `SKIP_FOR()` ends only its own iteration.
- **The dispatcher** (`foreach_dispatch.dfy`, module `ForeachDispatch`).
  The policy tags form a datatype, with a flag for user types that say
  whether they derive from `backend`. `exec2d` is a function that returns
  the sequence of calls it makes: the host call of the callable, the device
  launch with its grid and block, and the device synchronisation. The grid
  arithmetic `(n + 16 - 1) / 16` is modelled in C `int` arithmetic
  (`cint.dfy`, module `CInt`): it truncates toward zero, and overflow is
  undefined behaviour, so it must be ruled out.
- **The sample** (`sample.dfy`, module `Sample`). `SampleCopy` is the
  in-place array copy with the nested host loops. Its flattened index
  `i + j*nx` is computed in 32-bit `int`. The lemmas prove that the
  flattening is a bijection from the domain onto `[0, nx*ny)` and that the
  copy is idempotent. `Exec2dSampleCopy` and `SampleMain` model the sample's
  dispatch through `exec2d` on a host build.

## Notes on the code

The model follows these details of the code:

- The dispatcher branches with an ordinary `if` on `std::is_same<...>::value`.
  It is not a compile-time `if`. Both branches are compiled for every policy,
  and the `static_assert` is checked on every instantiation. In the model
  that assertion is the precondition `IsBackend(policy)` of `Exec2d`.
- A tag that passes the assertion but is neither `openmp` nor `cuda` makes
  no call at all. This covers `backend` itself and any type derived from a
  tag, such as one derived from `cuda`, because `is_same` asks for the exact
  type.
- With a zero extent the host dispatcher still calls the callable once. It
  is the body of the `FOR_EACH2D` inside the callable that runs zero times
  (`EmptyDomainRunsNothing`).
- `(nx + nth_x - 1)` is evaluated as `(nx + 16) - 1`. `BlockCount` therefore
  requires `nx + 16` to fit in `int`, not just `nx + 15`.

## Model

| member | source | states |
|---|---|---|
| `ForeachLoops.ForEach2D` | foreach.h:39-44 | the host FOR_EACH2D hands its body exactly the coordinates of `RowMajor(nx, ny)`: `j` in [0, ny) outside, `i` in [0, nx) inside. The final state is the body folded over them in that order, whether or not an iteration skips |
| `ForeachLoops.ForEach1D` | foreach.h:46-48 | the host FOR_EACH1D hands its body exactly 0, 1, ..., nn - 1 in order, and the final state is the body folded over them |
| `ForeachLoops.RowMajorLength` | foreach.h:42-44 | the 2D loop runs its body max(nx,0) * max(ny,0) times |
| `ForeachLoops.RowMajorMembers` | foreach.h:42-44 | a coordinate is visited if and only if 0 <= i < nx and 0 <= j < ny |
| `ForeachLoops.RowMajorOrdered` | foreach.h:42-44 | visits are strictly increasing in row-major order (by `j`, then by `i`) |
| `ForeachLoops.RowMajorExactlyOnce` | foreach.h:39-44 | every in-range coordinate occurs exactly once among the visits, every other coordinate never |
| `ForeachLoops.EmptyDomainRunsNothing` | foreach.h:42-44 | with nx <= 0 or ny <= 0 the body never runs and the state is unchanged |
| `ForeachLoops.RangeExactlyOnce` | foreach.h:46-48 | the 1D loop visits indices in increasing order, each index of [0, nn) exactly once and no other |
| `ForeachLoops.SkipEndsOnlyItsIteration` | foreach.h:50 | `SKIP_FOR()` is `continue`: a loop whose body skips ends in the same state as one whose body finishes there with that state. This holds by the definition of `Run`; the evidence that every later iteration still runs is `ForEach2D`'s `visited == RowMajor(nx, ny)` and `ForEach1D`'s `visited == Range(nn)`, which hold for every body, skipping or not |
| `ForeachDispatch.Opti` | foreach.h:62-66 | `opti` is a backend tag. It is `cuda` exactly when USE_NVCC is defined and `openmp` otherwise |
| `ForeachDispatch.BlockCount` | foreach.h:100-102 | with `Nth`, the 16 threads per axis of foreach.h:100: for n >= 0 the block count is the least r >= 0 with r*16 >= n, so (r-1)*16 < n. For n <= 0 it is at most 0. It requires `n + 16` not to overflow `int` |
| `ForeachDispatch.BlockCountExamples` | foreach.h:100-102 | 17 coordinates need 2 blocks, 16 need 1, 0 need 0, and 1024 need 64 |
| `ForeachDispatch.Exec2dCpu` | foreach.h:80-87 | `exec2d_cpu` makes exactly one call, the call of the callable, and launches nothing |
| `ForeachDispatch.DeviceLaunch` | foreach.h:98-108 | the `cuda` branch on a USE_NVCC build: exactly a launch of 16×16 blocks on a grid that covers nx × ny with no spare block row or column, then the device synchronisation, and no host call |
| `ForeachDispatch.Exec2d` | foreach.h:90-116 | a tag not derived from `backend` is refused: `requires IsBackend(policy)` is the `static_assert` of foreach.h:114, with `IsBackend` defining `is_base_of<backend, P>` over the tags of `Policy` (foreach.h:56-59). `openmp` calls the callable exactly once and no other policy calls it. A launch happens if and only if the tag is `cuda` and USE_NVCC is defined; its 16×16 blocks form a grid that covers nx × ny with no spare block row or column, and it is followed only by the device synchronisation. Every synchronisation directly follows a launch. Every other case makes no call at all |
| `Sample.Flat` | sample/sample.cpp:44 | `ij = i + j*nx` puts row `j` (0 <= i < nx) in [j*nx, (j+1)*nx) |
| `Sample.CopyBody` | sample/sample.cpp:44-45 | one iteration of the copy's body always finishes and keeps the length of `fn`; it writes `f[ij]` at `ij = i + j*nx` and leaves every other element of `fn` as it was |
| `Sample.RowMajorFlattens` | sample/sample.cpp:43-44 | the k-th coordinate visited by the copy's FOR_EACH2D has `i + j*nx == k`, so the 2D loop walks [0, nx*ny) in order |
| `Sample.FlatInRange` | sample/sample.cpp:44 | for 0 <= i < nx and 0 <= j < ny, `i + j*nx` lies in [0, nx*ny) |
| `Sample.FlatInjective` | sample/sample.cpp:44 | distinct in-range coordinates have distinct flattened indices |
| `Sample.FlatOnto` | sample/sample.cpp:44 | every index in [0, nx*ny) is the flattened index of an in-range coordinate |
| `Sample.CopyRunCopiesPrefix` | sample/sample.cpp:44-45 | running `fn[ij] = f[ij]` over coordinates whose flattened indices are 0..n-1 makes `fn` equal to `f` on [0, n) and leaves the rest |
| `Sample.CopyKernelCopiesDomain` | sample/sample.cpp:43-46 | the FOR_EACH2D of sample_copy, run on the host, makes `fn` equal to `f` on [0, nx*ny) and leaves the rest of `fn` unchanged |
| `Sample.CopyKernelIdempotent` | sample/sample.cpp:43-46 | running the copy a second time leaves `fn` as the first run left it |
| `Sample.SampleCopy` | sample/sample.cpp:36-47 | the in-place copy: afterwards `fn[k] == f[k]` for k < nx*ny, the rest of `fn` is unchanged, `f` is never written, and an empty extent changes nothing. The result equals the FOR_EACH2D semantics of its body. Every `i + j*nx` is proved to fit in `int` |
| `Sample.Exec2dSampleCopy` | sample/sample.cpp:60-68 | dispatching the sample's lambda through `exec2d<openmp>` copies `f` into `fn` on [0, nx*ny) and keeps the rest; only on that path must the extents and arrays meet sample_copy's demands. A policy that takes neither path leaves `fn` unchanged, whatever the arrays |
| `Sample.SampleMain` | sample/sample.cpp:51-69 | on a host build, `main`'s 1024 × 1024 dispatch leaves `fn` equal to `f` on its first 1024*1024 elements |

## Left out

- The device expansions of the macros (foreach.h:29-37) are left out. On the
  device, FOR_EACH2D binds `i` and `j` from `threadIdx` only and never uses
  `blockIdx`. It therefore does not tile a domain larger than one 16 × 16
  block, so the model claims no domain coverage for the device path. The
  device FOR_EACH1D refers to `NX_LEAF`, which is not defined in the header.
  Device `SKIP_FOR()` is `return`.
- The CUDA launch (`exec2d_gpu`, `<<<...>>>`, `cudaDeviceSynchronize`) is a
  foreign runtime call. It appears only as the opaque calls `Launch` and
  `DeviceSynchronize` in the trace `Exec2d` returns.
- Sample.Exec2dSampleCopy: says nothing about `fn` after a device launch
  (tag `cuda` with USE_NVCC defined), because the device kernel is not
  modelled.
- OpenMP parallelism (`omp parallel for`) is left out: the outer loop is
  modelled as a sequential loop. That is sound only for bodies without
  dependencies between iterations, which is the source's own demand on
  kernel authors.
- The hint macros `PRAGMA_FOR_SIMD`, `ASSUME_ALIGNED64` and `ASSUME64`
  (foreach.h:9-25) are left out: they are compiler hints with no effect on
  the result.
- `allocate` (sample/sample.cpp:16-22) is left out. The arrays are given to
  the model with enough elements and arbitrary contents. In the sample, `f`
  is never initialised before it is read.
- The `__HD__` annotations and the `USE_INTEL` / `USE_A64FX` selectors are
  build plumbing, and are left out.
- The callable and its arguments are opaque: `exec2d` forwards them by
  value, and the model records only that the callable is called.
- The element type `real` (a `double`) is a type parameter, because the copy
  does no arithmetic on it.
- Sample.CopyBody: an index outside either array is undefined behaviour in
  C; the model makes it a no-op, and `SampleCopy`'s requires keep it from
  arising.
- The kernel body is a total function returning `Finished` or `Skipped`.
  That excludes bodies that `break`, `return` or never end.
- ForEach2D and ForEach1D read `nx`, `ny` and `nn` once. The macros re-test
  `NX`, `NY` and `NN` on every iteration, so a body that changes them is not
  modelled. In `sample_copy` the extents are `const int`, so nothing differs
  there.
- Sample.SampleCopy: `f` may be the same array as `fn`, but a partial overlap
  of the two arrays cannot be expressed with Dafny arrays and is not
  modelled.
