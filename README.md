# Litmus-test campaign driver, modelled in Dafny

`runner.cpp` drives a GPU weak-memory litmus test. It allocates five device
buffers once. Then it runs 1000 trials. Each trial zeroes the two
test-location buffers, writes a shuffled assignment of testing threads to
locations, and zeroes the nine-cell histogram. It then runs the probe kernel
(`run_test`) and the result kernel (`check_results`), reads the histogram
back, and adds its three violation cells (`not bound` x2, `Other/error`) to
`numViolations`.

This project models that host-side logic:

- `Ints.dfy` (module `Ints`): `uint32_t` cells and the `int` accumulator as
  newtypes. It writes out C++'s wrap-around for `results[6] + results[7] + results[8]`
  and for `numViolations += ...`.
- `Memory.dfy` (module `Memory`): `clearMemory`, `setShuffledLocations`
  (identity vector, `std::shuffle`, cell-by-cell stores), the histogram
  read-back loop, and what it means to be a permutation of `[0, n)`.
- `Results.dfy` (module `Results`): the histogram, the meaning of each cell
  (taken from the labels the host prints), the per-trial violation count, and
  the campaign total.
- `Runner.dfy` (module `Runner`): the fixed topology (512 workgroups of 192
  threads), class `Campaign` with the five buffers, the accumulator, and a
  ghost log of the histograms read so far. It also has the trial step and
  `Run`, the 1000-iteration loop.

The two kernels are opaque binaries. Each kernel is modelled as a
nondeterministic write of any value to any cell of the buffers bound to it.
The probe kernel gets the two test-location buffers, the shuffled locations
and the raw outcomes. The result kernel gets the raw outcomes and the
histogram. The probe kernel may be launched only on a freshly reset state
(`ReadyForProbe`). `RunTrial` proves that every trial establishes that state.

What the code does, where one might expect otherwise:

- Of the two result buffers, only the histogram `testResults` is cleared per
  trial. The raw-outcome buffer `readResults` keeps the previous trial's
  contents (`ResetTrial` ensures it is unchanged).
- The shuffle always runs. There is no percentage gate.
- The workgroup count is the constant 512. It is not drawn per trial.
- Each call to `setShuffledLocations` seeds a fresh engine from the clock. There
  is no single campaign-wide generator.
- `shuffledLocations` is never torn down.

## Model

| member | source | states |
|---|---|---|
| `Memory.ClearMemory` | runner.cpp:34-38 | every cell below `size` holds 0; every cell at or beyond `size` is unchanged (negative `size` changes nothing) |
| `Memory.Identity` | runner.cpp:41-44 | the vector built by `push_back` has length `n` and holds `i` at position `i` |
| `Memory.IdentityCounts` | runner.cpp:41-44 | each value below `n` occurs exactly once in the identity vector, and no other value occurs |
| `Memory.Shuffle` | runner.cpp:45-46 | the shuffled vector is a rearrangement of its input: same length, same multiset |
| `Memory.RangePermutationIff` | runner.cpp:42-48 | "every value of `[0, n)` exactly once and nothing else" holds iff the sequence is a rearrangement of the identity vector |
| `Memory.RangePermutationEntries` | runner.cpp:42-48 | a permutation of `[0, n)` has every entry below `n` and its entries pairwise distinct |
| `Memory.SetShuffledLocations` | runner.cpp:40-49 | the first `testingThreads` cells become a permutation of `[0, testingThreads)`; later cells are unchanged |
| `Memory.LoadCells` | runner.cpp:99-102 | the loaded vector equals the first `count` cells of the buffer |
| `Results.Bucket` | runner.cpp:103-111 | every observation gets one of the nine cells; it gets one of cells 0..7 exactly when it is one of the eight labelled patterns (flag 0/1, reads 1/2), otherwise cell 8 "Other/error" |
| `Results.BucketsExclusive` | runner.cpp:103-110 | the eight labelled outcomes fall into eight distinct cells |
| `Results.ViolationCells` | runner.cpp:103-112 | an outcome is a violation (flag set but reads disagree, or unexpected) iff its cell is 6, 7 or 8 |
| `Results.ViolationCount` | runner.cpp:112 | the per-trial count is the sum of cells 6, 7 and 8 when that fits in 32 bits; in any case it is at most that sum and differs from it by a multiple of 2^32 |
| `Results.ViolationCountIsViolatingCells` | runner.cpp:112 | the host's per-trial count is, modulo 2^32, the sum of exactly the cells whose outcomes are violations |
| `Results.ViolationCountExact` | runner.cpp:112 | when cells 6..8 sum below 2^32 the count is their exact sum, at most the histogram's total |
| `Results.TotalViolations` | runner.cpp:73-112 | the exact campaign total is zero exactly when no trial's count was non-zero |
| `Results.TotalViolationsAppend` | runner.cpp:112 | one more trial at the end of the log adds exactly its count to the campaign total, proved by induction over the trials |
| `Results.AccumulatorStep` | runner.cpp:112 | `numViolations += count` on the wrapped total of `k` trials gives the wrapped total of `k + 1` trials |
| `Results.AccumulatorNeverDecreases` | runner.cpp:112 | while the total stays below 2^31 the accumulator equals it and does not decrease from one trial to the next |
| `Ints.ToI32Congruent` | runner.cpp:112 | converting back to `int` keeps the value modulo 2^32, and is exact below 2^31 |
| `Ints.AddAssignWraps` | runner.cpp:112 | adding a `uint32_t` to a wrapped `int` equals wrapping the exact sum |
| `Ints.AddU32` | runner.cpp:112 | `uint32_t` addition: the exact sum below 2^32, otherwise the sum less 2^32 |
| `Ints.AddAssign` | runner.cpp:112 | `int += uint32_t`: agrees with the exact sum modulo 2^32, equals it below 2^31, and is the sum less 2^32 above |
| `Memory.DeviceWrites` | runner.cpp:90-94 | a kernel run leaves arbitrary values in a buffer bound to it: the buffer afterwards holds exactly the values returned, which nothing constrains |
| `Runner.Campaign.constructor` | runner.cpp:58-73 | the five buffers are fresh and distinct; their sizes are `testLocSize = 512 * 192 * 7` (twice), `testingThreads`, `3 * testingThreads` and 9; the tally starts at 0 |
| `Runner.Campaign.ResetTrial` | runner.cpp:78-81 | afterwards both test-location buffers and the histogram are all zero, the shuffled locations are a permutation of the testing threads, and `readResults` is unchanged |
| `Runner.Campaign.ProbeKernel` | runner.cpp:75-90 | the probe kernel runs only on a reset state and cannot change the histogram |
| `Runner.Campaign.ResultKernel` | runner.cpp:76-94 | the result kernel changes only the raw outcomes and the histogram |
| `Runner.Campaign.RunTrial` | runner.cpp:74-116 | the trial returns the histogram as read back, appends it to the log, and adds its violation count to `numViolations` with 32-bit wrap-around; below 2^31 the tally does not decrease |
| `Runner.ConservedCampaignNoOverflow` | runner.cpp:67-112 | if every histogram sums to `3 * testingThreads`, the total after at most 1000 trials is at most `trials * 3 * testingThreads` and the `int` accumulator holds it exactly |
| `Runner.Run` | runner.cpp:53-126 | returns the 1000 histograms read back (one per trial, as printed) and the final total, which is the wrapped sum of their violation counts; with conserving histograms it is the exact sum |

## Left out

- Device and instance handling (`Instance`, `Device`, `getDevice`, `listDevices`, `teardown`): these are foreign Vulkan calls. Buffer allocation is modelled as allocating fresh arrays.
- `Program` construction, `setWorkgroups`, `setWorkgroupSize`, `initialize` and `teardown`: these are foreign dispatch calls. The topology survives as the constants `Workgroups` and `WorkgroupSize`.
- The kernels `test.spv` and `check_results.spv`: they are opaque binaries. Each is modelled as an arbitrary write to the buffers bound to it. The conservation law (the histogram sums to `3 * testingThreads`) cannot be proved from the host code, so it appears only as a hypothesis (`Runner.Conserved`).
- `main`, option parsing, `srand` and exit codes: these are the command-line shell.
- All `cout` reporting: it is output only. The printed labels are used only to give each histogram cell its meaning.
- The clock-seeded `default_random_engine`: randomness is not modelled.
- Memory.Shuffle: promises only that the result is a rearrangement of its input. It says nothing about the distribution of `std::shuffle` or its exact swap sequence, which depend on the library and the engine.
- Runner.Campaign.ProbeKernel and Runner.Campaign.ResultKernel: a kernel can fail at run time and abort the program. The model does not capture that.
- The conversion of an out-of-range `unsigned` back to `int` in `numViolations += ...` is implementation-defined before C++20. The model uses the modular result that C++20 prescribes.
