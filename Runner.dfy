/** The litmus-test campaign of `run`: a fixed topology, five device buffers
    allocated once, and 1000 trials that each reset the buffers, dispatch the
    probe kernel and the result kernel, read the nine-cell histogram back and
    add its violation cells to the running total. */
module Runner {
  import opened Ints
  import opened Memory
  import opened Results

  const Iterations: i32 := 1000
  const Workgroups: i32 := 512
  const WorkgroupSize: i32 := 192
  const TestingThreads: i32 := Workgroups * WorkgroupSize
  /** Seven cells of each test-location buffer per testing thread. */
  const TestLocSize: i32 := TestingThreads * 7
  /** Three raw outcome slots per testing thread. */
  const ReadResultsSize: i32 := 3 * TestingThreads
  const HistogramCells: i32 := 9

  /** Every cell of the buffer holds 0. */
  ghost predicate AllZero(gpuMem: array<u32>)
    reads gpuMem
  {
    forall j :: 0 <= j < gpuMem.Length ==> gpuMem[j] == 0
  }

  /** The promise of the result kernel that every raw outcome of every testing
      thread lands in exactly one cell. The host does not check it; it is used
      only as a hypothesis. */
  predicate Conserved(h: Histogram)
  {
    CellTotal(h) == ReadResultsSize as int
  }

  class Campaign {
    const nonAtomicTestLocations: array<u32>
    const atomicTestLocations: array<u32>
    const shuffledLocations: array<u32>
    const readResults: array<u32>
    const testResults: array<u32>
    var numViolations: i32
    /** The histogram read back in each completed trial, oldest first. */
    ghost var histograms: seq<Histogram>

    ghost function Repr(): set<object>
    {
      {this, nonAtomicTestLocations, atomicTestLocations, shuffledLocations, readResults, testResults}
    }

    /** Buffer sizes follow the topology, the five buffers are distinct, and
        the accumulator is the (wrapped) sum of the counts of every trial so far. */
    ghost predicate Valid()
      reads this
    {
      && nonAtomicTestLocations.Length == TestLocSize as int
      && atomicTestLocations.Length == TestLocSize as int
      && shuffledLocations.Length == TestingThreads as int
      && readResults.Length == ReadResultsSize as int
      && testResults.Length == HistogramCells as int
      && nonAtomicTestLocations != atomicTestLocations
      && nonAtomicTestLocations != shuffledLocations
      && nonAtomicTestLocations != readResults
      && nonAtomicTestLocations != testResults
      && atomicTestLocations != shuffledLocations
      && atomicTestLocations != readResults
      && atomicTestLocations != testResults
      && shuffledLocations != readResults
      && shuffledLocations != testResults
      && readResults != testResults
      && numViolations == ToI32(TotalViolations(histograms))
    }

    /** The state the probe kernel is launched on: both test-location buffers
        and the histogram zeroed, and a fresh permutation of the testing
        threads in the shuffled-locations buffer. */
    ghost predicate ReadyForProbe()
      reads nonAtomicTestLocations, atomicTestLocations, shuffledLocations, testResults
    {
      && AllZero(nonAtomicTestLocations)
      && AllZero(atomicTestLocations)
      && AllZero(testResults)
      && IsRangePermutation(shuffledLocations[..], TestingThreads as nat)
    }

    /** Allocates the buffers once, sized from the topology, and starts the tally at 0. */
    constructor ()
      ensures Valid() && fresh(Repr())
      ensures histograms == [] && numViolations == 0
    {
      nonAtomicTestLocations := new u32[TestLocSize as int];
      atomicTestLocations := new u32[TestLocSize as int];
      shuffledLocations := new u32[TestingThreads as int];
      readResults := new u32[ReadResultsSize as int];
      testResults := new u32[HistogramCells as int];
      numViolations := 0;
      histograms := [];
    }

    /** Per-trial reset: zero both test-location buffers, rewrite the
        shuffled locations, zero the histogram. The raw outcome buffer is left
        as the previous trial left it. */
    method ResetTrial()
      requires Valid()
      modifies nonAtomicTestLocations, atomicTestLocations, shuffledLocations, testResults
      ensures Valid() && ReadyForProbe()
      ensures unchanged(readResults)
    {
      ClearMemory(nonAtomicTestLocations, TestLocSize);
      ClearMemory(atomicTestLocations, TestLocSize);
      SetShuffledLocations(shuffledLocations, TestingThreads);
      assert shuffledLocations[..] == shuffledLocations[..Trips(TestingThreads)];
      ClearMemory(testResults, HistogramCells);
    }

    /** The `run_test` entry point of the probe kernel, over the buffers bound
        to it; it is launched only on a freshly reset state. It cannot touch the
        histogram, which is not bound to it. */
    method ProbeKernel()
      requires Valid() && ReadyForProbe()
      modifies nonAtomicTestLocations, atomicTestLocations, shuffledLocations, readResults
      ensures Valid()
      ensures unchanged(testResults)
    {
      var nonAtomic := DeviceWrites(nonAtomicTestLocations);
      var atomic := DeviceWrites(atomicTestLocations);
      var shuffled := DeviceWrites(shuffledLocations);
      var raw := DeviceWrites(readResults);
    }

    /** The `check_results` entry point of the result kernel, over the raw
        outcomes and the histogram only. */
    method ResultKernel()
      requires Valid()
      modifies readResults, testResults
      ensures Valid()
      ensures unchanged(nonAtomicTestLocations) && unchanged(atomicTestLocations) && unchanged(shuffledLocations)
    {
      var raw := DeviceWrites(readResults);
      var histogram := DeviceWrites(testResults);
    }

    /** One iteration of the trial loop. */
    method RunTrial() returns (results: Histogram)
      requires Valid()
      modifies Repr()
      ensures Valid()
      ensures results == testResults[..]
      ensures histograms == old(histograms) + [results]
      ensures numViolations == AddAssign(old(numViolations), ViolationCount(results))
      ensures TotalViolations(histograms) < TWO_TO_THE_31 ==> old(numViolations) <= numViolations
    {
      ResetTrial();
      ProbeKernel();
      ResultKernel();
      var cells := LoadCells(testResults, HistogramCells);
      assert testResults[..Trips(HistogramCells)] == testResults[..];
      results := cells;
      AccumulatorStep(histograms, results);
      if TotalViolations(histograms + [results]) < TWO_TO_THE_31 {
        AccumulatorNeverDecreases(histograms, results);
      }
      numViolations := AddAssign(numViolations, ViolationCount(results));
      histograms := histograms + [results];
    }
  }

  /** With a conserving result kernel no trial can report more than
      `3 * testingThreads` violations, so 1000 trials never overflow the
      `int` accumulator and it holds the exact total. */
  lemma {:induction false} ConservedCampaignNoOverflow(hs: seq<Histogram>)
    requires |hs| <= Iterations as int
    requires forall k :: 0 <= k < |hs| ==> Conserved(hs[k])
    ensures TotalViolations(hs) <= |hs| * ReadResultsSize as int
    ensures ToI32(TotalViolations(hs)) as int == TotalViolations(hs)
  {
    if hs != [] {
      var rest := hs[1..];
      assert forall k :: 0 <= k < |rest| ==> rest[k] == hs[k + 1];
      ConservedCampaignNoOverflow(rest);
      assert Conserved(hs[0]);
      ViolationCountExact(hs[0]);
      assert TotalViolations(hs) == ViolationCount(hs[0]) as int + TotalViolations(rest);
      assert |rest| * ReadResultsSize as int + ReadResultsSize as int == |hs| * ReadResultsSize as int;
    }
    assert TotalViolations(hs) < TWO_TO_THE_31;
    ToI32Congruent(TotalViolations(hs));
  }

  /** `run`: set up the campaign, run the trials, and return the total
      reported at the end together with the histogram each trial read back
      (the values printed per iteration). */
  method Run() returns (numViolations: i32, reported: seq<Histogram>)
    ensures |reported| == Iterations as int
    ensures numViolations == ToI32(TotalViolations(reported))
    ensures (forall k :: 0 <= k < |reported| ==> Conserved(reported[k])) ==>
      numViolations as int == TotalViolations(reported)
  {
    var campaign := new Campaign();
    reported := [];
    var i: i32 := 0;
    while i < Iterations
      invariant 0 <= i <= Iterations
      invariant campaign.Valid() && fresh(campaign.Repr())
      invariant reported == campaign.histograms
      invariant |reported| == i as int
    {
      var results := campaign.RunTrial();
      reported := reported + [results];
      i := i + 1;
    }
    numViolations := campaign.numViolations;
    if forall k :: 0 <= k < |reported| ==> Conserved(reported[k]) {
      ConservedCampaignNoOverflow(reported);
    }
  }
}
