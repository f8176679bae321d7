/** The nine-cell outcome histogram the result kernel fills in, what each
    cell counts, and the violation tally the host derives from it. */
module Results {
  import opened Ints

  /** The `testResults` buffer as read back: exactly nine cells. */
  type Histogram = s: seq<u32> | |s| == 9 witness [0, 0, 0, 0, 0, 0, 0, 0, 0]

  /** What one probing thread observed: the flag and its two reads. */
  datatype Observation = Observation(flag: int, r0: int, r1: int)

  /** The cell of the histogram that counts an observation, following the
      labels the host prints for cells 0..8; anything else is "Other/error". */
  function Bucket(o: Observation): (b: nat)
    ensures b < 9
    ensures b < 8 <==> Expected(o)
  {
    match o
    case Observation(1, 2, 2) => 0
    case Observation(0, 2, 2) => 1
    case Observation(1, 1, 1) => 2
    case Observation(0, 1, 1) => 3
    case Observation(0, 2, 1) => 4
    case Observation(0, 1, 2) => 5
    case Observation(1, 2, 1) => 6
    case Observation(1, 1, 2) => 7
    case _ => 8
  }

  /** An observation the test is built to produce: flag 0 or 1, reads 1 or 2. */
  predicate Expected(o: Observation)
  {
    o.flag in {0, 1} && o.r0 in {1, 2} && o.r1 in {1, 2}
  }

  /** A violation: the flag was seen set yet the two reads disagree (the
      flag did not bind them), or the observation is not one the test can
      produce. */
  predicate IsViolation(o: Observation)
  {
    !Expected(o) || (o.flag == 1 && o.r0 != o.r1)
  }

  /** The eight expected observations land in eight distinct cells. */
  lemma BucketsExclusive(o: Observation, o': Observation)
    ensures Expected(o) && Expected(o') && o != o' ==> Bucket(o) != Bucket(o')
  {
  }

  /** Cells 6, 7 and 8 are exactly the cells whose observations are violations. */
  lemma ViolationCells(o: Observation)
    ensures IsViolation(o) <==> Bucket(o) >= 6
  {
  }

  /** One observation of each cell, so that a cell can be asked whether it counts violations. */
  function Representative(b: nat): (o: Observation)
    requires b < 9
    ensures Bucket(o) == b
  {
    [Observation(1, 2, 2), Observation(0, 2, 2), Observation(1, 1, 1),
     Observation(0, 1, 1), Observation(0, 2, 1), Observation(0, 1, 2),
     Observation(1, 2, 1), Observation(1, 1, 2), Observation(0, 0, 0)][b]
  }

  /** Sum of the cells below `k` that count violations, as exact integers. */
  function ViolatingCells(h: Histogram, k: nat): int
    requires k <= 9
  {
    if k == 0 then 0
    else ViolatingCells(h, k - 1) + (if IsViolation(Representative(k - 1)) then h[k - 1] as int else 0)
  }

  /** Cells 0..5 count no violations. */
  lemma {:induction false} NoViolatingCellsBelowSix(h: Histogram, k: nat)
    requires k <= 6
    ensures ViolatingCells(h, k) == 0
  {
    if k > 0 {
      NoViolatingCellsBelowSix(h, k - 1);
      ViolationCells(Representative(k - 1));
    }
  }

  /** `results[6] + results[7] + results[8]`, added as `uint32_t`: the sum
      of the three violation cells, which can only lose multiples of 2^32. */
  function ViolationCount(h: Histogram): (c: u32)
    ensures h[6] as int + h[7] as int + h[8] as int < TWO_TO_THE_32 ==>
      c as int == h[6] as int + h[7] as int + h[8] as int
    ensures c as int <= h[6] as int + h[7] as int + h[8] as int
    ensures (c as int - (h[6] as int + h[7] as int + h[8] as int)) % TWO_TO_THE_32 == 0
  {
    AddU32(AddU32(h[6], h[7]), h[8])
  }

  /** The host's sum picks exactly the violation cells, modulo 2^32. */
  lemma ViolationCountIsViolatingCells(h: Histogram)
    ensures ViolationCount(h) as int == ViolatingCells(h, 9) % TWO_TO_THE_32
    ensures ViolatingCells(h, 9) == h[6] as int + h[7] as int + h[8] as int
  {
    forall b | 0 <= b < 9
      ensures IsViolation(Representative(b)) <==> b >= 6
    {
      ViolationCells(Representative(b));
    }
    NoViolatingCellsBelowSix(h, 6);
    assert ViolatingCells(h, 9) == h[6] as int + h[7] as int + h[8] as int by {
      assert ViolatingCells(h, 7) == h[6] as int;
      assert ViolatingCells(h, 8) == h[6] as int + h[7] as int;
    }
  }

  /** Sum of all nine cells. */
  function CellTotal(h: Histogram): int
  {
    h[0] as int + h[1] as int + h[2] as int + h[3] as int + h[4] as int
      + h[5] as int + h[6] as int + h[7] as int + h[8] as int
  }

  /** Unless the three violation cells overflow 32 bits, the count is their
      exact sum; in particular it is at most the histogram's total. */
  lemma ViolationCountExact(h: Histogram)
    requires h[6] as int + h[7] as int + h[8] as int < TWO_TO_THE_32
    ensures ViolationCount(h) as int == h[6] as int + h[7] as int + h[8] as int
    ensures ViolationCount(h) as int <= CellTotal(h)
  {
  }

  /** Exact sum of the per-trial violation counts of a campaign so far; it is
      zero exactly when no trial reported a violation. */
  function TotalViolations(hs: seq<Histogram>): (t: nat)
    ensures t == 0 <==> forall k :: 0 <= k < |hs| ==> ViolationCount(hs[k]) == 0
  {
    if hs == [] then 0
    else
      assert forall k :: 1 <= k < |hs| ==> hs[1..][k - 1] == hs[k];
      ViolationCount(hs[0]) as nat + TotalViolations(hs[1..])
  }

  /** One more trial adds exactly its count to the total: nothing lost,
      nothing counted twice. */
  lemma {:induction false} TotalViolationsAppend(hs: seq<Histogram>, h: Histogram)
    ensures TotalViolations(hs + [h]) == TotalViolations(hs) + ViolationCount(h) as int
  {
    if hs != [] {
      assert (hs + [h])[1..] == hs[1..] + [h];
      TotalViolationsAppend(hs[1..], h);
    }
  }

  /** The accumulator after `k` trials is the wrapped total of their counts;
      one more `numViolations += count` keeps it so. */
  lemma AccumulatorStep(hs: seq<Histogram>, h: Histogram)
    ensures AddAssign(ToI32(TotalViolations(hs)), ViolationCount(h)) == ToI32(TotalViolations(hs + [h]))
  {
    TotalViolationsAppend(hs, h);
    AddAssignWraps(TotalViolations(hs), ViolationCount(h));
  }

  /** While the total stays below 2^31 the accumulator equals it and never decreases. */
  lemma AccumulatorNeverDecreases(hs: seq<Histogram>, h: Histogram)
    requires TotalViolations(hs + [h]) < TWO_TO_THE_31
    ensures ToI32(TotalViolations(hs + [h])) as int == TotalViolations(hs + [h])
    ensures ToI32(TotalViolations(hs)) as int == TotalViolations(hs)
    ensures ToI32(TotalViolations(hs)) <= ToI32(TotalViolations(hs + [h]))
  {
    TotalViolationsAppend(hs, h);
    ToI32Congruent(TotalViolations(hs));
    ToI32Congruent(TotalViolations(hs + [h]));
  }
}
