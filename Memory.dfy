/** Host-side operations on device buffers: zero-filling a buffer, writing
    the shuffled thread-to-location assignment, and reading cells back.
    A buffer is an array of `uint32_t` cells addressed by index. */
module Memory {
  import opened Ints

  /** Number of loop iterations `for (int i = 0; i < n; i++)` performs. */
  function Trips(n: i32): nat
  {
    if n < 0 then 0 else n as nat
  }

  /** The identity sequence `[0, 1, ..., n-1]`, grown one element at a time
      as `push_back` grows a vector. */
  function Identity(n: nat): (r: seq<u32>)
    requires n <= TWO_TO_THE_32
    ensures |r| == n
    ensures forall j :: 0 <= j < n ==> r[j] as int == j
  {
    if n == 0 then [] else Identity(n - 1) + [(n - 1) as u32]
  }

  /** `s` holds every value of `[0, n)` exactly once and nothing else. */
  ghost predicate IsRangePermutation(s: seq<u32>, n: nat)
  {
    && |s| == n
    && forall v: u32 :: multiset(s)[v] == (if (v as int) < n then 1 else 0)
  }

  /** Each value below `n` occurs once in the identity sequence, no other value occurs. */
  lemma {:induction false} IdentityCounts(n: nat)
    requires n <= TWO_TO_THE_32
    ensures forall v: u32 :: multiset(Identity(n))[v] == (if (v as int) < n then 1 else 0)
  {
    if n > 0 {
      IdentityCounts(n - 1);
      assert multiset(Identity(n)) == multiset(Identity(n - 1)) + multiset{(n - 1) as u32};
    }
  }

  /** Being a permutation of `[0, n)` is being a rearrangement of the identity sequence. */
  lemma RangePermutationIff(s: seq<u32>, n: nat)
    requires n <= TWO_TO_THE_32
    ensures IsRangePermutation(s, n) <==> multiset(s) == multiset(Identity(n))
  {
    IdentityCounts(n);
    if multiset(s) == multiset(Identity(n)) {
      assert |s| == |multiset(s)| == |multiset(Identity(n))| == n;
    }
  }

  /** A permutation of `[0, n)` has its entries in range and pairwise distinct. */
  lemma RangePermutationEntries(s: seq<u32>, n: nat)
    requires IsRangePermutation(s, n)
    ensures forall j :: 0 <= j < |s| ==> (s[j] as int) < n
    ensures forall j, k :: 0 <= j < k < |s| ==> s[j] != s[k]
  {
    forall j | 0 <= j < |s|
      ensures (s[j] as int) < n && multiset(s)[s[j]] == 1
    {
      assert s[j] in multiset(s);
    }
    forall j, k | 0 <= j < k < |s|
      ensures s[j] != s[k]
    {
      assert s == s[..k] + s[k..];
      assert s[..k][j] == s[j];
      assert s[k..][0] == s[k];
      assert s[j] in multiset(s[..k]);
      assert s[k] in multiset(s[k..]);
      assert s[j] == s[k] ==> multiset(s)[s[k]] >= 2;
    }
  }

  /** `clearMemory`: stores 0 into the first `size` cells of the buffer. */
  method ClearMemory(gpuMem: array<u32>, size: i32)
    requires size as int <= gpuMem.Length
    modifies gpuMem
    ensures forall j :: 0 <= j < size as int ==> gpuMem[j] == 0
    ensures forall j :: 0 <= j < gpuMem.Length && size as int <= j ==> gpuMem[j] == old(gpuMem[j])
  {
    var i: i32 := 0;
    while i < size
      invariant 0 <= i as int <= Trips(size)
      invariant forall j :: 0 <= j < i as int ==> gpuMem[j] == 0
      invariant forall j :: i as int <= j < gpuMem.Length ==> gpuMem[j] == old(gpuMem[j])
    {
      gpuMem[i] := 0;
      i := i + 1;
    }
  }

  /** `std::shuffle`: rearranges the sequence by swaps. The random engine is
      not modelled, so each swap partner is chosen nondeterministically, as in
      a Fisher-Yates pass from the last position down to position 1. */
  method Shuffle(s: seq<u32>) returns (r: seq<u32>)
    ensures |r| == |s|
    ensures multiset(r) == multiset(s)
  {
    r := s;
    var i := |r| - 1;
    while i > 0
      invariant |r| == |s|
      invariant i < |r|
      invariant multiset(r) == multiset(s)
    {
      var j :| 0 <= j <= i;
      r := r[i := r[j]][j := r[i]];
      i := i - 1;
    }
  }

  /** `setShuffledLocations`: builds `[0, testingThreads)`, shuffles it and
      stores it into the first `testingThreads` cells of the buffer. */
  method SetShuffledLocations(shuffledLocations: array<u32>, testingThreads: i32)
    requires testingThreads as int <= shuffledLocations.Length
    modifies shuffledLocations
    ensures IsRangePermutation(shuffledLocations[..Trips(testingThreads)], Trips(testingThreads))
    ensures forall j :: Trips(testingThreads) <= j < shuffledLocations.Length ==>
      shuffledLocations[j] == old(shuffledLocations[j])
  {
    var n := Trips(testingThreads);
    var locs: seq<u32> := [];
    var i: i32 := 0;
    while i < testingThreads
      invariant 0 <= i as int <= n
      invariant locs == Identity(i as nat)
    {
      locs := locs + [i as u32];
      i := i + 1;
    }
    locs := Shuffle(locs);
    RangePermutationIff(locs, n);
    i := 0;
    while i < testingThreads
      invariant 0 <= i as int <= n
      invariant forall j :: 0 <= j < i as int ==> shuffledLocations[j] == locs[j]
      invariant forall j :: i as int <= j < shuffledLocations.Length ==>
        shuffledLocations[j] == old(shuffledLocations[j])
    {
      shuffledLocations[i] := locs[i];
      i := i + 1;
    }
    assert shuffledLocations[..n] == locs;
  }

  /** Reads the first `count` cells of a buffer back to the host, one `load` at a time. */
  method LoadCells(gpuMem: array<u32>, count: i32) returns (cells: seq<u32>)
    requires count as int <= gpuMem.Length
    ensures cells == gpuMem[..Trips(count)]
  {
    cells := [];
    var i: i32 := 0;
    while i < count
      invariant 0 <= i as int <= Trips(count)
      invariant cells == gpuMem[..i]
    {
      cells := cells + [gpuMem[i]];
      i := i + 1;
    }
  }

  /** What an opaque kernel may do to a buffer bound to it: it leaves any
      values at all in it. `written` is what the device left behind. */
  method DeviceWrites(gpuMem: array<u32>) returns (written: seq<u32>)
    modifies gpuMem
    ensures |written| == gpuMem.Length
    ensures gpuMem[..] == written
  {
    assert |gpuMem[..]| == gpuMem.Length;
    written :| |written| == gpuMem.Length;
    forall j | 0 <= j < gpuMem.Length {
      gpuMem[j] := written[j];
    }
  }
}
