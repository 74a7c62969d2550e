/**
  Weighted round robin (`UpstreamGroup` of src/config.rs): cumulative weights
  computed at construction, weights recovered from them, and a selection that
  searches the cumulative weights of the live candidates for a counter position.
  */
module WeightedRoundRobin {
  import opened Bytes
  import opened Arithmetic

  const U32_MODULUS: int := 0x1_0000_0000

  /** A configured weight of zero counts as one. */
  function Effective(weight: u32): nat {
    Max(weight, 1)
  }

  /** The sum of the first n effective weights. */
  function SumTo(weights: seq<u32>, n: nat): nat
    requires n <= |weights|
  {
    if n == 0 then 0 else SumTo(weights, n - 1) + Effective(weights[n - 1])
  }

  lemma {:induction false} SumToMonotone(weights: seq<u32>, i: nat, j: nat)
    requires i <= j <= |weights|
    ensures SumTo(weights, i) + (j - i) <= SumTo(weights, j)
    decreases j
  {
    if i < j {
      SumToMonotone(weights, i, j - 1);
    }
  }

  // ---------------------------------------------------------------------------
  // Offsets and weights
  // ---------------------------------------------------------------------------

  method BuildOffsets(weights: seq<u32>) returns (offsets: seq<u32>, total: u32)
    ensures |offsets| == |weights| && total == Min(SumTo(weights, |weights|), U32_MAX)
    ensures forall i :: 0 <= i < |weights| ==> offsets[i] == Min(SumTo(weights, i + 1), U32_MAX)
  {
    offsets := [];
    var acc: u32 := 0;
    for i := 0 to |weights|
      invariant |offsets| == i && acc == Min(SumTo(weights, i), U32_MAX)
      invariant forall k :: 0 <= k < i ==> offsets[k] == Min(SumTo(weights, k + 1), U32_MAX)
    {
      acc := SaturatingAdd32(acc, Max(weights[i], 1));
      offsets := offsets + [acc];
    }
    total := acc;
  }

  /** The weight of a server from the offsets; one for an index out of range. */
  function WeightOf(offsets: seq<u32>, index: nat): (w: u32)
    ensures w >= 1
  {
    var prev := if index == 0 || index - 1 >= |offsets| then 0 else offsets[index - 1];
    var cur := if index < |offsets| then offsets[index] else (prev + 1) % U32_MODULUS;
    Max(Max(cur - prev, 0), 1)
  }

  /** A server that is not in the table counts as one. */
  lemma WeightOutOfRange(offsets: seq<u32>, index: nat)
    requires index >= |offsets|
    ensures WeightOf(offsets, index) == 1
  {
  }

  predicate AreOffsets(offsets: seq<u32>, weights: seq<u32>) {
    && |offsets| == |weights|
    && forall i :: 0 <= i < |weights| ==> offsets[i] == Min(SumTo(weights, i + 1), U32_MAX)
  }

  /** A weight is recovered exactly unless the sum up to it saturated and it is more than one. */
  lemma WeightRecoveredExactly(weights: seq<u32>, offsets: seq<u32>, i: nat)
    requires AreOffsets(offsets, weights) && i < |weights|
    ensures WeightOf(offsets, i) == Effective(weights[i]) <==>
            SumTo(weights, i + 1) <= U32_MAX || Effective(weights[i]) == 1
  {
    assert SumTo(weights, i + 1) == SumTo(weights, i) + Effective(weights[i]);
    if i > 0 {
      assert offsets[i - 1] == Min(SumTo(weights, i), U32_MAX);
    }
  }

  /** Two servers of weight 2^31: the second one's weight comes back one short. */
  lemma SecondWeightSaturates()
    ensures var weights: seq<u32> := [0x8000_0000, 0x8000_0000];
            forall offsets: seq<u32> ::
              AreOffsets(offsets, weights) ==> WeightOf(offsets, 1) == 0x7FFF_FFFF < Effective(weights[1])
  {
    var weights: seq<u32> := [0x8000_0000, 0x8000_0000];
    assert SumTo(weights, 1) == 0x8000_0000 && SumTo(weights, 2) == 0x1_0000_0000;
    forall offsets: seq<u32> | AreOffsets(offsets, weights) ensures WeightOf(offsets, 1) == 0x7FFF_FFFF {
      assert offsets[0] == 0x8000_0000 && offsets[1] == U32_MAX;
    }
  }

  // ---------------------------------------------------------------------------
  // Selection
  // ---------------------------------------------------------------------------

  /** The sum of the weights of the first n candidates. */
  function CandidateSum(offsets: seq<u32>, candidates: seq<nat>, n: nat): nat
    requires n <= |candidates|
  {
    if n == 0 then 0 else CandidateSum(offsets, candidates, n - 1) + WeightOf(offsets, candidates[n - 1])
  }

  lemma {:induction false} CandidateSumMonotone(offsets: seq<u32>, candidates: seq<nat>, i: nat, j: nat)
    requires i <= j <= |candidates|
    ensures CandidateSum(offsets, candidates, i) + (j - i) <= CandidateSum(offsets, candidates, j)
    decreases j
  {
    if i < j {
      CandidateSumMonotone(offsets, candidates, i, j - 1);
    }
  }

  /** The candidate whose share of the circle contains this position. */
  predicate InBucket(offsets: seq<u32>, candidates: seq<nat>, ci: nat, pos: nat)
    requires ci < |candidates|
  {
    CandidateSum(offsets, candidates, ci) <= pos < CandidateSum(offsets, candidates, ci + 1)
  }

  /** Buckets do not overlap. */
  lemma BucketUnique(offsets: seq<u32>, candidates: seq<nat>, a: nat, b: nat, pos: nat)
    requires a < |candidates| && b < |candidates|
    requires InBucket(offsets, candidates, a, pos) && InBucket(offsets, candidates, b, pos)
    ensures a == b
  {
    if a < b {
      CandidateSumMonotone(offsets, candidates, a + 1, b);
    } else if b < a {
      CandidateSumMonotone(offsets, candidates, b + 1, a);
    }
  }

  /** The standard library's search with a comparison that never answers Equal: a partition point. */
  method BinarySearch(cum: seq<u32>, pos: nat) returns (idx: nat)
    requires forall i, j :: 0 <= i < j < |cum| ==> cum[i] <= cum[j]
    ensures idx <= |cum|
    ensures forall i :: 0 <= i < idx ==> cum[i] <= pos
    ensures forall i :: idx <= i < |cum| ==> pos < cum[i]
  {
    var size := |cum|;
    if size == 0 {
      return 0;
    }
    var base := 0;
    while size > 1
      invariant 0 <= base && 1 <= size && base + size <= |cum|
      invariant forall i :: 0 <= i < base ==> cum[i] <= pos
      invariant base > 0 ==> cum[base] <= pos
      invariant forall i :: base + size <= i < |cum| ==> pos < cum[i]
    {
      var half := size / 2;
      var mid := base + half;
      if cum[mid] <= pos {
        base := mid;
      }
      size := size - half;
    }
    idx := if cum[base] <= pos then base + 1 else base;
  }

  /** The position on the circle for a counter value. */
  function Position(total: nat, counter: nat): nat
    requires total > 0
  {
    (counter % U32_MODULUS) % total
  }

  class Group {
    const offsets: seq<u32>
    var rrCounter: u64

    constructor (weights: seq<u32>)
      ensures rrCounter == 0 && AreOffsets(offsets, weights)
    {
      var o, _ := BuildOffsets(weights);
      offsets := o;
      rrCounter := 0;
    }

    /** The cumulative weights of the candidates, saturating. */
    method Cumulate(candidates: seq<nat>) returns (cum: seq<u32>, total: u32)
      ensures AreCumulative(cum, offsets, candidates)
      ensures total == Min(CandidateSum(offsets, candidates, |candidates|), U32_MAX)
    {
      cum := [];
      total := 0;
      for ci := 0 to |candidates|
        invariant |cum| == ci && total == Min(CandidateSum(offsets, candidates, ci), U32_MAX)
        invariant forall i :: 0 <= i < ci ==> cum[i] == Min(CandidateSum(offsets, candidates, i + 1), U32_MAX)
        invariant forall i :: 0 <= i < ci ==> cum[i] <= total
        invariant forall i, j :: 0 <= i < j < ci ==> cum[i] <= cum[j]
      {
        total := SaturatingAdd32(total, WeightOf(offsets, candidates[ci]));
        cum := cum + [total];
      }
    }

    /** Picks the candidate whose bucket holds the counter position, and advances the counter. */
    method SelectWeighted(candidates: seq<nat>) returns (r: Option<nat>)
      modifies this`rrCounter
      ensures r.None? <==> candidates == []
      ensures r.Some? ==> r.value < |candidates| && Selects(offsets, candidates, old(rrCounter), r.value)
      ensures rrCounter == if candidates == [] then old(rrCounter) else (old(rrCounter) + 1) % (U64_MAX + 1)
    {
      var cum, total := Cumulate(candidates);
      if total == 0 {
        CandidateSumMonotone(offsets, candidates, 0, |candidates|);
        return None; // no candidates
      }
      var pos := (rrCounter % U32_MODULUS) % total;
      rrCounter := (rrCounter + 1) % (U64_MAX + 1);
      var idx := BinarySearch(cum, pos);
      BucketFound(cum, offsets, candidates, idx, pos);
      return Some(idx);
    }

    /** The selection of number k, counted without wrap-around. */
    method SelectNext(candidates: seq<nat>, ghost k: nat) returns (pick: nat)
      requires candidates != [] && rrCounter == k % (U64_MAX + 1)
      modifies this`rrCounter
      ensures rrCounter == (k + 1) % (U64_MAX + 1)
      ensures pick < |candidates| && Selects(offsets, candidates, k, pick)
    {
      var r := SelectWeighted(candidates);
      pick := r.value;
      SelectsModulo(offsets, candidates, k, pick);
      CounterNext(k);
    }

    /** n selections in a row: each candidate comes up as often as `Picks` counts. */
    method SelectRepeatedly(candidates: seq<nat>, n: nat) returns (picks: seq<nat>)
      requires candidates != []
      modifies this`rrCounter
      ensures |picks| == n && rrCounter == (old(rrCounter) + n) % (U64_MAX + 1)
      ensures Counted(picks, offsets, candidates, old(rrCounter), n)
    {
      picks := [];
      ghost var start := rrCounter;
      for i := 0 to n
        invariant |picks| == i && rrCounter == (start + i) % (U64_MAX + 1)
        invariant Counted(picks, offsets, candidates, start, i)
      {
        var pick := SelectNext(candidates, start + i);
        CountedStep(picks, pick, offsets, candidates, start, i);
        picks := picks + [pick];
      }
    }

    /** One full circle of selections that does not cross a wrap gives each candidate its weight. */
    method SelectFullCircle(candidates: seq<nat>) returns (picks: seq<nat>)
      requires Fits(offsets, candidates)
      requires rrCounter % U32_MODULUS + Total(offsets, candidates) <= U32_MODULUS
      modifies this`rrCounter
      ensures forall ci :: 0 <= ci < |candidates| ==> multiset(picks)[ci] == WeightOf(offsets, candidates[ci])
    {
      ghost var start := rrCounter;
      var _, total := Cumulate(candidates);
      picks := SelectRepeatedly(candidates, total);
      forall ci | 0 <= ci < |candidates| ensures multiset(picks)[ci] == WeightOf(offsets, candidates[ci]) {
        FairWithoutWrap(offsets, candidates, ci, start);
      }
    }
  }

  /** Among the picks each candidate stands as often as the n selections from `start` on pick it. */
  ghost predicate Counted(picks: seq<nat>, offsets: seq<u32>, candidates: seq<nat>, start: nat, n: nat) {
    forall ci :: 0 <= ci < |candidates| ==> multiset(picks)[ci] == Picks(offsets, candidates, ci, start, n)
  }

  lemma {:induction false} CountedStep(
    picks: seq<nat>, pick: nat, offsets: seq<u32>, candidates: seq<nat>, start: nat, n: nat)
    requires Counted(picks, offsets, candidates, start, n)
    requires pick < |candidates| && Selects(offsets, candidates, start + n, pick)
    ensures Counted(picks + [pick], offsets, candidates, start, n + 1)
  {
    forall ci | 0 <= ci < |candidates|
      ensures multiset(picks + [pick])[ci] == Picks(offsets, candidates, ci, start, n + 1)
    {
      SelectsOne(offsets, candidates, start + n, ci, pick);
      assert multiset(picks + [pick]) == multiset(picks) + multiset{pick};
    }
  }

  /** Only the low 32 bits of the counter matter. */
  lemma SelectsModulo(offsets: seq<u32>, candidates: seq<nat>, counter: nat, ci: nat)
    requires ci < |candidates|
    ensures Selects(offsets, candidates, counter % (U64_MAX + 1), ci) == Selects(offsets, candidates, counter, ci)
  {
    assert counter % (U64_MAX + 1) % U32_MODULUS == counter % U32_MODULUS;
  }

  lemma CounterNext(k: nat)
    ensures (k % (U64_MAX + 1) + 1) % (U64_MAX + 1) == (k + 1) % (U64_MAX + 1)
  {
  }

  lemma SelectsOne(offsets: seq<u32>, candidates: seq<nat>, counter: nat, a: nat, b: nat)
    requires a < |candidates| && b < |candidates| && Selects(offsets, candidates, counter, b)
    ensures Selects(offsets, candidates, counter, a) <==> a == b
  {
    if Selects(offsets, candidates, counter, a) {
      BucketUnique(offsets, candidates, a, b, Position(Total(offsets, candidates), counter));
    }
  }

  /** The circle: the candidates' weights, saturating. */
  function Total(offsets: seq<u32>, candidates: seq<nat>): u32 {
    Min(CandidateSum(offsets, candidates, |candidates|), U32_MAX)
  }

  /** The candidate that the counter value selects. */
  predicate Selects(offsets: seq<u32>, candidates: seq<nat>, counter: nat, ci: nat)
    requires ci < |candidates|
  {
    && Total(offsets, candidates) > 0
    && InBucket(offsets, candidates, ci, Position(Total(offsets, candidates), counter))
  }

  predicate AreCumulative(cum: seq<u32>, offsets: seq<u32>, candidates: seq<nat>) {
    && |cum| == |candidates|
    && (forall i :: 0 <= i < |cum| ==> cum[i] == Min(CandidateSum(offsets, candidates, i + 1), U32_MAX))
    && forall i, j :: 0 <= i < j < |cum| ==> cum[i] <= cum[j]
  }

  /** A partition point of the cumulative weights is the bucket of the position. */
  lemma BucketFound(cum: seq<u32>, offsets: seq<u32>, candidates: seq<nat>, idx: nat, pos: nat)
    requires AreCumulative(cum, offsets, candidates)
    requires pos < Total(offsets, candidates)
    requires idx <= |cum|
    requires forall i :: 0 <= i < idx ==> cum[i] <= pos
    requires forall i :: idx <= i < |cum| ==> pos < cum[i]
    ensures idx < |candidates| && InBucket(offsets, candidates, idx, pos)
  {
    assert CandidateSum(offsets, candidates, 0) == 0;
    if idx > 0 {
      assert cum[idx - 1] == Min(CandidateSum(offsets, candidates, idx), U32_MAX) <= pos;
    }
    assert idx < |cum|;
    assert pos < cum[idx] == Min(CandidateSum(offsets, candidates, idx + 1), U32_MAX);
  }

  // ---------------------------------------------------------------------------
  // Fairness
  // ---------------------------------------------------------------------------

  /** How many of n consecutive numbers from `start` on have a residue in [lo, hi). */
  function Residues(t: nat, lo: nat, hi: nat, start: nat, n: nat): nat
    requires t > 0
  {
    if n == 0 then 0
    else Residues(t, lo, hi, start, n - 1) + if lo <= (start + n - 1) % t < hi then 1 else 0
  }

  /** The same count, taking off the first number instead of the last. */
  lemma {:induction false} ResiduesFromFront(t: nat, lo: nat, hi: nat, start: nat, n: nat)
    requires t > 0
    ensures Residues(t, lo, hi, start, n + 1) ==
            (if lo <= start % t < hi then 1 else 0) + Residues(t, lo, hi, start + 1, n)
    decreases n
  {
    if n > 0 {
      ResiduesFromFront(t, lo, hi, start, n - 1);
    }
  }

  lemma ResiduesLast(t: nat, lo: nat, hi: nat, start: nat, n: nat)
    requires t > 0
    ensures Residues(t, lo, hi, start, n + 1) ==
            Residues(t, lo, hi, start, n) + if lo <= (start + n) % t < hi then 1 else 0
  {
    assert start + (n + 1) - 1 == start + n;
  }

  lemma {:induction false} ResiduesFromZero(t: nat, lo: nat, hi: nat, n: nat)
    requires n <= t && lo <= hi && t > 0
    ensures Residues(t, lo, hi, 0, n) == Max(0, Min(hi, n) - lo)
    decreases n
  {
    if n > 0 {
      ResiduesFromZero(t, lo, hi, n - 1);
      DivModUnique(n - 1, t, 0, n - 1);
    }
  }

  /** Any t consecutive numbers meet each residue once. */
  lemma {:induction false} ResiduesFullCircle(t: nat, lo: nat, hi: nat, start: nat)
    requires t > 0 && lo <= hi <= t
    ensures Residues(t, lo, hi, start, t) == hi - lo
    decreases start
  {
    if start == 0 {
      ResiduesFromZero(t, lo, hi, t);
    } else {
      var p := start - 1;
      ResiduesFullCircle(t, lo, hi, p);
      ResiduesFromFront(t, lo, hi, p, t);
      ModPlus(p, t);
      ResiduesLast(t, lo, hi, p, t);
    }
  }

  /** How many of n consecutive selections from counter value `start` on pick candidate ci. */
  function Picks(offsets: seq<u32>, candidates: seq<nat>, ci: nat, start: nat, n: nat): nat
    requires ci < |candidates|
  {
    if n == 0 then 0
    else Picks(offsets, candidates, ci, start, n - 1)
         + if Selects(offsets, candidates, start + n - 1, ci) then 1 else 0
  }

  lemma {:induction false} PicksSplit(offsets: seq<u32>, candidates: seq<nat>, ci: nat, start: nat, n: nat, m: nat)
    requires ci < |candidates|
    ensures Picks(offsets, candidates, ci, start, n + m) ==
            Picks(offsets, candidates, ci, start, n) + Picks(offsets, candidates, ci, start + n, m)
    decreases m
  {
    if m > 0 {
      PicksSplit(offsets, candidates, ci, start, n, m - 1);
      assert start + (n + m) - 1 == start + n + m - 1;
    }
  }

  /** Counting picks is counting residues as long as the 32-bit counter does not wrap. */
  lemma {:induction false} PicksAreResidues(
    offsets: seq<u32>, candidates: seq<nat>, ci: nat, start: nat, base: nat, n: nat)
    requires ci < |candidates| && Total(offsets, candidates) > 0
    requires base == start % U32_MODULUS && base + n <= U32_MODULUS
    ensures Picks(offsets, candidates, ci, start, n) ==
            Residues(Total(offsets, candidates), CandidateSum(offsets, candidates, ci),
                     CandidateSum(offsets, candidates, ci + 1), base, n)
    decreases n
  {
    if n > 0 {
      PicksAreResidues(offsets, candidates, ci, start, base, n - 1);
      CounterAdvances(start, n - 1);
      SelectsByResidue(offsets, candidates, ci, start + n - 1, base + n - 1);
    }
  }

  lemma CounterAdvances(start: nat, n: nat)
    requires start % U32_MODULUS + n < U32_MODULUS
    ensures (start + n) % U32_MODULUS == start % U32_MODULUS + n
  {
  }

  lemma SelectsByResidue(offsets: seq<u32>, candidates: seq<nat>, ci: nat, counter: nat, low: nat)
    requires ci < |candidates| && Total(offsets, candidates) > 0
    requires low == counter % U32_MODULUS
    ensures Selects(offsets, candidates, counter, ci) <==>
            CandidateSum(offsets, candidates, ci) <= low % Total(offsets, candidates)
            < CandidateSum(offsets, candidates, ci + 1)
  {
  }

  /** The candidates' weights fit the 32-bit circle. */
  predicate Fits(offsets: seq<u32>, candidates: seq<nat>) {
    candidates != [] && CandidateSum(offsets, candidates, |candidates|) <= U32_MAX
  }

  lemma ShareFits(offsets: seq<u32>, candidates: seq<nat>, ci: nat)
    requires ci < |candidates| && Fits(offsets, candidates)
    ensures Total(offsets, candidates) == CandidateSum(offsets, candidates, |candidates|) > 0
    ensures CandidateSum(offsets, candidates, ci + 1) <= Total(offsets, candidates)
    ensures CandidateSum(offsets, candidates, ci + 1) - CandidateSum(offsets, candidates, ci) ==
            WeightOf(offsets, candidates[ci])
  {
    CandidateSumMonotone(offsets, candidates, ci + 1, |candidates|);
  }

  /** A window of one full circle of selections is fair to ci. */
  predicate FairWindow(offsets: seq<u32>, candidates: seq<nat>, ci: nat, start: nat)
    requires ci < |candidates|
  {
    Picks(offsets, candidates, ci, start, Total(offsets, candidates)) == WeightOf(offsets, candidates[ci])
  }

  /** Every full circle that does not cross a wrap of the 32-bit counter picks each candidate weight times. */
  lemma FairWithoutWrap(offsets: seq<u32>, candidates: seq<nat>, ci: nat, start: nat)
    requires ci < |candidates| && Fits(offsets, candidates)
    requires start % U32_MODULUS + Total(offsets, candidates) <= U32_MODULUS
    ensures FairWindow(offsets, candidates, ci, start)
  {
    var t := Total(offsets, candidates);
    ShareFits(offsets, candidates, ci);
    PicksAreResidues(offsets, candidates, ci, start, start % U32_MODULUS, t);
    ResiduesFullCircle(t, CandidateSum(offsets, candidates, ci), CandidateSum(offsets, candidates, ci + 1),
                       start % U32_MODULUS);
  }

  /** In terms of the configuration: within 32 bits, each candidate gets its configured share. */
  lemma FairToConfiguration(weights: seq<u32>, offsets: seq<u32>, candidates: seq<nat>, ci: nat, start: nat)
    requires AreOffsets(offsets, weights) && SumTo(weights, |weights|) <= U32_MAX
    requires ci < |candidates| && candidates[ci] < |weights| && Fits(offsets, candidates)
    requires start % U32_MODULUS + Total(offsets, candidates) <= U32_MODULUS
    ensures var w := weights[candidates[ci]];
            Picks(offsets, candidates, ci, start, Total(offsets, candidates)) == if w == 0 then 1 else w
  {
    FairWithoutWrap(offsets, candidates, ci, start);
    SumToMonotone(weights, candidates[ci] + 1, |weights|);
    WeightRecoveredExactly(weights, offsets, candidates[ci]);
  }

  // Windows that cross a wrap of the counter

  /** Reducing twice is reducing once when the second modulus divides the first. */
  lemma ModOfMod(k: nat, t: nat)
    requires t > 0 && U32_MODULUS % t == 0
    ensures (k % U32_MODULUS) % t == k % t
  {
    var c, q, x := U32_MODULUS / t, k / U32_MODULUS, k % U32_MODULUS;
    assert U32_MODULUS == t * c;
    assert k == t * c * q + x == t * (c * q) + x;
    assert x == t * (x / t) + x % t;
    assert k == t * (c * q + x / t) + x % t;
    DivModUnique(k, t, c * q + x / t, x % t);
  }

  lemma {:induction false} PicksWhenDividing(offsets: seq<u32>, candidates: seq<nat>, ci: nat, start: nat, n: nat)
    requires ci < |candidates| && Total(offsets, candidates) > 0
    requires U32_MODULUS % Total(offsets, candidates) == 0
    ensures Picks(offsets, candidates, ci, start, n) ==
            Residues(Total(offsets, candidates), CandidateSum(offsets, candidates, ci),
                     CandidateSum(offsets, candidates, ci + 1), start, n)
    decreases n
  {
    if n > 0 {
      PicksWhenDividing(offsets, candidates, ci, start, n - 1);
      ModOfMod(start + n - 1, Total(offsets, candidates));
    }
  }

  lemma {:induction false} PicksOfOnly(offsets: seq<u32>, candidates: seq<nat>, start: nat, n: nat)
    requires |candidates| == 1 && Fits(offsets, candidates)
    ensures Picks(offsets, candidates, 0, start, n) == n
    decreases n
  {
    ShareFits(offsets, candidates, 0);
    if n > 0 {
      PicksOfOnly(offsets, candidates, start, n - 1);
      assert Position(Total(offsets, candidates), start + n - 1) < Total(offsets, candidates);
    }
  }

  lemma {:induction false} ResiduesFromMultiple(t: nat, lo: nat, hi: nat, start: nat, c: nat, n: nat)
    requires t > 0 && start == t * c && n <= t
    ensures Residues(t, lo, hi, start, n) == Residues(t, lo, hi, 0, n)
    decreases n
  {
    if n > 0 {
      ResiduesFromMultiple(t, lo, hi, start, c, n - 1);
      DivModUnique(start + n - 1, t, c, n - 1);
      DivModUnique(n - 1, t, 0, n - 1);
    }
  }

  /** Picks of the last candidate among the n selections from a counter value that is a multiple of the total. */
  lemma PicksFromMultiple(offsets: seq<u32>, candidates: seq<nat>, start: nat, base: nat, c: nat, n: nat)
    requires Fits(offsets, candidates) && n <= Total(offsets, candidates)
    requires base == start % U32_MODULUS && base + n <= U32_MODULUS && base == Total(offsets, candidates) * c
    ensures Picks(offsets, candidates, |candidates| - 1, start, n) ==
            Max(0, n - CandidateSum(offsets, candidates, |candidates| - 1))
  {
    var t, last := Total(offsets, candidates), |candidates| - 1;
    var lo := CandidateSum(offsets, candidates, last);
    ShareFits(offsets, candidates, last);
    PicksAreResidues(offsets, candidates, last, start, base, n);
    ResiduesFromMultiple(t, lo, t, base, c, n);
    ResiduesFromZero(t, lo, t, n);
  }

  lemma MultipleBelow(t: nat)
    requires t > 0
    ensures U32_MODULUS - U32_MODULUS % t == t * (U32_MODULUS / t)
  {
  }

  /** The window that starts 2^32 mod total before a wrap repeats positions, and shortchanges the last candidate. */
  lemma UnfairAcrossWrap(offsets: seq<u32>, candidates: seq<nat>)
    requires |candidates| >= 2 && Fits(offsets, candidates)
    requires Total(offsets, candidates) > 0 && U32_MODULUS % Total(offsets, candidates) != 0
    ensures !FairWindow(offsets, candidates, |candidates| - 1, U32_MODULUS - U32_MODULUS % Total(offsets, candidates))
  {
    var t, last := Total(offsets, candidates), |candidates| - 1;
    var r := U32_MODULUS % t;
    var start := U32_MODULUS - r;
    ShareFits(offsets, candidates, last);
    CandidateSumMonotone(offsets, candidates, 0, last);
    MultipleBelow(t);
    PicksSplit(offsets, candidates, last, start, r, t - r);
    PicksFromMultiple(offsets, candidates, start, start, U32_MODULUS / t, r);
    PicksFromMultiple(offsets, candidates, U32_MODULUS, 0, 0, t - r);
  }

  /** When the weights do not fit the circle, the circle that starts at zero shortchanges the last candidate. */
  lemma UnfairWhenSaturated(offsets: seq<u32>, candidates: seq<nat>)
    requires CandidateSum(offsets, candidates, |candidates|) > U32_MAX
    ensures candidates != [] && !FairWindow(offsets, candidates, |candidates| - 1, 0)
  {
    var last := |candidates| - 1;
    var lo, hi := CandidateSum(offsets, candidates, last), CandidateSum(offsets, candidates, last + 1);
    PicksAreResidues(offsets, candidates, last, 0, 0, U32_MAX);
    ResiduesFromZero(U32_MAX, lo, hi, U32_MAX);
  }

  /** Every full circle of selections is fair to every candidate, wherever it starts. */
  ghost predicate AlwaysFair(offsets: seq<u32>, candidates: seq<nat>) {
    forall ci: nat, start: nat :: ci < |candidates| ==> FairWindow(offsets, candidates, ci, start)
  }

  /**
    For any candidates: selection is always fair if and only if the weights fit
    the 32-bit circle and their total divides 2^32, or there is at most one
    candidate.
    */
  lemma FairExactly(offsets: seq<u32>, candidates: seq<nat>)
    ensures AlwaysFair(offsets, candidates) <==>
            || |candidates| <= 1
            || (Fits(offsets, candidates) && U32_MODULUS % CandidateSum(offsets, candidates, |candidates|) == 0)
  {
    if |candidates| <= 1 {
      OneIsFair(offsets, candidates);
    } else if !Fits(offsets, candidates) {
      UnfairWhenSaturated(offsets, candidates);
    } else {
      ShareFits(offsets, candidates, 0);
      if U32_MODULUS % Total(offsets, candidates) == 0 {
        DividingIsFair(offsets, candidates);
      } else {
        UnfairAcrossWrap(offsets, candidates);
      }
    }
  }

  lemma OneIsFair(offsets: seq<u32>, candidates: seq<nat>)
    requires |candidates| <= 1
    ensures AlwaysFair(offsets, candidates)
  {
    forall ci: nat, start: nat | ci < |candidates| ensures FairWindow(offsets, candidates, ci, start) {
      assert CandidateSum(offsets, candidates, 1) == WeightOf(offsets, candidates[0]);
      PicksOfOnly(offsets, candidates, start, Total(offsets, candidates));
    }
  }

  lemma DividingIsFair(offsets: seq<u32>, candidates: seq<nat>)
    requires Fits(offsets, candidates) && Total(offsets, candidates) > 0
    requires U32_MODULUS % Total(offsets, candidates) == 0
    ensures AlwaysFair(offsets, candidates)
  {
    var t := Total(offsets, candidates);
    forall ci: nat, start: nat | ci < |candidates| ensures FairWindow(offsets, candidates, ci, start) {
      ShareFits(offsets, candidates, ci);
      PicksWhenDividing(offsets, candidates, ci, start, t);
      ResiduesFullCircle(t, CandidateSum(offsets, candidates, ci), CandidateSum(offsets, candidates, ci + 1), start);
    }
  }
}
