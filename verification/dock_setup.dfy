/** Set-up and bookkeeping steps of the docking driver around the search: the
    resolution ladder, the choice of a fresh output file name, the attenuation of
    attractive steric voxels on coarse levels, and the counts of results handed
    to packing and to Rosetta re-scoring. */
module DockSetup {
  import opened Outcomes
  import Decimal
  import HSearch

  // ---------------------------------------------------------------------------
  // Resolution ladder

  function Pow2(i: nat): (p: real)
    ensures p >= 1.0
  {
    if i == 0 then 1.0 else 2.0 * Pow2(i - 1)
  }

  lemma HalfStep(x: real, p: real)
    requires p > 0.0
    ensures x / p / 2.0 == x / (2.0 * p)
  {
  }

  /** One resolution per RIF file (at least one), starting at `resl0` and halving
      from each level to the next. */
  method ResolutionLadder(resl0: real, nFiles: nat) returns (resls: seq<real>)
    ensures |resls| == if nFiles == 0 then 1 else nFiles
    ensures forall i | 0 <= i < |resls| :: resls[i] == resl0 / Pow2(i)
  {
    resls := [resl0];
    var i := 1;
    while i < nFiles
      invariant 1 <= i && |resls| == i
      invariant i <= if nFiles == 0 then 1 else nFiles
      invariant forall k | 0 <= k < i :: resls[k] == resl0 / Pow2(k)
    {
      var half := resls[i - 1] / 2.0;
      HalfStep(resl0, Pow2(i - 1));
      assert half == resl0 / Pow2(i);
      resls := resls + [half];
      i := i + 1;
    }
  }

  /** With a positive start, the ladder gets strictly finer from level to level. */
  lemma {:induction false} LadderFiner(resl0: real, i: nat, j: nat)
    requires resl0 > 0.0 && i < j
    ensures resl0 / Pow2(j) < resl0 / Pow2(i)
    decreases j - i
  {
    var pi, pj := Pow2(i), Pow2(j);
    if j == i + 1 {
      HalfStep(resl0, pi);
      assert resl0 / pj == resl0 / pi / 2.0;
    } else {
      LadderFiner(resl0, i, j - 1);
      LadderFiner(resl0, j - 1, j);
    }
  }

  // ---------------------------------------------------------------------------
  // Output file name

  /** The `k`-th name tried for the score file: the requested name first, then
      the requested name with `.2`, `.3`, ... appended. */
  function Candidate(orig: string, k: nat): string {
    if k < 2 then orig else orig + "." + Decimal.Show(k)
  }

  lemma CandidateInjective(orig: string, j: nat, k: nat)
    requires 1 <= j && 1 <= k
    ensures Candidate(orig, j) == Candidate(orig, k) ==> j == k
  {
    if Candidate(orig, j) == Candidate(orig, k) {
      if j >= 2 && k >= 2 {
        var n := |orig| + 1;
        assert Candidate(orig, j)[n..] == Decimal.Show(j);
        assert Candidate(orig, k)[n..] == Decimal.Show(k);
        Decimal.ShowInjective(j, k);
      }
    }
  }

  /** Picks the first candidate name not among the `existing` files; `k` is its
      position in the candidate order, so `k == 1` means no rename happened. */
  method FreshOutputName(orig: string, existing: set<string>) returns (name: string, k: nat)
    ensures 1 <= k && name == Candidate(orig, k)
    ensures name !in existing
    ensures forall j | 1 <= j < k :: Candidate(orig, j) in existing
    ensures k == 1 <==> orig !in existing
  {
    name := orig;
    var i := 2;
    ghost var tried: set<string> := {};
    while name in existing
      invariant 2 <= i && name == Candidate(orig, i - 1)
      invariant tried == set j | 1 <= j < i - 1 :: Candidate(orig, j)
      invariant tried <= existing && |tried| == i - 2
      decreases |existing| - |tried|
    {
      NotYetTried(orig, i - 1);
      var next := tried + {name};
      assert next == set j | 1 <= j < i :: Candidate(orig, j);
      SubsetCard(next, existing);
      tried := next;
      name := orig + "." + Decimal.Show(i);
      i := i + 1;
    }
    k := i - 1;
  }

  /** The `k`-th candidate is none of the ones tried before it. */
  lemma NotYetTried(orig: string, k: nat)
    requires k >= 1
    ensures Candidate(orig, k) !in set j | 1 <= j < k :: Candidate(orig, j)
  {
    forall j | 1 <= j < k ensures Candidate(orig, j) != Candidate(orig, k) {
      CandidateInjective(orig, j, k);
    }
  }

  lemma SubsetCard<T>(a: set<T>, b: set<T>)
    requires a <= b
    ensures |a| <= |b|
  {
    assert b == a + (b - a);
  }

  // ---------------------------------------------------------------------------
  // Attenuation of attractive steric voxels on coarse levels

  /** A voxel grid of the bounding steric field; `None` is a missing grid. */
  type Grid = Option<seq<real>>

  /** The attenuation loop stops at the first resolution whose correction
      `1/resl` is at least one; a zero resolution gives an infinite correction. */
  predicate StopsAttenuation(resl: real) {
    resl == 0.0 || 1.0 / resl >= 1.0
  }

  /** The number of leading levels the loop attenuates. */
  function AttenuatedLevels(resls: seq<real>): (k: nat)
    ensures k <= |resls|
    ensures forall i | 0 <= i < k :: !StopsAttenuation(resls[i])
    ensures k < |resls| ==> StopsAttenuation(resls[k])
    decreases |resls|
  {
    if resls == [] || StopsAttenuation(resls[0]) then 0
    else 1 + AttenuatedLevels(resls[1..])
  }

  /** Scales every negative (attractive) voxel by `c`, leaving the rest as it is. */
  function Attenuate(c: real, g: Grid): (r: Grid)
    ensures r.Some? <==> g.Some?
    ensures r.Some? ==> |r.value| == |g.value|
  {
    match g
    case None => None
    case Some(data) => Some(seq(|data|, k requires 0 <= k < |data| =>
                                   if data[k] < 0.0 then data[k] * c else data[k]))
  }

  /** With `downscale` set, attenuates the attractive voxels of each level's
      grids by `1/resl` while that correction is below one; without it the
      grids are left as they are. Either way a grid count that does not match
      the ladder is an error. */
  method AttenuateByHierarchy(resls: seq<real>, bounding: seq<seq<Grid>>, downscale: bool)
    returns (r: Result<seq<seq<Grid>>, string>)
    ensures r.Err? <==> |bounding| != |resls|
    ensures !downscale && r.Ok? ==> r.value == bounding
    ensures r.Ok? ==> |r.value| == |bounding|
    ensures r.Ok? ==> forall i | 0 <= i < |bounding| :: |r.value[i]| == |bounding[i]|
    ensures r.Ok? ==> forall i, g | 0 <= i < |bounding| && 0 <= g < |bounding[i]| ::
      && (r.value[i][g].Some? <==> bounding[i][g].Some?)
      && (bounding[i][g].Some? ==> |r.value[i][g].value| == |bounding[i][g].value|)
    ensures r.Ok? ==> forall i, g, k |
        0 <= i < |bounding| && 0 <= g < |bounding[i]| && bounding[i][g].Some? &&
        0 <= k < |bounding[i][g].value| ::
      var v := bounding[i][g].value[k];
      r.value[i][g].value[k] ==
        if downscale && i < AttenuatedLevels(resls) && v < 0.0 then v * (1.0 / resls[i]) else v
  {
    if |bounding| != |resls| {
      return Err("target bounding grids do not match the resolution ladder");
    }
    if !downscale {
      return Ok(bounding);
    }
    var out := bounding;
    var i := 0;
    while i < |resls|
      invariant 0 <= i <= AttenuatedLevels(resls)
      invariant |out| == |bounding|
      invariant forall l | 0 <= l < |bounding| :: |out[l]| == |bounding[l]|
      invariant forall l | i <= l < |bounding| :: out[l] == bounding[l]
      invariant forall l, g | 0 <= l < i && 0 <= g < |bounding[l]| ::
        out[l][g] == Attenuate(1.0 / resls[l], bounding[l][g])
    {
      if StopsAttenuation(resls[i]) {
        break;
      }
      var c := 1.0 / resls[i];
      var level := bounding[i];
      out := out[i := seq(|level|, g requires 0 <= g < |level| => Attenuate(c, level[g]))];
      i := i + 1;
    }
    return Ok(out);
  }

  /** On a ladder that starts above zero, exactly the levels coarser than one
      unit are attenuated. */
  lemma AttenuatedIffCoarse(resl0: real, resls: seq<real>, i: nat)
    requires resl0 > 0.0 && i < |resls|
    requires forall j | 0 <= j < |resls| :: resls[j] == resl0 / Pow2(j)
    ensures i < AttenuatedLevels(resls) <==> resls[i] > 1.0
  {
    var k := AttenuatedLevels(resls);
    forall j | 0 <= j < |resls| ensures resls[j] > 0.0 {
      PositiveQuotient(resl0, Pow2(j));
    }
    if i < k {
      assert !StopsAttenuation(resls[i]);
      StopIffFine(resls[i]);
    } else {
      assert k < |resls| && StopsAttenuation(resls[k]);
      StopIffFine(resls[k]);
      if k < i {
        LadderFiner(resl0, k, i);
      }
    }
  }

  lemma PositiveQuotient(x: real, p: real)
    requires x > 0.0 && p > 0.0
    ensures x / p > 0.0
  {
  }

  lemma StopIffFine(resl: real)
    requires resl > 0.0
    ensures StopsAttenuation(resl) <==> resl <= 1.0
  {
    if resl <= 1.0 {
      assert 1.0 / resl >= 1.0 by { assert resl * (1.0 / resl) == 1.0; }
    } else {
      assert 1.0 / resl < 1.0 by { assert resl * (1.0 / resl) == 1.0; }
    }
  }

  // ---------------------------------------------------------------------------
  // Packing count

  /** Walks the ranked results up to the first one with a positive score. */
  method CountNonPositive(ranked: seq<HSearch.SearchPoint>) returns (n: nat)
    ensures n <= |ranked|
    ensures forall i | 0 <= i < n :: ranked[i].score <= 0.0
    ensures n < |ranked| ==> ranked[n].score > 0.0
  {
    n := 0;
    while n < |ranked|
      invariant n <= |ranked|
      invariant forall i | 0 <= i < n :: ranked[i].score <= 0.0
    {
      if ranked[n].score > 0.0 {
        break;
      }
      n := n + 1;
    }
  }

  /** How many samples packing considers: all leading non-positive ones, but no
      more than the packing fraction of the total search effort, spread over the
      packer's iterations. */
  method PackCount(ranked: seq<HSearch.SearchPoint>, effort: nat, packFrac: real,
                   nIters: nat, iterMult: nat) returns (npack: nat)
    requires packFrac >= 0.0 && nIters * iterMult > 0
    ensures npack <= |ranked|
    ensures npack as real <= effort as real * (packFrac / (nIters * iterMult) as real)
    ensures forall i | 0 <= i < npack :: ranked[i].score <= 0.0
    ensures npack < |ranked| && ranked[npack].score <= 0.0 ==>
      effort as real * (packFrac / (nIters * iterMult) as real) < (npack + 1) as real
  {
    var nonPositive := CountNonPositive(ranked);
    var budget := effort as real * (packFrac / (nIters * iterMult) as real);
    assert budget >= 0.0 by { NonNegProduct(effort as real, packFrac / (nIters * iterMult) as real); }
    var cap := budget.Floor as nat;
    npack := if nonPositive < cap then nonPositive else cap;
  }

  lemma NonNegProduct(a: real, b: real)
    requires a >= 0.0 && b >= 0.0
    ensures a * b >= 0.0
  {
  }

  // ---------------------------------------------------------------------------
  // Rosetta re-scoring count

  /** The options that decide how many packed results Rosetta re-scores. */
  datatype RescoreOpts = RescoreOpts(
    scoreFraction: real,
    thenMinBelowThresh: real,
    scoreAtLeast: nat,
    scoreAtMost: nat,
    minFraction: real)

  /** How many results are handed to Rosetta and the updated count of score
      calculations. */
  datatype RescorePlan = RescorePlan(count: nat, nScoreCalculations: nat)

  /** `n` is the length of the leading run of scores at or below `thresh`:
      the first index whose score is above it, or the number of scores when
      none is. */
  predicate LeadingRun(scores: seq<real>, thresh: real, n: nat) {
    && n <= |scores|
    && (forall i | 0 <= i < n :: scores[i] <= thresh)
    && (n < |scores| ==> scores[n] > thresh)
  }

  /** The leading run has exactly one length. */
  lemma LeadingRunUnique(scores: seq<real>, thresh: real, a: nat, b: nat)
    requires LeadingRun(scores, thresh, a) && LeadingRun(scores, thresh, b)
    ensures a == b
  {
  }

  function Min(a: int, b: int): int {
    if a <= b then a else b
  }

  function Max(a: int, b: int): int {
    if a >= b then a else b
  }

  /** The first `n` whose result scores above the threshold, or the number of
      results when none does. */
  method FirstAbove(scores: seq<real>, thresh: real) returns (n: nat)
    ensures LeadingRun(scores, thresh, n)
  {
    n := 0;
    while n < |scores|
      invariant n <= |scores|
      invariant forall i | 0 <= i < n :: scores[i] <= thresh
    {
      if scores[n] > thresh {
        break;
      }
      n := n + 1;
    }
  }

  /** Rounds `n` up to a whole number of rounds over `threads` threads. */
  function RoundUpToThreads(n: nat, threads: nat): (r: nat)
    requires threads > 0
    ensures r % threads == 0
    ensures n <= r < n + threads
  {
    var q := n / threads;
    if n % threads == 0 then n
    else
      RoundUpStep(n, threads, q, n % threads);
      (q + 1) * threads
  }

  lemma RoundUpStep(n: nat, t: nat, q: nat, rem: nat)
    requires t > 0 && 0 < rem < t && n == q * t + rem
    ensures (q + 1) * t % t == 0
    ensures n <= (q + 1) * t < n + t
  {
    HSearch.DivUnique((q + 1) * t, t, q + 1, 0);
    HSearch.MulSucc(t, q);
  }

  /** The number of results to re-score. When minimizing, a fraction of the
      score calculations so far, rounded up to a multiple of the thread count.
      Otherwise a fraction of the search effort (or, with a threshold, every
      leading result at or below it), clamped to the at-least / at-most options
      and to the number of packed results. */
  method RescoreCount(minimizing: bool, opts: RescoreOpts, nScoreCalculations: nat,
                      threads: nat, effort: nat, packedScores: seq<real>)
    returns (plan: RescorePlan)
    requires threads > 0
    requires opts.minFraction >= 0.0 && opts.scoreFraction >= 0.0
    ensures minimizing ==> plan.nScoreCalculations == nScoreCalculations
    ensures minimizing ==> plan.count % threads == 0
    ensures minimizing ==>
      var base := (nScoreCalculations as real * opts.minFraction).Floor;
      base <= plan.count < base + threads
    ensures !minimizing ==> plan.nScoreCalculations == plan.count
    ensures !minimizing ==> plan.count <= |packedScores| && plan.count <= opts.scoreAtMost
    ensures !minimizing && opts.scoreAtLeast <= opts.scoreAtMost && opts.scoreAtLeast <= |packedScores|
      ==> plan.count >= opts.scoreAtLeast
    ensures !minimizing && opts.thenMinBelowThresh > -900000000.0 && plan.count > opts.scoreAtLeast
      ==> forall i | 0 <= i < plan.count :: packedScores[i] <= opts.thenMinBelowThresh
    ensures !minimizing && opts.thenMinBelowThresh <= -900000000.0 ==>
      plan.count == Min(Min(Max((opts.scoreFraction / 40.0 * effort as real).Floor, opts.scoreAtLeast),
                            opts.scoreAtMost), |packedScores|)
    ensures !minimizing && opts.thenMinBelowThresh > -900000000.0 ==>
      exists n0: nat | LeadingRun(packedScores, opts.thenMinBelowThresh, n0) ::
        plan.count == Min(Min(Max(n0, opts.scoreAtLeast), opts.scoreAtMost), |packedScores|)
  {
    if minimizing {
      assert nScoreCalculations as real * opts.minFraction >= 0.0 by {
        NonNegProduct(nScoreCalculations as real, opts.minFraction);
      }
      var base := (nScoreCalculations as real * opts.minFraction).Floor as nat;
      plan := RescorePlan(RoundUpToThreads(base, threads), nScoreCalculations);
    } else {
      var n: nat;
      if opts.thenMinBelowThresh > -900000000.0 {
        n := FirstAbove(packedScores, opts.thenMinBelowThresh);
      } else {
        var share := opts.scoreFraction / 40.0 * effort as real;
        assert share >= 0.0 by { NonNegProduct(opts.scoreFraction / 40.0, effort as real); }
        n := share.Floor as nat;
      }
      if n < opts.scoreAtLeast {
        n := opts.scoreAtLeast;
      }
      if n > opts.scoreAtMost {
        n := opts.scoreAtMost;
      }
      if n > |packedScores| {
        n := |packedScores|;
      }
      plan := RescorePlan(n, n);
    }
  }
}
