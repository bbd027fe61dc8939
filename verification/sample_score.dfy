/** The score of one search sample: the tether to the input position, the
    symmetric clash check and the RIF objective. The geometry that places the
    scaffold and evaluates the objective is not modelled; it reaches this module
    as numbers already computed for the sample. */
module SampleScoring {
  import opened Outcomes
  import HSearch

  /** The score the search gives to samples outside the tether. */
  const TetheredOut: real := 9000000000.0

  /** What the geometry reports for one sample: its distance from the input
      position (in the redundancy-filter metric), the objective's score, and the
      clash-grid values of the scaffold atoms in every symmetry copy. */
  datatype Placement = Placement(tetherDistance: real, objective: real, symmetryAtomScores: seq<real>)

  datatype ScoreOpts = ScoreOpts(tether: bool, tetherCut: real, nfoldSymmetry: int)

  /** Sum of the clashing (positive) atom scores; attractive ones are ignored. */
  function ClashSum(atomScores: seq<real>): real
    decreases |atomScores|
  {
    if atomScores == [] then 0.0
    else (if atomScores[0] > 0.0 then atomScores[0] else 0.0) + ClashSum(atomScores[1..])
  }

  lemma {:induction false} ClashSumNonNegative(atomScores: seq<real>)
    ensures ClashSum(atomScores) >= 0.0
    decreases |atomScores|
  {
    if atomScores != [] {
      ClashSumNonNegative(atomScores[1..]);
    }
  }

  /** Splitting the atoms splits the clash sum, so the copies can be summed one
      symmetry copy at a time. */
  lemma {:induction false} ClashSumAppend(a: seq<real>, b: seq<real>)
    ensures ClashSum(a + b) == ClashSum(a) + ClashSum(b)
    decreases |a|
  {
    if a == [] {
      assert a + b == b;
    } else {
      assert (a + b)[1..] == a[1..] + b;
      ClashSumAppend(a[1..], b);
    }
  }

  /** With no clashing atom the clash sum is zero, and a single clashing atom
      makes it positive. */
  lemma {:induction false} ClashSumZeroIff(atomScores: seq<real>)
    ensures ClashSum(atomScores) == 0.0 <==> forall i | 0 <= i < |atomScores| :: atomScores[i] <= 0.0
    decreases |atomScores|
  {
    if atomScores != [] {
      ClashSumZeroIff(atomScores[1..]);
      ClashSumNonNegative(atomScores[1..]);
      if atomScores[0] <= 0.0 {
        forall i | 1 <= i < |atomScores| ensures atomScores[i] == atomScores[1..][i - 1] {
        }
      }
    }
  }

  /** The score of a sample at level `level` of resolution `resl`. Outside the
      tether the sample gets the tether score and nothing else is evaluated.
      With symmetry, scoring a level-2 sample writes debugging structures and
      ends the program (`None`). Otherwise the objective plus, with symmetry,
      the clashes of the symmetry copies. */
  function SampleScore(opts: ScoreOpts, resl: real, level: nat, pl: Placement): (r: Option<real>)
    ensures opts.tether && pl.tetherDistance > opts.tetherCut + resl ==> r == Some(TetheredOut)
    ensures r.None? <==>
      !(opts.tether && pl.tetherDistance > opts.tetherCut + resl) && opts.nfoldSymmetry > 1 && level == 2
    ensures r.Some? && !(opts.tether && pl.tetherDistance > opts.tetherCut + resl) ==>
      r.value >= pl.objective
    ensures r.Some? && opts.nfoldSymmetry <= 1 && !(opts.tether && pl.tetherDistance > opts.tetherCut + resl) ==>
      r.value == pl.objective
  {
    if opts.tether && pl.tetherDistance > opts.tetherCut + resl then Some(TetheredOut)
    else if opts.nfoldSymmetry > 1 then
      if level == 2 then None
      else
        ClashSumNonNegative(pl.symmetryAtomScores);
        Some(pl.objective + ClashSum(pl.symmetryAtomScores))
    else Some(pl.objective)
  }

  /** The scorer the search sees: level `l` is scored at the `l`-th resolution
      of the ladder, with the placement geometry reports for that sample. */
  function ScorerOf(opts: ScoreOpts, resls: seq<real>, place: (nat, nat) -> Placement): HSearch.Scorer
  {
    (l: nat, c: nat) => if l < |resls| then SampleScore(opts, resls[l], l, place(l, c)) else None
  }

  /** Without symmetry the search is never ended by its scorer. */
  lemma NoSymmetryNeverExits(opts: ScoreOpts, resls: seq<real>, place: (nat, nat) -> Placement,
                             sopts: HSearch.SearchOpts, size0: nat)
    requires sopts.dimPow2 > 0 && |resls| >= 1 && opts.nfoldSymmetry <= 1
    ensures !HSearch.Search(sopts, ScorerOf(opts, resls, place), size0, |resls|).Exited?
  {
    SymmetryExitsAtLevelTwo(opts, resls, place, sopts, size0);
  }

  /** With symmetry the search can only be ended by its scorer on the third
      level (level 2), and only when that level exists. */
  lemma SymmetryExitsAtLevelTwo(opts: ScoreOpts, resls: seq<real>, place: (nat, nat) -> Placement,
                                sopts: HSearch.SearchOpts, size0: nat)
    requires sopts.dimPow2 > 0 && |resls| >= 1
    ensures HSearch.Search(sopts, ScorerOf(opts, resls, place), size0, |resls|).Exited? ==>
      HSearch.Search(sopts, ScorerOf(opts, resls, place), size0, |resls|).level == 2 &&
      |resls| >= 3 && opts.nfoldSymmetry > 1
  {
    var score := ScorerOf(opts, resls, place);
    var o := HSearch.Search(sopts, score, size0, |resls|);
    if o.Exited? {
      HSearch.ExitedOnlyIf(sopts, score, size0, |resls|, o.level);
      var cands := HSearch.Reach(sopts, score, size0, o.level).cands;
      HSearch.ScoreAllSpec(score, o.level, cands);
      var i :| 0 <= i < |cands| && score(o.level, cands[i]).None?;
      assert SampleScore(opts, resls[o.level], o.level, place(o.level, cands[i])).None?;
    }
  }
}
