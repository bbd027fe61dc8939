/** The hierarchical beam search over NEST sample indices that drives the docking
    of one scaffold: every level scores its samples, keeps the best
    `beamSize / dimPow2`, drops those at or above the global score cut and
    expands each survivor into `dimPow2` children at the next, finer level.
    The placement geometry behind an index and the objective that scores it stay
    abstract: a scorer is a function of (level, index). */
module HSearch {
  import opened Outcomes

  /** One scored sample: its index at the current level and its score (lower is better). */
  datatype SearchPoint = SearchPoint(index: nat, score: real)

  /** The search settings: the beam budget, the branching factor (64 for six
      binary-subdivided dimensions) and the absolute score cut. */
  datatype SearchOpts = SearchOpts(beamSize: nat, dimPow2: nat, globalScoreCut: real)

  /** How the search over one scaffold ends. `Exited` is a scorer that ended the
      program (see `SampleScoring.SampleScore`); `Failed` is an empty next level. */
  datatype Outcome =
    | Finished(ranked: seq<SearchPoint>, effort: nat)
    | Failed(level: nat)
    | Exited(level: nat)

  /** The candidates and accumulated effort of a level the search has reached,
      or the outcome that stopped it earlier. */
  datatype Progress =
    | Running(cands: seq<nat>, effort: nat)
    | Stopped(outcome: Outcome)

  /** A scorer: `None` means the scoring of that sample terminated the program. */
  type Scorer = (nat, nat) -> Option<real>

  // ---------------------------------------------------------------------------
  // Index arithmetic

  lemma MulMonotone(a: nat, b: nat, d: nat)
    requires a <= b
    ensures a * d <= b * d
  {
  }

  /** Quotient and remainder are determined by any decomposition `c == q * d + r`. */
  lemma DivUnique(c: nat, d: nat, q: nat, r: nat)
    requires d > 0 && 0 <= r < d && c == q * d + r
    ensures c / d == q && c % d == r
  {
    var q', r' := c / d, c % d;
    if q' < q {
      MulMonotone(q' + 1, q, d);
      assert false;
    } else if q' > q {
      MulMonotone(q + 1, q', d);
      assert false;
    }
  }

  /** The ancestor `l` levels up: the index divided by the branching factor `l` times. */
  function Ancestor(c: nat, d: nat, l: nat): nat
    requires d > 0
    decreases l
  {
    if l == 0 then c else Ancestor(c / d, d, l - 1)
  }

  // ---------------------------------------------------------------------------
  // Seeding and scoring

  /** Level 0 holds every index of the coarsest grid, in order and unscored. */
  function Seed(size0: nat): (r: seq<nat>)
    ensures |r| == size0
    ensures forall i | 0 <= i < size0 :: r[i] == i
  {
    seq(size0, i => i)
  }

  /** Scores every candidate of a level; fails when any scoring ends the program. */
  function ScoreAll(score: Scorer, level: nat, cands: seq<nat>): Option<seq<SearchPoint>>
  {
    if cands == [] then Some([])
    else
      match score(level, cands[0])
      case None => None
      case Some(s) =>
        match ScoreAll(score, level, cands[1..])
        case None => None
        case Some(rest) => Some([SearchPoint(cands[0], s)] + rest)
  }

  /** Scoring succeeds exactly when no sample's scoring ends the program, and then
      pairs every candidate, in order, with its own score. */
  lemma {:induction false} ScoreAllSpec(score: Scorer, level: nat, cands: seq<nat>)
    ensures ScoreAll(score, level, cands).Some? <==>
      forall i | 0 <= i < |cands| :: score(level, cands[i]).Some?
    ensures ScoreAll(score, level, cands).Some? ==> |ScoreAll(score, level, cands).value| == |cands|
    ensures ScoreAll(score, level, cands).Some? ==> forall i | 0 <= i < |cands| ::
      ScoreAll(score, level, cands).value[i] == SearchPoint(cands[i], score(level, cands[i]).value)
    decreases |cands|
  {
    if cands != [] {
      ScoreAllSpec(score, level, cands[1..]);
      if score(level, cands[0]).Some? && ScoreAll(score, level, cands[1..]).None? {
        var i :| 0 <= i < |cands[1..]| && score(level, cands[1..][i]).None?;
        assert score(level, cands[i + 1]).None?;
      }
    }
  }

  // ---------------------------------------------------------------------------
  // Ordering and pruning

  predicate SortedByScore(s: seq<SearchPoint>) {
    forall i, j | 0 <= i < j < |s| :: s[i].score <= s[j].score
  }

  /** Inserts a sample before the first one that scores no better. */
  function Insert(p: SearchPoint, s: seq<SearchPoint>): (r: seq<SearchPoint>)
    ensures |r| == |s| + 1
  {
    if s == [] || p.score <= s[0].score then [p] + s
    else [s[0]] + Insert(p, s[1..])
  }

  /** Sorts samples ascending by score (the full sort of the last level). */
  function SortByScore(s: seq<SearchPoint>): (r: seq<SearchPoint>)
    ensures |r| == |s|
  {
    if s == [] then [] else Insert(s[0], SortByScore(s[1..]))
  }

  lemma {:induction false} InsertMember(p: SearchPoint, s: seq<SearchPoint>, x: SearchPoint)
    ensures x in Insert(p, s) <==> x == p || x in s
    decreases |s|
  {
    if s != [] && p.score > s[0].score {
      InsertMember(p, s[1..], x);
      assert s == [s[0]] + s[1..];
    }
  }

  lemma {:induction false} InsertPerm(p: SearchPoint, s: seq<SearchPoint>)
    ensures multiset(Insert(p, s)) == multiset(s) + multiset{p}
    decreases |s|
  {
    if s != [] && p.score > s[0].score {
      InsertPerm(p, s[1..]);
      assert s == [s[0]] + s[1..];
    }
  }

  lemma {:induction false} InsertSorted(p: SearchPoint, s: seq<SearchPoint>)
    requires SortedByScore(s)
    ensures SortedByScore(Insert(p, s))
    decreases |s|
  {
    if s != [] && p.score > s[0].score {
      var t := Insert(p, s[1..]);
      InsertSorted(p, s[1..]);
      forall k | 0 <= k < |t| ensures s[0].score <= t[k].score {
        InsertMember(p, s[1..], t[k]);
      }
    }
  }

  /** The final ranking is an ascending rearrangement of the samples it sorts. */
  lemma {:induction false} SortByScoreSpec(s: seq<SearchPoint>)
    ensures |SortByScore(s)| == |s|
    ensures SortedByScore(SortByScore(s))
    ensures multiset(SortByScore(s)) == multiset(s)
    decreases |s|
  {
    if s != [] {
      SortByScoreSpec(s[1..]);
      InsertSorted(s[0], SortByScore(s[1..]));
      InsertPerm(s[0], SortByScore(s[1..]));
      assert s == [s[0]] + s[1..];
    }
  }

  /** The beam cut of one level: sort and keep the first `keep` when there are
      more, otherwise keep everything. */
  function Prune(scored: seq<SearchPoint>, keep: nat): seq<SearchPoint>
  {
    if |scored| > keep then SortByScore(scored)[..keep] else scored
  }

  /** When there are more than `keep` samples, exactly `keep` survive and none of
      them scores worse than any discarded one (the partial selection of the
      program promises nothing about their order); otherwise every sample
      survives unchanged. */
  lemma PruneSpec(scored: seq<SearchPoint>, keep: nat)
    ensures |scored| > keep ==> |Prune(scored, keep)| == keep
    ensures |scored| > keep ==> multiset(Prune(scored, keep)) <= multiset(scored)
    ensures |scored| > keep ==>
      forall a, b | a in Prune(scored, keep) && b in multiset(scored) - multiset(Prune(scored, keep))
        :: a.score <= b.score
    ensures |scored| <= keep ==> Prune(scored, keep) == scored
  {
    if |scored| > keep {
      var t := SortByScore(scored);
      SortByScoreSpec(scored);
      SplitSorted(t, keep);
      assert t == t[..keep] + t[keep..];
    }
  }

  /** Pruning never keeps more than `keep` samples, and only samples it was given. */
  lemma PruneBound(scored: seq<SearchPoint>, keep: nat, p: SearchPoint)
    ensures |Prune(scored, keep)| <= keep || Prune(scored, keep) == scored
    ensures p in Prune(scored, keep) ==> p in scored
  {
    PruneSpec(scored, keep);
    if |scored| > keep && p in Prune(scored, keep) {
      assert p in multiset(Prune(scored, keep));
    }
  }

  lemma SplitSorted(t: seq<SearchPoint>, k: nat)
    requires SortedByScore(t) && k <= |t|
    ensures multiset(t) - multiset(t[..k]) == multiset(t[k..])
    ensures forall a, b | a in t[..k] && b in multiset(t[k..]) :: a.score <= b.score
  {
    assert t == t[..k] + t[k..];
    forall a, b | a in t[..k] && b in multiset(t[k..]) ensures a.score <= b.score {
      var i :| 0 <= i < k && t[i] == a;
      assert b in t[k..];
      var j :| k <= j < |t| && t[j] == b;
    }
  }

  // ---------------------------------------------------------------------------
  // Expansion

  /** The `d` children of a sample at the next level. */
  function Children(parent: nat, d: nat): (r: seq<nat>)
    ensures |r| == d
  {
    seq(d, j => parent * d + j)
  }

  /** A child's parent is its index divided by the branching factor, and its offset
      among its siblings is the remainder. */
  lemma ChildParent(parent: nat, d: nat, c: nat)
    requires d > 0
    ensures c in Children(parent, d) <==> c / d == parent
    ensures c in Children(parent, d) ==> Children(parent, d)[c % d] == c
  {
    if c in Children(parent, d) {
      var j :| 0 <= j < d && Children(parent, d)[j] == c;
      DivUnique(c, d, parent, j);
    }
    if c / d == parent {
      assert c == parent * d + c % d;
      assert Children(parent, d)[c % d] == c;
    }
  }

  /** The kept samples strictly below the score cut. */
  function Survivors(kept: seq<SearchPoint>, cut: real): (r: seq<SearchPoint>)
    ensures |r| <= |kept|
  {
    if kept == [] then []
    else (if kept[0].score < cut then [kept[0]] else []) + Survivors(kept[1..], cut)
  }

  lemma {:induction false} SurvivorsMember(kept: seq<SearchPoint>, cut: real, p: SearchPoint)
    ensures p in Survivors(kept, cut) <==> p in kept && p.score < cut
    decreases |kept|
  {
    if kept != [] {
      SurvivorsMember(kept[1..], cut, p);
      assert kept == [kept[0]] + kept[1..];
    }
  }

  function Block(p: SearchPoint, d: nat, cut: real): seq<nat> {
    if p.score < cut then Children(p.index, d) else []
  }

  /** The next level's candidates: each survivor's children, survivor by survivor. */
  function Expand(kept: seq<SearchPoint>, d: nat, cut: real): seq<nat>
  {
    if kept == [] then [] else Block(kept[0], d, cut) + Expand(kept[1..], d, cut)
  }

  lemma {:induction false} ExpandSnoc(kept: seq<SearchPoint>, p: SearchPoint, d: nat, cut: real)
    ensures Expand(kept + [p], d, cut) == Expand(kept, d, cut) + Block(p, d, cut)
    decreases |kept|
  {
    if kept == [] {
      assert [p][1..] == [];
    } else {
      assert (kept + [p])[1..] == kept[1..] + [p];
      ExpandSnoc(kept[1..], p, d, cut);
    }
  }

  lemma MulSucc(d: nat, n: nat)
    ensures d * (1 + n) == d + d * n
  {
  }

  /** Every survivor contributes exactly `d` children and nothing else does. */
  lemma {:induction false} ExpandSize(kept: seq<SearchPoint>, d: nat, cut: real)
    ensures |Expand(kept, d, cut)| == d * |Survivors(kept, cut)|
    decreases |kept|
  {
    if kept != [] {
      var rest := kept[1..];
      ExpandSize(rest, d, cut);
      var n := |Survivors(rest, cut)|;
      assert |Expand(kept, d, cut)| == |Block(kept[0], d, cut)| + d * n;
      if kept[0].score < cut {
        assert |Survivors(kept, cut)| == 1 + n;
        MulSucc(d, n);
      } else {
        assert |Survivors(kept, cut)| == n;
      }
    }
  }

  /** A next-level index is present exactly when its parent is a kept sample below
      the cut. */
  lemma {:induction false} ExpandMember(kept: seq<SearchPoint>, d: nat, cut: real, c: nat)
    requires d > 0
    ensures c in Expand(kept, d, cut) <==> exists p | p in kept :: p.score < cut && c / d == p.index
    decreases |kept|
  {
    if kept != [] {
      ExpandMember(kept[1..], d, cut, c);
      ChildParent(kept[0].index, d, c);
      assert kept == [kept[0]] + kept[1..];
      if exists p | p in kept :: p.score < cut && c / d == p.index {
        var p :| p in kept && p.score < cut && c / d == p.index;
        if p != kept[0] {
          assert p in kept[1..];
        }
      }
    }
  }

  /** The children are laid out survivor by survivor: the `j`-th child of the
      `m`-th survivor sits at position `m * d + j`. */
  lemma {:induction false} ExpandLayout(kept: seq<SearchPoint>, d: nat, cut: real, m: nat, j: nat)
    requires m < |Survivors(kept, cut)| && j < d
    ensures m * d + j < |Expand(kept, d, cut)|
    ensures Expand(kept, d, cut)[m * d + j] == Survivors(kept, cut)[m].index * d + j
    decreases |kept|
  {
    var rest := kept[1..];
    ExpandSize(rest, d, cut);
    var n := |Survivors(rest, cut)|;
    if kept[0].score < cut {
      assert Survivors(kept, cut) == [kept[0]] + Survivors(rest, cut);
      if m == 0 {
        assert |Expand(kept, d, cut)| == d + d * n;
      } else {
        ExpandLayout(rest, d, cut, m - 1, j);
        assert m * d + j == d + ((m - 1) * d + j);
      }
    } else {
      assert Survivors(kept, cut) == Survivors(rest, cut);
      ExpandLayout(rest, d, cut, m, j);
    }
  }

  /** The expansion loop of one level, written as in the program: skip samples at
      or above the cut, push `parent * d + j` for every `j` below `d`. */
  method ExpandLevel(kept: seq<SearchPoint>, opts: SearchOpts) returns (next: seq<nat>)
    requires opts.dimPow2 > 0
    ensures next == Expand(kept, opts.dimPow2, opts.globalScoreCut)
  {
    var d := opts.dimPow2;
    next := [];
    var i := 0;
    while i < |kept|
      invariant 0 <= i <= |kept|
      invariant next == Expand(kept[..i], d, opts.globalScoreCut)
    {
      ExpandSnoc(kept[..i], kept[i], d, opts.globalScoreCut);
      assert kept[..i + 1] == kept[..i] + [kept[i]];
      if kept[i].score < opts.globalScoreCut {
        var isamp0 := kept[i].index;
        var j := 0;
        ghost var base := next;
        while j < d
          invariant 0 <= j <= d
          invariant next == base + Children(isamp0, d)[..j]
        {
          assert Children(isamp0, d)[..j + 1] == Children(isamp0, d)[..j] + [isamp0 * d + j];
          next := next + [isamp0 * d + j];
          j := j + 1;
        }
        assert Children(isamp0, d)[..d] == Children(isamp0, d);
      }
      i := i + 1;
    }
    assert kept[..|kept|] == kept;
  }

  // ---------------------------------------------------------------------------
  // Progress marks of the search loop

  /** The progress interval as the search loop computes it: one mark per
      fiftieth of the level. */
  function ProgressIntervalAsWritten(size: nat): (r: nat)
    ensures r * 50 <= size < (r + 1) * 50
  {
    size / 50
  }

  /** The loop marks sample `i` when `i` is a multiple of the interval; with
      fewer than fifty samples the interval is zero and the first sample
      already takes a remainder by zero. */
  lemma ProgressIntervalZero(size: nat)
    requires 0 < size < 50
    ensures ProgressIntervalAsWritten(size) == 0
  {
  }

  /** The interval as the re-scoring loop computes it: never below one, so
      every sample index has a defined remainder and sample 0 is always marked. */
  function ProgressInterval(size: nat): (r: nat)
    ensures r >= 1 && 0 % r == 0
    ensures size >= 50 ==> r == ProgressIntervalAsWritten(size)
    ensures size < 50 ==> r == 1
  {
    if size / 50 < 1 then 1 else size / 50
  }

  /** The samples of a level of `size` that print a progress mark, in order. */
  method ProgressMarks(size: nat) returns (marks: seq<nat>)
    ensures forall i: nat :: i in marks <==> i < size && i % ProgressInterval(size) == 0
    ensures size > 0 ==> |marks| > 0 && marks[0] == 0
  {
    var interval := ProgressInterval(size);
    marks := [];
    var i := 0;
    while i < size
      invariant i <= size
      invariant forall k: nat :: k in marks <==> k < i && k % interval == 0
      invariant i == 0 ==> marks == []
      invariant i > 0 ==> |marks| > 0 && marks[0] == 0
    {
      if i % interval == 0 {
        marks := marks + [i];
      }
      i := i + 1;
    }
  }

  // ---------------------------------------------------------------------------
  // The level-by-level reference and the whole search

  /** The number of samples each level keeps before the score cut. */
  function Keep(opts: SearchOpts): nat
    requires opts.dimPow2 > 0
  {
    opts.beamSize / opts.dimPow2
  }

  /** The candidates the beam passes on from a scored level. */
  function NextCands(opts: SearchOpts, scored: seq<SearchPoint>): seq<nat>
    requires opts.dimPow2 > 0
  {
    Expand(Prune(scored, Keep(opts)), opts.dimPow2, opts.globalScoreCut)
  }

  /** One non-final level: score it, cut the beam and expand, or stop. */
  function Advance(opts: SearchOpts, score: Scorer, level: nat, p: Progress): Progress
    requires opts.dimPow2 > 0
  {
    match p
    case Stopped(_) => p
    case Running(cands, effort) =>
      match ScoreAll(score, level, cands)
      case None => Stopped(Exited(level))
      case Some(scored) =>
        var next := NextCands(opts, scored);
        if next == [] then Stopped(Failed(level)) else Running(next, effort + |cands|)
  }

  /** Where the search stands when it reaches `level`, level by level from the seed. */
  function Reach(opts: SearchOpts, score: Scorer, size0: nat, level: nat): Progress
    requires opts.dimPow2 > 0
    decreases level
  {
    if level == 0 then Running(Seed(size0), 0)
    else Advance(opts, score, level - 1, Reach(opts, score, size0, level - 1))
  }

  /** The whole search over `nLevels` resolutions: the last level is scored but
      never expanded, and all its samples are returned sorted by score. */
  function Search(opts: SearchOpts, score: Scorer, size0: nat, nLevels: nat): Outcome
    requires opts.dimPow2 > 0 && nLevels >= 1
  {
    match Reach(opts, score, size0, nLevels - 1)
    case Stopped(o) => o
    case Running(cands, effort) =>
      match ScoreAll(score, nLevels - 1, cands)
      case None => Exited(nLevels - 1)
      case Some(scored) => Finished(SortByScore(scored), effort + |cands|)
  }

  /** One level of the search loop: score the level's samples, stop if the
      scorer ended the run, keep the beam and expand it, and stop if nothing
      survived. */
  method SearchLevel(opts: SearchOpts, score: Scorer, level: nat, samples: seq<nat>, effort: nat)
    returns (p: Progress, marks: seq<nat>)
    requires opts.dimPow2 > 0
    ensures p == Advance(opts, score, level, Running(samples, effort))
    ensures forall i: nat :: i in marks <==> i < |samples| && i % ProgressInterval(|samples|) == 0
  {
    marks := ProgressMarks(|samples|);
    var scored := ScoreAll(score, level, samples);
    if scored.None? {
      return Stopped(Exited(level)), marks;
    }
    var kept := Prune(scored.value, Keep(opts));
    var next := ExpandLevel(kept, opts);
    if next == [] {
      return Stopped(Failed(level)), marks;
    }
    return Running(next, effort + |samples|), marks;
  }

  /** The search loop of the docking driver: level by level from the seed grid,
      stopping when the scorer ends the run or a beam passes nothing on, and
      ranking every sample of the last level. */
  method HierarchicalSearch(opts: SearchOpts, score: Scorer, size0: nat, nLevels: nat)
    returns (o: Outcome)
    requires opts.dimPow2 > 0 && nLevels >= 1
    ensures o == Search(opts, score, size0, nLevels)
  {
    var samples := Seed(size0);
    var effort: nat := 0;
    var iresl := 0;
    while iresl + 1 < nLevels
      invariant 0 <= iresl < nLevels
      invariant Reach(opts, score, size0, iresl) == Running(samples, effort)
      decreases nLevels - iresl
    {
      var p, _ := SearchLevel(opts, score, iresl, samples, effort);
      if p.Stopped? {
        StoppedStays(opts, score, size0, iresl + 1, nLevels - 1);
        return p.outcome;
      }
      samples, effort := p.cands, p.effort;
      iresl := iresl + 1;
    }
    var scored := ScoreAll(score, iresl, samples);
    if scored.None? {
      return Exited(iresl);
    }
    return Finished(SortByScore(scored.value), effort + |samples|);
  }

  // ---------------------------------------------------------------------------
  // Properties of the search

  /** A finished search ranks every sample of the last level, ascending by score,
      and its effort counts every sample scored on the way. */
  lemma SearchFinished(opts: SearchOpts, score: Scorer, size0: nat, nLevels: nat)
    requires opts.dimPow2 > 0 && nLevels >= 1
    requires Search(opts, score, size0, nLevels).Finished?
    ensures Reach(opts, score, size0, nLevels - 1).Running?
    ensures ScoreAll(score, nLevels - 1, Reach(opts, score, size0, nLevels - 1).cands).Some?
    ensures var o := Search(opts, score, size0, nLevels);
            var lv := Reach(opts, score, size0, nLevels - 1);
            && SortedByScore(o.ranked)
            && multiset(o.ranked) == multiset(ScoreAll(score, nLevels - 1, lv.cands).value)
            && o.effort == lv.effort + |lv.cands|
  {
    var lv := Reach(opts, score, size0, nLevels - 1);
    if lv.Stopped? {
      StopLevel(opts, score, size0, nLevels - 1);
      assert false;
    }
    SortByScoreSpec(ScoreAll(score, nLevels - 1, lv.cands).value);
  }

  /** Once stopped, the search stays stopped with the same outcome. */
  lemma {:induction false} StoppedStays(opts: SearchOpts, score: Scorer, size0: nat, l: nat, m: nat)
    requires opts.dimPow2 > 0 && l <= m
    requires Reach(opts, score, size0, l).Stopped?
    ensures Reach(opts, score, size0, m) == Reach(opts, score, size0, l)
    decreases m - l
  {
    if l < m {
      StoppedStays(opts, score, size0, l, m - 1);
    }
  }

  /** The level a stopping outcome names (the last level for a finished search). */
  function StopLevelOf(o: Outcome, m: nat): nat {
    match o
    case Failed(l) => l
    case Exited(l) => l
    case Finished(_, _) => m
  }

  /** A stop recorded while reaching level `m` happened at an earlier level `l`,
      which the search had reached, and names a failure or an exit. */
  lemma {:induction false} StopLevel(opts: SearchOpts, score: Scorer, size0: nat, m: nat)
    requires opts.dimPow2 > 0
    requires Reach(opts, score, size0, m).Stopped?
    ensures !Reach(opts, score, size0, m).outcome.Finished?
    ensures StopLevelOf(Reach(opts, score, size0, m).outcome, m) < m
    ensures Reach(opts, score, size0, StopLevelOf(Reach(opts, score, size0, m).outcome, m)).Running?
    ensures Reach(opts, score, size0, StopLevelOf(Reach(opts, score, size0, m).outcome, m) + 1)
            == Reach(opts, score, size0, m)
    decreases m
  {
    if Reach(opts, score, size0, m - 1).Stopped? {
      StopLevel(opts, score, size0, m - 1);
    }
  }

  /** The beam of level `l` passed nothing on: the search reached and scored the
      level, and every sample kept there scored at or above the cut. */
  predicate NothingSurvives(opts: SearchOpts, score: Scorer, size0: nat, l: nat)
    requires opts.dimPow2 > 0
  {
    && Reach(opts, score, size0, l).Running?
    && ScoreAll(score, l, Reach(opts, score, size0, l).cands).Some?
    && forall p | p in Prune(ScoreAll(score, l, Reach(opts, score, size0, l).cands).value, Keep(opts))
         :: p.score >= opts.globalScoreCut
  }

  /** Expansion comes out empty exactly when no kept sample beat the cut. */
  lemma ExpandEmpty(kept: seq<SearchPoint>, d: nat, cut: real)
    requires d > 0
    ensures Expand(kept, d, cut) == [] <==> forall p | p in kept :: p.score >= cut
  {
    ExpandSize(kept, d, cut);
    if Survivors(kept, cut) != [] {
      SurvivorsMember(kept, cut, Survivors(kept, cut)[0]);
    }
    forall p | p in kept && p.score < cut ensures Survivors(kept, cut) != [] {
      SurvivorsMember(kept, cut, p);
    }
  }

  lemma NothingSurvivesEmpty(opts: SearchOpts, score: Scorer, size0: nat, l: nat)
    requires opts.dimPow2 > 0
    requires Reach(opts, score, size0, l).Running?
    requires ScoreAll(score, l, Reach(opts, score, size0, l).cands).Some?
    ensures NothingSurvives(opts, score, size0, l) <==>
      NextCands(opts, ScoreAll(score, l, Reach(opts, score, size0, l).cands).value) == []
  {
    var kept := Prune(ScoreAll(score, l, Reach(opts, score, size0, l).cands).value, Keep(opts));
    ExpandEmpty(kept, opts.dimPow2, opts.globalScoreCut);
  }

  /** The search fails at level `l` exactly when `l` is not the last level and
      nothing survives its beam. */
  lemma SearchFailedIff(opts: SearchOpts, score: Scorer, size0: nat, nLevels: nat, l: nat)
    requires opts.dimPow2 > 0 && nLevels >= 1
    ensures Search(opts, score, size0, nLevels) == Failed(l) <==>
      l + 1 < nLevels && NothingSurvives(opts, score, size0, l)
  {
    if Search(opts, score, size0, nLevels) == Failed(l) {
      FailedOnlyIf(opts, score, size0, nLevels, l);
    }
    if l + 1 < nLevels && NothingSurvives(opts, score, size0, l) {
      FailedIf(opts, score, size0, nLevels, l);
    }
  }

  lemma FailedOnlyIf(opts: SearchOpts, score: Scorer, size0: nat, nLevels: nat, l: nat)
    requires opts.dimPow2 > 0 && nLevels >= 1
    requires Search(opts, score, size0, nLevels) == Failed(l)
    ensures l + 1 < nLevels && NothingSurvives(opts, score, size0, l)
  {
    var last := nLevels - 1;
    if Reach(opts, score, size0, last).Running? {
      assert false;
    }
    StopLevel(opts, score, size0, last);
    NothingSurvivesEmpty(opts, score, size0, l);
  }

  lemma FailedIf(opts: SearchOpts, score: Scorer, size0: nat, nLevels: nat, l: nat)
    requires opts.dimPow2 > 0 && l + 1 < nLevels
    requires NothingSurvives(opts, score, size0, l)
    ensures Search(opts, score, size0, nLevels) == Failed(l)
  {
    NothingSurvivesEmpty(opts, score, size0, l);
    assert Reach(opts, score, size0, l + 1) == Stopped(Failed(l));
    StoppedStays(opts, score, size0, l + 1, nLevels - 1);
  }

  /** Level `l` was reached but some of its samples could not be scored: the
      scorer ended the run there. */
  predicate ScoringExits(opts: SearchOpts, score: Scorer, size0: nat, l: nat)
    requires opts.dimPow2 > 0
  {
    Reach(opts, score, size0, l).Running? && ScoreAll(score, l, Reach(opts, score, size0, l).cands).None?
  }

  /** The search exits at level `l` exactly when `l` is one of its levels and the
      scorer ended the run while scoring it. */
  lemma SearchExitedIff(opts: SearchOpts, score: Scorer, size0: nat, nLevels: nat, l: nat)
    requires opts.dimPow2 > 0 && nLevels >= 1
    ensures Search(opts, score, size0, nLevels) == Exited(l) <==>
      l < nLevels && ScoringExits(opts, score, size0, l)
  {
    if Search(opts, score, size0, nLevels) == Exited(l) {
      ExitedOnlyIf(opts, score, size0, nLevels, l);
    }
    if l < nLevels && ScoringExits(opts, score, size0, l) {
      ExitedIf(opts, score, size0, nLevels, l);
    }
  }

  lemma ExitedOnlyIf(opts: SearchOpts, score: Scorer, size0: nat, nLevels: nat, l: nat)
    requires opts.dimPow2 > 0 && nLevels >= 1
    requires Search(opts, score, size0, nLevels) == Exited(l)
    ensures l < nLevels && ScoringExits(opts, score, size0, l)
  {
    var last := nLevels - 1;
    if Reach(opts, score, size0, last).Stopped? {
      StopLevel(opts, score, size0, last);
    }
  }

  lemma ExitedIf(opts: SearchOpts, score: Scorer, size0: nat, nLevels: nat, l: nat)
    requires opts.dimPow2 > 0 && l < nLevels
    requires ScoringExits(opts, score, size0, l)
    ensures Search(opts, score, size0, nLevels) == Exited(l)
  {
    if l + 1 < nLevels {
      assert Reach(opts, score, size0, l + 1) == Stopped(Exited(l));
      StoppedStays(opts, score, size0, l + 1, nLevels - 1);
    }
  }

  /** A scorer that scores every sample of every level never ends the search early. */
  lemma TotalScorerNeverExits(opts: SearchOpts, score: Scorer, size0: nat, nLevels: nat)
    requires opts.dimPow2 > 0 && nLevels >= 1
    requires forall l: nat, c: nat :: score(l, c).Some?
    ensures !Search(opts, score, size0, nLevels).Exited?
  {
    var o := Search(opts, score, size0, nLevels);
    if o.Exited? {
      ExitedOnlyIf(opts, score, size0, nLevels, o.level);
      ScoreAllSpec(score, o.level, Reach(opts, score, size0, o.level).cands);
    }
  }

  /** `d` blocks of at most `beam / d` samples fit in the beam. */
  lemma BeamArith(s: nat, d: nat, beam: nat)
    requires d > 0 && s <= beam / d
    ensures d * s <= beam
  {
    MulMonotone(s, beam / d, d);
    assert beam == (beam / d) * d + beam % d;
  }

  /** Beyond the seed, no level holds more candidates than the beam budget. */
  lemma BeamBound(opts: SearchOpts, score: Scorer, size0: nat, l: nat)
    requires opts.dimPow2 > 0 && l > 0
    requires Reach(opts, score, size0, l).Running?
    ensures |Reach(opts, score, size0, l).cands| <= opts.beamSize
  {
    var prev := Reach(opts, score, size0, l - 1);
    var d, cut := opts.dimPow2, opts.globalScoreCut;
    var scored := ScoreAll(score, l - 1, prev.cands).value;
    var kept := Prune(scored, Keep(opts));
    ExpandSize(kept, d, cut);
    PruneSpec(scored, Keep(opts));
    var n := |Survivors(kept, cut)|;
    if |scored| > Keep(opts) {
      BeamArith(n, d, opts.beamSize);
    } else {
      assert kept == scored;
      BeamArith(n, d, opts.beamSize);
    }
  }

  /** Past the seed level every level holds at least one full block of
      children. */
  lemma LaterLevelHoldsABlock(opts: SearchOpts, score: Scorer, size0: nat, l: nat)
    requires opts.dimPow2 > 0 && l > 0
    requires Reach(opts, score, size0, l).Running?
    ensures |Reach(opts, score, size0, l).cands| >= opts.dimPow2
  {
    var prev := Reach(opts, score, size0, l - 1);
    var d, cut := opts.dimPow2, opts.globalScoreCut;
    var scored := ScoreAll(score, l - 1, prev.cands).value;
    var kept := Prune(scored, Keep(opts));
    ExpandSize(kept, d, cut);
    var n := |Survivors(kept, cut)|;
    if n > 0 {
      MulMonotone(1, n, d);
    }
  }

  /** Every candidate beyond the seed is a child of a sample the previous level
      scored below the cut and kept. */
  lemma Ancestry(opts: SearchOpts, score: Scorer, size0: nat, l: nat, c: nat)
    requires opts.dimPow2 > 0
    requires Reach(opts, score, size0, l + 1).Running?
    requires c in Reach(opts, score, size0, l + 1).cands
    ensures Reach(opts, score, size0, l).Running?
    ensures ScoreAll(score, l, Reach(opts, score, size0, l).cands).Some?
    ensures exists p | p in Prune(ScoreAll(score, l, Reach(opts, score, size0, l).cands).value, Keep(opts))
              :: p.score < opts.globalScoreCut && p.index == c / opts.dimPow2
  {
    var prev := Reach(opts, score, size0, l);
    var kept := Prune(ScoreAll(score, l, prev.cands).value, Keep(opts));
    ExpandMember(kept, opts.dimPow2, opts.globalScoreCut, c);
  }

  /** The parent of a candidate beyond the seed was itself a candidate. */
  lemma ParentIsCandidate(opts: SearchOpts, score: Scorer, size0: nat, l: nat, c: nat)
    requires opts.dimPow2 > 0
    requires Reach(opts, score, size0, l + 1).Running?
    requires c in Reach(opts, score, size0, l + 1).cands
    ensures Reach(opts, score, size0, l).Running?
    ensures c / opts.dimPow2 in Reach(opts, score, size0, l).cands
  {
    Ancestry(opts, score, size0, l, c);
    var prev := Reach(opts, score, size0, l);
    var scored := ScoreAll(score, l, prev.cands).value;
    var p :| p in Prune(scored, Keep(opts)) && p.score < opts.globalScoreCut
             && p.index == c / opts.dimPow2;
    PruneBound(scored, Keep(opts), p);
    ScoreAllSpec(score, l, prev.cands);
    var k :| 0 <= k < |scored| && scored[k] == p;
    assert prev.cands[k] == p.index;
  }

  /** The index of a level-`l` candidate encodes its level-0 ancestor: its parent
      taken `l` times is a cell of the coarsest grid. */
  lemma {:induction false} WithinSeedGrid(opts: SearchOpts, score: Scorer, size0: nat, l: nat, c: nat)
    requires opts.dimPow2 > 0
    requires Reach(opts, score, size0, l).Running?
    requires c in Reach(opts, score, size0, l).cands
    ensures Ancestor(c, opts.dimPow2, l) < size0
    decreases l
  {
    if l == 0 {
      var i :| 0 <= i < size0 && Seed(size0)[i] == c;
    } else {
      ParentIsCandidate(opts, score, size0, l - 1, c);
      WithinSeedGrid(opts, score, size0, l - 1, c / opts.dimPow2);
    }
  }
}
