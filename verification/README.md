# RIF docking core in Dafny

A model of the core of RifDock's docking driver (`rif_dock_test.cc`) and of its
rotamer energy tables (`riflib/rotamer_energy_tables.cc`), with proofs about it.

On the docking side the model covers these parts of the driver:

- the ladder of search resolutions;
- the choice of a fresh name for the score file;
- the attenuation of attractive steric voxels on coarse levels;
- the global/local residue maps and the masking of the one-body table by the native sequence;
- the hierarchical beam search over NEST sample indices: seed grid, scoring, `nth_element` beam cut, score cut, expansion into `DIMPOW2` children, failure and full final sort;
- the scoring of one sample: tether, symmetric clash check and the level-2 debug exit;
- the two counts that follow the search: how many samples are packed and how many are re-scored by Rosetta.

On the energy-table side it covers these:

- the one-body table: computing it relative to the native rotamer, its binary cache file, and post-processing with extra scores and the favourable-energy multiplier;
- the per-rotamer score fields: the cache file name, load versus build, the attraction scale and sharing with structural parents;
- the two-body table: the pair energy of two selected rotamers, the cap, dropping negligible pairs, the cache and the favourable-energy multiplier.

Geometry, Rosetta energies, voxel look-ups and hydrogen-bond ray scores are
abstract function parameters. Cache files and directories are values, passed in
as `Option`/`map` and returned as data: "found in the cache" is an input, and
"what gets written" is part of the result. Program aborts (`runtime_assert`,
`utility_exit_with_message`) are the `Err` or `None` cases of
`Result`/`Option`.

Modules, one per file:

- `Outcomes`: `Option` and `Result`.
- `HSearch`: the search loop.
- `SampleScoring`: the score of one sample.
- `DockSetup`: the steps around the search.
- `Decimal`: decimal spelling of counters.
- `ResidueMaps`: position maps and masking.
- `OnebodyCache`: the one-body cache file format.
- `Onebody`: the one-body table.
- `RotamerFields`: the per-rotamer fields.
- `Twobody`: the two-body table.

## Model

| member | source | states |
|---|---|---|
| DockSetup.ResolutionLadder | apps/rosetta/rif_dock_test.cc:155-160 | one resolution per RIF file (at least one), the i-th being resl0 / 2^i |
| DockSetup.LadderFiner | apps/rosetta/rif_dock_test.cc:156-160 | with a positive first resolution each level is strictly finer than every earlier one |
| DockSetup.CandidateInjective | apps/rosetta/rif_dock_test.cc:201-205 | different attempt numbers give different score-file names ("name", "name.2", "name.3", ...) |
| DockSetup.FreshOutputName | apps/rosetta/rif_dock_test.cc:201-212 | the chosen name is absent from the existing files, every earlier candidate is present, and the requested name is kept exactly when it does not exist |
| Decimal.ParseShow | apps/rosetta/rif_dock_test.cc:204 | the decimal spelling of the attempt counter reads back as the counter |
| Decimal.ShowInjective | apps/rosetta/rif_dock_test.cc:204 | distinct counters are spelled differently |
| DockSetup.AttenuatedLevels | apps/rosetta/rif_dock_test.cc:428-430 | the attenuated levels are the leading ones whose correction 1/resl is below one, up to the first that stops the loop |
| DockSetup.AttenuateByHierarchy | apps/rosetta/rif_dock_test.cc:423-444 | fails exactly when the grid levels do not match the ladder, whether or not downscaling is on; with downscaling off the grids come back unchanged; with it on, every grid keeps its presence and size, each negative voxel of an attenuated level is multiplied by 1/resl and every other voxel is left as it was |
| DockSetup.AttenuatedIffCoarse | apps/rosetta/rif_dock_test.cc:428-430 | on a ladder halving from a positive start, a level is attenuated exactly when its resolution is above 1 |
| ResidueMaps.BuildMaps | apps/rosetta/rif_dock_test.cc:629-636 | local position i maps to residue scaffoldRes[i]-1, a global position is used exactly when it is selected, used positions map back to the last local position naming them and unused ones to -1; with distinct selections g2l inverts l2g |
| ResidueMaps.MaskedEnergy | apps/rosetta/rif_dock_test.cc:683-702 | with the restriction on, a non-native non-alanine rotamer is forbidden (9e9); a native rotamer gets the bonus; without the restriction a non-native rotamer is unchanged |
| ResidueMaps.MaskBySequence | apps/rosetta/rif_dock_test.cc:683-702 | fails exactly when some option makes the loop read a residue past the sequence; otherwise the shape is kept, every entry is masked, and with both options off the table is unchanged |
| ResidueMaps.SplitOnebody | apps/rosetta/rif_dock_test.cc:704-711 | the local table holds the selected rows in local order; the global table forbids every rotamer at unselected positions, keeps selected rows, and agrees with the local table through l2g |
| SampleScoring.SampleScore | apps/rosetta/rif_dock_test.cc:1101-1152 | outside the tether the score is 9e9; scoring ends the program exactly when inside the tether with symmetry at level 2; otherwise the score is at least the objective, and equal to it without symmetry |
| SampleScoring.ClashSumNonNegative | apps/rosetta/rif_dock_test.cc:1131-1137 | the symmetric clash term never lowers a score |
| SampleScoring.ClashSumAppend | apps/rosetta/rif_dock_test.cc:1123-1143 | the clash term over all symmetry copies is the sum of the terms over the copies |
| SampleScoring.ClashSumZeroIff | apps/rosetta/rif_dock_test.cc:1134-1137 | the clash term is zero exactly when no atom score is positive |
| SampleScoring.NoSymmetryNeverExits | apps/rosetta/rif_dock_test.cc:1113-1152 | without symmetry the search is never ended by its scorer |
| SampleScoring.SymmetryExitsAtLevelTwo | apps/rosetta/rif_dock_test.cc:1114-1147 | a search ended by its scorer ended at level 2, with at least three levels and symmetry on |
| HSearch.Seed | apps/rosetta/rif_dock_test.cc:1057-1058 | level 0 holds the indices 0..size0-1 in order |
| HSearch.ScoreAllSpec | apps/rosetta/rif_dock_test.cc:1076-1227 | scoring a level succeeds exactly when every sample's scoring does, and then gives each sample its index and its score |
| HSearch.SortByScoreSpec | apps/rosetta/rif_dock_test.cc:1315-1316 | the final sort is an ascending permutation of the last level |
| HSearch.PruneSpec | apps/rosetta/rif_dock_test.cc:1277-1287 | with more than beam/DIMPOW2 samples, exactly that many are kept, drawn from the level, and none scores worse than a sample left out; otherwise the level is kept whole |
| HSearch.PruneBound | apps/rosetta/rif_dock_test.cc:1277-1287 | the beam never keeps more than its size unless the level is kept whole, and keeps only samples of the level |
| HSearch.ChildParent | apps/rosetta/rif_dock_test.cc:1301-1304 | c is a child of p exactly when c / DIMPOW2 == p, and it sits at offset c % DIMPOW2 |
| HSearch.SurvivorsMember | apps/rosetta/rif_dock_test.cc:1297-1299 | a kept sample is expanded exactly when its score is below the global score cut |
| HSearch.ExpandSize | apps/rosetta/rif_dock_test.cc:1297-1305 | the next level has DIMPOW2 candidates per survivor |
| HSearch.ExpandMember | apps/rosetta/rif_dock_test.cc:1297-1305 | a next-level index is present exactly when its parent is a kept sample below the cut |
| HSearch.ExpandLayout | apps/rosetta/rif_dock_test.cc:1297-1305 | the j-th child of the m-th survivor sits at position m*DIMPOW2+j |
| HSearch.ExpandLevel | apps/rosetta/rif_dock_test.cc:1297-1305 | the expansion loop computes the survivor-by-survivor list of children |
| HSearch.SearchLevel | apps/rosetta/rif_dock_test.cc:1062-1311 | one iteration of the loop body computes the level step of the search (add the level to the effort, score, cut the beam, expand, fail on an empty next level) and marks progress at the multiples of the corrected interval |
| HSearch.HierarchicalSearch | apps/rosetta/rif_dock_test.cc:1055-1316 | the loop computes the outcome of the search over all levels |
| HSearch.SearchFinished | apps/rosetta/rif_dock_test.cc:1295-1316 | a finished search reached and scored the last level, and its ranking is that level's samples in ascending order with the accumulated effort |
| HSearch.StoppedStays | apps/rosetta/rif_dock_test.cc:1306-1310 | once the search stops it stays stopped with the same outcome |
| HSearch.StopLevel | apps/rosetta/rif_dock_test.cc:1306-1310 | a stop seen at level m happened at an earlier level that was reached and running |
| HSearch.ExpandEmpty | apps/rosetta/rif_dock_test.cc:1297-1306 | the next level is empty exactly when no kept sample beats the cut |
| HSearch.NothingSurvivesEmpty | apps/rosetta/rif_dock_test.cc:1297-1306 | a scored level passes nothing on exactly when every kept sample scores at or above the cut |
| HSearch.SearchFailedIff | apps/rosetta/rif_dock_test.cc:1306-1310 | the search fails at level l exactly when l is not the last level and nothing of level l survives the cut |
| HSearch.FailedOnlyIf | apps/rosetta/rif_dock_test.cc:1306-1310 | a failure at l means l is not the last level and nothing survived it |
| HSearch.FailedIf | apps/rosetta/rif_dock_test.cc:1306-1310 | a non-last level where nothing survives makes the search fail there |
| HSearch.SearchExitedIff | apps/rosetta/rif_dock_test.cc:1076-1227 | the search ends inside the scoring of level l exactly when level l is reached and some of its samples cannot be scored |
| HSearch.ExitedOnlyIf | apps/rosetta/rif_dock_test.cc:1076-1227 | an exit at level l means level l exists and its scoring ended the program |
| HSearch.ExitedIf | apps/rosetta/rif_dock_test.cc:1076-1227 | a reached level whose scoring ends the program ends the search there |
| HSearch.TotalScorerNeverExits | apps/rosetta/rif_dock_test.cc:1076-1227 | a scorer that scores every sample never ends the search early |
| HSearch.BeamBound | apps/rosetta/rif_dock_test.cc:1279-1305 | beyond the seed no level holds more candidates than the beam size |
| HSearch.LaterLevelHoldsABlock | apps/rosetta/rif_dock_test.cc:1297-1310 | a running level beyond the seed holds at least DIMPOW2 candidates |
| HSearch.Ancestry | apps/rosetta/rif_dock_test.cc:1297-1305 | every candidate beyond the seed is a child of a kept sample of the previous level that beat the cut |
| HSearch.ParentIsCandidate | apps/rosetta/rif_dock_test.cc:1297-1305 | the parent index of every candidate beyond the seed was a candidate of the previous level |
| HSearch.WithinSeedGrid | apps/rosetta/rif_dock_test.cc:1055-1305 | the level-0 ancestor of every candidate lies inside the seed grid |
| DockSetup.CountNonPositive | apps/rosetta/rif_dock_test.cc:1357-1360 | the count is the length of the leading run of non-positive scores |
| DockSetup.PackCount | apps/rosetta/rif_dock_test.cc:1357-1363 | npack is the leading non-positive run, capped by effort * hack_pack_frac / (iters * mult), and stops short of that run only at the budget |
| DockSetup.FirstAbove | apps/rosetta/rif_dock_test.cc:1530-1535 | the count is the length of the leading run of scores at or below the threshold |
| DockSetup.LeadingRunUnique | apps/rosetta/rif_dock_test.cc:1530-1535 | the leading run of scores at or below a threshold has exactly one length, so the threshold fixes the re-scoring count |
| DockSetup.RoundUpToThreads | apps/rosetta/rif_dock_test.cc:1526 | the result is the least multiple of the thread count not below n |
| DockSetup.RescoreCount | apps/rosetta/rif_dock_test.cc:1522-1538 | minimizing: a multiple of the threads within one round above the floored fraction, score calculations unchanged; scoring: clamped to at-most and to the packed results, at least at-least when that is possible, with the threshold only results at or below it beyond at-least, and the calculations set to the count; exactly, the count is min(min(max(n0, at-least), at-most), packed results), where n0 is the floored share `score_fraction/40 * effort` without a threshold and the leading run of scores at or below the threshold with one |
| HSearch.ProgressIntervalAsWritten | apps/rosetta/rif_dock_test.cc:1063 | the search loop's interval is the number of whole fifties in the level size |
| HSearch.ProgressIntervalZero | apps/rosetta/rif_dock_test.cc:1063-1079 | for 1 to 49 samples the interval is 0, so the modulo that follows divides by zero |
| HSearch.ProgressInterval | apps/rosetta/rif_dock_test.cc:1541 | the interval is never below one (so the modulo is defined) and is size/50 from 50 samples on |
| HSearch.ProgressMarks | apps/rosetta/rif_dock_test.cc:1063-1079 | with the corrected interval, the marked samples are exactly the multiples of the interval below the level size, starting with sample 0 |
| OnebodyCache.LittleEndianRoundTrip | apps/rosetta/riflib/rotamer_energy_tables.cc:114-117 | a size written as 8 little-endian bytes reads back as itself |
| OnebodyCache.Encode | apps/rosetta/riflib/rotamer_energy_tables.cc:109-124 | the file starts with the row count and the rotamer count of the first row, 8 bytes each |
| OnebodyCache.Decode | apps/rosetta/riflib/rotamer_energy_tables.cc:76-96 | a table read back has the sizes of its header, both strictly between 0 and 99999, and is rectangular |
| OnebodyCache.ReadRowsShape | apps/rosetta/riflib/rotamer_energy_tables.cc:87-93 | reading rows gives the requested number of rows of the requested width |
| OnebodyCache.EntriesRoundTrip | apps/rosetta/riflib/rotamer_energy_tables.cc:88-93 | a written row reads back as itself and leaves the rest of the file |
| OnebodyCache.RowsRoundTrip | apps/rosetta/riflib/rotamer_energy_tables.cc:118-122 | written rows read back as themselves and leave the rest of the file |
| OnebodyCache.CacheRoundTrip | apps/rosetta/riflib/rotamer_energy_tables.cc:81-122 | loading a saved table gives the same table |
| OnebodyCache.TrailingBytes | apps/rosetta/riflib/rotamer_energy_tables.cc:94-95 | bytes after the entries are accepted exactly when they are all blank, and then the table is unchanged |
| Onebody.ComputeOnebody | apps/rosetta/riflib/rotamer_energy_tables.cc:242-356 | one row per residue and one entry per rotamer; a selected protein non-proline residue holds raw energy minus native energy, every other row 12345 |
| Onebody.RelativeToNative | apps/rosetta/riflib/rotamer_energy_tables.cc:351-356 | at a scored residue a rotamer as good as the native one scores 0, and entries order rotamers as their raw energies do |
| Onebody.Adjusted | apps/rosetta/riflib/rotamer_energy_tables.cc:142-149 | an entry below the cutoff after adding the extra score is multiplied, any other is just the sum |
| Onebody.PostProcess | apps/rosetta/riflib/rotamer_energy_tables.cc:127-151 | fails exactly when the extra scores miss a residue or a non-empty row has the wrong length; otherwise every entry is adjusted by its extra score and the multiplier |
| Onebody.ProcessedUnique | apps/rosetta/riflib/rotamer_energy_tables.cc:127-151 | post-processing a table has one outcome |
| Onebody.NeutralPostProcessing | apps/rosetta/riflib/rotamer_energy_tables.cc:127-151 | a consequence of PostProcess's contract, checked by unfolding: without extra scores and with multiplier 1 the table is unchanged |
| Onebody.GetOnebody | apps/rosetta/riflib/rotamer_energy_tables.cc:64-151 | with a cache hit the file is decoded (a bad file aborts) and nothing is written; otherwise the computed table is used and saved when a cache name is given; both paths are then post-processed |
| Onebody.CacheHitAgrees | apps/rosetta/riflib/rotamer_energy_tables.cc:76-124 | a later run that finds the cache file this run saved gets the same table and writes nothing |
| RotamerFields.ChiRoundTrip | apps/rosetta/riflib/rotamer_energy_tables.cc:441-445 | the underscore-joined chi values split back into the values |
| RotamerFields.CacheName | apps/rosetta/riflib/rotamer_energy_tables.cc:449-458 | every field cache file name ends in "__21atypes.rosetta_field.gz" |
| RotamerFields.ScaledFieldsNamedApart | apps/rosetta/riflib/rotamer_energy_tables.cc:455-457 | fields built with an attraction scale other than 1 are cached under a different name from unscaled ones |
| RotamerFields.ScaleAttractiveKeepsSigns | apps/rosetta/riflib/rotamer_energy_tables.cc:495-502 | a positive scale multiplies exactly the negative voxels, changes no sign, and scale 1 changes nothing |
| RotamerFields.BuildFields | apps/rosetta/riflib/rotamer_energy_tables.cc:486-502 | a built rotamer has 21 fields, bounding ones when the spread is at least 0.01, with the attraction scale applied |
| RotamerFields.SlotsOf | apps/rosetta/riflib/rotamer_energy_tables.cc:405-514 | slot 0 is empty, slot t holds the field of atom type t, and the table has 22 slots in a threaded build and 23 otherwise |
| RotamerFields.OneRotamer | apps/rosetta/riflib/rotamer_energy_tables.cc:382-516 | fails exactly when the atom-type count is not 21 or a canonical side-chain rotamer's cache file holds fewer than 21 fields |
| RotamerFields.Step | apps/rosetta/riflib/rotamer_energy_tables.cc:544-555 | after an earlier failure the failure is kept unchanged; otherwise it fails exactly when the atom-type count is not 21 or the rotamer is canonical with side-chain atoms and its cache file holds fewer than 21 fields, and on success the earlier rotamers' slots are kept, the rotamer's own slots and the cache directory are the ones processing it gives, and the table grows by one |
| RotamerFields.Pass | apps/rosetta/riflib/rotamer_energy_tables.cc:544-555 | processing the first n rotamers gives n slot tables, each with at least 22 slots |
| RotamerFields.OneRotamerRecords | apps/rosetta/riflib/rotamer_energy_tables.cc:466-508 | a rotamer adds its file only when the file is missing, keeps every existing file, and its slots then agree with its cache file |
| RotamerFields.OneRotamerLoads | apps/rosetta/riflib/rotamer_energy_tables.cc:466-479 | a rotamer whose file is already recorded loads the same slots and writes nothing |
| RotamerFields.PassRecords | apps/rosetta/riflib/rotamer_energy_tables.cc:544-555 | a pass only adds files, and every rotamer's slots agree with its cache file afterwards |
| RotamerFields.PassLoadsRecorded | apps/rosetta/riflib/rotamer_energy_tables.cc:466-479 | with every rotamer recorded, a pass only loads and returns the recorded slots |
| RotamerFields.CacheRerunAgrees | apps/rosetta/riflib/rotamer_energy_tables.cc:466-508 | a second run over the cache the first run left gets the same slots and writes nothing |
| RotamerFields.ShareParentFields | apps/rosetta/riflib/rotamer_energy_tables.cc:558-565 | canonical rotamers, slot 0 and slots past 21 are untouched; with canonical parents each rotamer's slots 1..21 are its parent's |
| RotamerFields.PerRotamerFields | apps/rosetta/riflib/rotamer_energy_tables.cc:519-574 | fails exactly when the atom-type count is wrong or some rotamer fails; otherwise canonical rotamers keep their own slots, others hold their parents' fields, and the cache is the one the pass left |
| RotamerFields.PassFieldsFromCache | apps/rosetta/riflib/rotamer_energy_tables.cc:466-508 | a canonical side-chain rotamer holds, for every atom type, the field its cache file stores |
| Twobody.AtomSumSpec | apps/rosetta/riflib/rotamer_energy_tables.cc:673-711 | the atom sum fails exactly when some side-chain atom has a type outside 1..21 or an atom score of 9999 or more, and otherwise is the plain sum of the atom scores |
| Twobody.Clamp | apps/rosetta/riflib/rotamer_energy_tables.cc:749-751 | an entry is never above 12345 and one at or below is unchanged |
| Twobody.FieldRotamer | apps/rosetta/riflib/rotamer_energy_tables.cc:673 | the pair is scored in the field of a rotamer with at least as many heavy atoms as the other: irot when it has strictly more, jrot otherwise, ties included |
| Twobody.Entry | apps/rosetta/riflib/rotamer_energy_tables.cc:670-751 | an entry is never above 12345; when the larger rotamer has no field, the entry fails exactly when it is not ALA, GLY or DAL, and otherwise is the capped hydrogen-bond part; when it has a field, the entry fails exactly when some side-chain atom (index 4 on) of the other rotamer has a type outside 1..21 or a score of 9999 or more, and otherwise is the capped sum of those atom scores plus the hydrogen-bond part |
| Twobody.RowSpec | apps/rosetta/riflib/rotamer_energy_tables.cc:666-755 | a row fails exactly when its rotamer number or some partner number is negative or some entry fails, and otherwise holds the entries |
| Twobody.BlockSpec | apps/rosetta/riflib/rotamer_energy_tables.cc:662-756 | a block fails exactly when some row fails, and otherwise holds the rows |
| Twobody.BlockEntries | apps/rosetta/riflib/rotamer_energy_tables.cc:662-756 | a block succeeds exactly when all selected numbers are non-negative and every entry succeeds, and then holds every entry |
| Twobody.RunMinAbove | apps/rosetta/riflib/rotamer_energy_tables.cc:657-753 | the running minimum is above c exactly when its start and every entry are |
| Twobody.RunMaxBelow | apps/rosetta/riflib/rotamer_energy_tables.cc:657-754 | the running maximum is below c exactly when its start and every entry are |
| Twobody.DroppedIff | apps/rosetta/riflib/rotamer_energy_tables.cc:657-759 | a pair is cleared exactly when every entry lies strictly within 0.01 of zero, so a pair without entries is cleared |
| Twobody.PairsMember | apps/rosetta/riflib/rotamer_energy_tables.cc:627-638 | the pairs visited are exactly those with jr < ir < nres |
| Twobody.FillFails | apps/rosetta/riflib/rotamer_energy_tables.cc:627-774 | filling fails exactly when the block of some considered pair fails |
| Twobody.FillStores | apps/rosetta/riflib/rotamer_energy_tables.cc:638-760 | a listed pair is stored exactly when considered and not dropped, with its block; other pairs are as they were |
| Twobody.MakeTwobody | apps/rosetta/riflib/rotamer_energy_tables.cc:595-607 | a one-body table with the wrong number of residues or rotamers aborts the build |
| Twobody.MakeTwobodyStores | apps/rosetta/riflib/rotamer_energy_tables.cc:627-760 | the table holds (ir, jr) exactly when jr < ir, both are protein within the distance cut and some entry is not negligible; the block holds the entries of the selected rotamers, each at most 12345 |
| Twobody.BlockFailsIff | apps/rosetta/riflib/rotamer_energy_tables.cc:662-711 | a pair's block fails exactly when a selected number is negative or some entry fails |
| Twobody.PairsFailIff | apps/rosetta/riflib/rotamer_energy_tables.cc:627-774 | filling all pairs fails exactly when some considered pair fails |
| Twobody.MakeTwobodyFails | apps/rosetta/riflib/rotamer_energy_tables.cc:595-774 | the build fails exactly when the one-body shape is wrong or some considered pair fails |
| Twobody.ScaleFavourable | apps/rosetta/riflib/rotamer_energy_tables.cc:809-822 | scaling keeps the stored pairs |
| Twobody.ScaleFavourableSpec | apps/rosetta/riflib/rotamer_energy_tables.cc:809-822 | the pointwise reading of ScaleFavourable's definition, checked by unfolding: scaling keeps each block's shape and non-negative entries and multiplies the negative ones |
| Twobody.UnitScaleIsIdentity | apps/rosetta/riflib/rotamer_energy_tables.cc:809 | a multiplier of 1 changes nothing, so skipping it then is only an optimisation |
| Twobody.GetTwobody | apps/rosetta/riflib/rotamer_energy_tables.cc:778-825 | a cache hit returns the cached table and description, scaled, writing nothing; otherwise the build's failure is passed on, the description defaults when empty, the built table is saved under a cache name, and the scaled table is returned |
| Twobody.TwobodyCacheHitAgrees | apps/rosetta/riflib/rotamer_energy_tables.cc:790-806 | a consequence of GetTwobody's contract, checked by unfolding: a later run that finds the saved cache gets the same table and description whatever description it passes |

## Left out

- Floating point: `float` is modelled as `real`. Single-precision rounding of the resolution ladder, the corrections and the sums is not modelled. Nor is how `lexical_cast` and `%.2f` format numbers: the option and chi texts are inputs.
- Integer widths: `uint64_t` sample indices and `size_t` counts are unbounded.
- DockSetup.RescoreCount: the `int` casts of the clamping step are not modelled as truncation, and the options are natural numbers.
- HSearch.Prune: `nth_element` is replaced by a stable sort. `nth_element` promises only the partition that `PruneSpec` states, so among ties the kept set can differ.
- HSearch.Search: the number of level-0 samples that beat the cut (`non0_space_size`) is only printed, and is not modelled.
- HSearch.SortByScore: the final `__gnu_parallel::sort` can order ties differently.
- Parallelism: the OpenMP loops and their exception capture run sequentially in the model. The model reports the first error in index order; the program reports whichever thread raised one first.
- Geometry is abstract. These are all function parameters:
  - RIF scores, tether distances and symmetric clash atom scores;
  - Rosetta one-body and pair energies;
  - field voxel values and field atom scores;
  - hydrogen-bond ray scores.
- PDB dumping, timing, logging and all printing other than the progress marks of the search loop (HSearch.ProgressMarks) are not modelled.
- RotamerFields.OneRotamer: the on-disk format of the voxel arrays is not modelled. A cache file is the list of fields it holds, and a short file is an error. Creating the data directory is not modelled.
- RotamerFields.SlotsOf: the source keeps 23 slots for built rotamers only when OpenMP is off. The `threaded` flag stands for that build switch.
- Twobody.MakeTwobody: `TwoBodyTable` is not part of this model.
  - The rotamer selection of `init_onebody_filter` (`sel2all_`, `nsel_`) is an input.
  - The unused count of favourable one-body entries (`avg`) is not modelled.
  - The reversed order in which the selected rotamers of `ir` are visited changes no entry and is not modelled.
- Twobody.GetTwobody: `TwoBodyTable`'s load/save format and its symmetric look-up are not modelled; the saved value is the table and description as data. With an empty cache name the source still opens an output stream and saves, but the model records no write then.
- Cache writes: the model treats writing as always succeeding. In the source, failing to open a one-body cache file for writing aborts the run.
- Onebody.GetOnebody: saving reads the width of the first row, so the source needs a non-empty table. The precondition asks for that when a cache name is given and there is no hit. The replacement by alanine is part of the abstract energies.
- `RifGeneratorUserHotspots.cc` is not part of this model.

## Findings

| source | as written | input that shows it | evidently intended | confidence | as-written member | corrected member |
|---|---|---|---|---|---|---|
| apps/rosetta/rif_dock_test.cc:1063 | the progress interval of a search level is `size/50`, and sample `i` is marked when `i % interval == 0` | a level with 1 to 49 samples, e.g. a seed grid of 10 samples: the interval is 0 and `0 % 0` divides by zero | an interval of at least one, as the re-scoring loop computes it at line 1541 | not executed | HSearch.ProgressIntervalZero | HSearch.ProgressInterval |
