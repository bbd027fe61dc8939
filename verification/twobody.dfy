/** The two-body rotamer energy table of a scaffold: for every pair of protein
    residues jr < ir whose CA atoms are within the distance cut, the energy of
    every selected rotamer of ir against every selected rotamer of jr. Pairs
    whose energies are all negligible are not stored. The table is built from
    the per-rotamer fields or read from its cache, and favourable entries are
    then scaled. Geometry, field lookups and hydrogen-bond ray scores are
    abstract functions. */
module Twobody {
  import opened Outcomes
  import RotamerFields

  /** Entries above this are capped at it. */
  const Cap: real := 12345.0

  /** An atom score at or above this aborts the build. */
  const AtomScoreLimit: real := 9999.0

  /** A pair whose entries all lie strictly within this of zero is dropped. */
  const Negligible: real := 0.01

  /** The starting values of the running minimum and maximum of a pair. */
  const MinStart: real := 9000000000.0
  const MaxStart: real := -9000000000.0

  /** The description saved with a freshly built table when the caller gave
      none. */
  const DefaultDescription: string := "No description, Will sucks. Complain to willsheffler@gmail.com\n"

  /** What the table needs of a rotamer: its residue name, heavy-atom count,
      atom types, and whether it has hydrogen-bond donor or acceptor rays. */
  datatype Rotamer = Rotamer(resname: string, nheavy: nat, atomTypes: seq<int>, hasRays: bool)

  /** The build inputs. `dist2(ir, jr)` is the squared CA distance,
      `hasField(rot)` says whether the rotamer has fields (its slot 1 is set),
      `atomScore(ir, jr, fieldRot, atomRot, a)` is the field value of
      `fieldRot` at atom `a` of `atomRot` placed against it, and
      `hbond(ir, jr, irot, jrot)` the weighted hydrogen-bond ray score. */
  datatype Inputs = Inputs(rots: seq<Rotamer>, isProtein: seq<bool>,
                           dist2: (nat, nat) -> real, distanceCut: real,
                           hasField: nat -> bool,
                           atomScore: (nat, nat, nat, nat, nat) -> real,
                           hbond: (nat, nat, nat, nat) -> real)

  /** Stored pairs (ir, jr) with jr < ir, each a block indexed by the selected
      rotamers of ir and then of jr. */
  type Table = map<(nat, nat), seq<seq<real>>>

  predicate ValidRotamers(rots: seq<Rotamer>) {
    forall r | 0 <= r < |rots| :: rots[r].nheavy <= |rots[r].atomTypes|
  }

  /** Rotamers without side-chain atoms to build a field from. */
  predicate FieldFree(resname: string) {
    resname == "ALA" || resname == "GLY" || resname == "DAL"
  }

  // ---------------------------------------------------------------------
  // A generic map over a sequence that stops at the first failure

  function MapAll<A, B>(xs: seq<A>, f: A -> Result<B, string>): (r: Result<seq<B>, string>)
    ensures r.Ok? ==> |r.value| == |xs|
    decreases |xs|
  {
    if xs == [] then Ok([])
    else match f(xs[0])
      case Err(e) => Err(e)
      case Ok(y) =>
        match MapAll(xs[1..], f)
        case Err(e) => Err(e)
        case Ok(ys) => Ok([y] + ys)
  }

  lemma {:induction false} MapAllSpec<A, B>(xs: seq<A>, f: A -> Result<B, string>)
    ensures MapAll(xs, f).Ok? <==> forall i | 0 <= i < |xs| :: f(xs[i]).Ok?
    ensures MapAll(xs, f).Ok? ==> forall i | 0 <= i < |xs| :: MapAll(xs, f).value[i] == f(xs[i]).value
    decreases |xs|
  {
    if xs != [] {
      MapAllSpec(xs[1..], f);
      assert forall i | 1 <= i < |xs| :: xs[1..][i - 1] == xs[i];
    }
  }

  // ---------------------------------------------------------------------
  // One entry

  /** The field-based part of an entry: the scores of the side-chain atoms of
      `atomRot` in the field of `fieldRot`, from atom `a` on. An atom type
      outside 1..21 or an atom score of 9999 or more aborts the build. */
  function AtomSum(inp: Inputs, ir: nat, jr: nat, fieldRot: nat, atomRot: nat, a: nat): (r: Result<real, string>)
    requires atomRot < |inp.rots| && ValidRotamers(inp.rots)
    decreases inp.rots[atomRot].nheavy - a
  {
    if a >= inp.rots[atomRot].nheavy then Ok(0.0)
    else
      var t := inp.rots[atomRot].atomTypes[a];
      if !(0 < t < 22) then Err("atom type out of range")
      else
        var s := inp.atomScore(ir, jr, fieldRot, atomRot, a);
        if s >= AtomScoreLimit then Err("very high atomscore")
        else match AtomSum(inp, ir, jr, fieldRot, atomRot, a + 1)
          case Err(e) => Err(e)
          case Ok(rest) => Ok(s + rest)
  }

  /** Atom `b` of `atomRot` aborts the build: its type is outside 1..21 or its
      score in the field of `fieldRot` is 9999 or more. */
  predicate BadAtom(inp: Inputs, ir: nat, jr: nat, fieldRot: nat, atomRot: nat, b: nat)
    requires atomRot < |inp.rots| && ValidRotamers(inp.rots) && b < inp.rots[atomRot].nheavy
  {
    !(0 < inp.rots[atomRot].atomTypes[b] < 22) || inp.atomScore(ir, jr, fieldRot, atomRot, b) >= AtomScoreLimit
  }

  /** The plain sum of the scores of atoms `a` and on of `atomRot` in the field
      of `fieldRot`, with no checks. */
  function ScoreSum(inp: Inputs, ir: nat, jr: nat, fieldRot: nat, atomRot: nat, a: nat): real
    requires atomRot < |inp.rots|
    decreases inp.rots[atomRot].nheavy - a
  {
    if a >= inp.rots[atomRot].nheavy then 0.0
    else inp.atomScore(ir, jr, fieldRot, atomRot, a) + ScoreSum(inp, ir, jr, fieldRot, atomRot, a + 1)
  }

  /** The atom sum fails exactly when some atom from `a` on has a bad type or
      too high a score; otherwise it is the plain sum of the atom scores. */
  lemma {:induction false} AtomSumSpec(inp: Inputs, ir: nat, jr: nat, fieldRot: nat, atomRot: nat, a: nat)
    requires atomRot < |inp.rots| && ValidRotamers(inp.rots)
    ensures AtomSum(inp, ir, jr, fieldRot, atomRot, a).Err? <==>
      exists b | a <= b < inp.rots[atomRot].nheavy :: BadAtom(inp, ir, jr, fieldRot, atomRot, b)
    ensures AtomSum(inp, ir, jr, fieldRot, atomRot, a).Ok? ==>
      AtomSum(inp, ir, jr, fieldRot, atomRot, a).value == ScoreSum(inp, ir, jr, fieldRot, atomRot, a)
    decreases inp.rots[atomRot].nheavy - a
  {
    if a < inp.rots[atomRot].nheavy {
      AtomSumSpec(inp, ir, jr, fieldRot, atomRot, a + 1);
      if BadAtom(inp, ir, jr, fieldRot, atomRot, a) {
        assert exists b | a <= b < inp.rots[atomRot].nheavy :: BadAtom(inp, ir, jr, fieldRot, atomRot, b);
      } else {
        assert (exists b | a <= b < inp.rots[atomRot].nheavy :: BadAtom(inp, ir, jr, fieldRot, atomRot, b)) <==>
               (exists b | a + 1 <= b < inp.rots[atomRot].nheavy :: BadAtom(inp, ir, jr, fieldRot, atomRot, b));
      }
    }
  }

  function Clamp(v: real): (r: real)
    ensures r <= Cap
    ensures v <= Cap ==> r == v
  {
    if v > Cap then Cap else v
  }

  /** The rotamer whose field scores the pair: `irot` only when it has strictly
      more heavy atoms, `jrot` otherwise. */
  function FieldRotamer(inp: Inputs, irot: nat, jrot: nat): (f: nat)
    requires irot < |inp.rots| && jrot < |inp.rots|
    ensures f == irot || f == jrot
    ensures inp.rots[f].nheavy >= inp.rots[if f == irot then jrot else irot].nheavy
    ensures inp.rots[irot].nheavy > inp.rots[jrot].nheavy ==> f == irot
    ensures inp.rots[irot].nheavy <= inp.rots[jrot].nheavy ==> f == jrot
  {
    if inp.rots[irot].nheavy > inp.rots[jrot].nheavy then irot else jrot
  }

  /** The rotamer whose atoms are scored in the other's field. */
  function AtomRotamer(inp: Inputs, irot: nat, jrot: nat): (a: nat)
    requires irot < |inp.rots| && jrot < |inp.rots|
    ensures a == irot || a == jrot
    ensures irot != jrot ==> a != FieldRotamer(inp, irot, jrot)
  {
    if FieldRotamer(inp, irot, jrot) == irot then jrot else irot
  }

  /** The hydrogen-bond part of an entry: the ray score when `irot` has donor
      or acceptor rays, zero otherwise. */
  function HbPart(inp: Inputs, ir: nat, jr: nat, irot: nat, jrot: nat): real
    requires irot < |inp.rots|
  {
    if inp.rots[irot].hasRays then inp.hbond(ir, jr, irot, jrot) else 0.0
  }

  /** The energy of rotamer `irot` at ir against rotamer `jrot` at jr: the
      side-chain atoms of the smaller rotamer scored in the larger one's fields
      (zero for a rotamer without fields that is ALA, GLY or DAL, a failure for
      any other without fields), plus the hydrogen-bond ray score when irot has
      rays, capped at 12345. */
  function Entry(inp: Inputs, ir: nat, jr: nat, irot: nat, jrot: nat): (r: Result<real, string>)
    requires irot < |inp.rots| && jrot < |inp.rots| && ValidRotamers(inp.rots)
    ensures r.Ok? ==> r.value <= Cap
    ensures !inp.hasField(FieldRotamer(inp, irot, jrot)) ==>
      (r.Err? <==> !FieldFree(inp.rots[FieldRotamer(inp, irot, jrot)].resname))
    ensures !inp.hasField(FieldRotamer(inp, irot, jrot)) && r.Ok? ==>
      r.value == Clamp(HbPart(inp, ir, jr, irot, jrot))
    ensures inp.hasField(FieldRotamer(inp, irot, jrot)) ==>
      (r.Err? <==> exists b | RotamerFields.FirstSideChainAtom <= b < inp.rots[AtomRotamer(inp, irot, jrot)].nheavy ::
                     BadAtom(inp, ir, jr, FieldRotamer(inp, irot, jrot), AtomRotamer(inp, irot, jrot), b))
    ensures inp.hasField(FieldRotamer(inp, irot, jrot)) && r.Ok? ==>
      r.value == Clamp(ScoreSum(inp, ir, jr, FieldRotamer(inp, irot, jrot), AtomRotamer(inp, irot, jrot),
                                RotamerFields.FirstSideChainAtom) + HbPart(inp, ir, jr, irot, jrot))
  {
    var f := FieldRotamer(inp, irot, jrot);
    var other := AtomRotamer(inp, irot, jrot);
    AtomSumSpec(inp, ir, jr, f, other, RotamerFields.FirstSideChainAtom);
    var lj: Result<real, string> :=
      if inp.hasField(f) then AtomSum(inp, ir, jr, f, other, RotamerFields.FirstSideChainAtom)
      else if FieldFree(inp.rots[f].resname) then Ok(0.0)
      else Err("no rotamer field");
    match lj
    case Err(e) => Err(e)
    case Ok(v) => Ok(Clamp(v + HbPart(inp, ir, jr, irot, jrot)))
  }

  // ---------------------------------------------------------------------
  // One pair

  /** The entry of selected rotamer `irot` against each selected rotamer of
      jr. Selected rotamer numbers must not be negative. */
  function EntryAgainst(inp: Inputs, ir: nat, jr: nat, irot: nat): int -> Result<real, string>
    requires irot < |inp.rots| && ValidRotamers(inp.rots)
  {
    (jrot: int) =>
      if jrot < 0 || jrot >= |inp.rots| then Err("negative rotamer number")
      else Entry(inp, ir, jr, irot, jrot)
  }

  function RowOf(inp: Inputs, ir: nat, jr: nat, irot: int, jsel: seq<int>): Result<seq<real>, string>
    requires ValidRotamers(inp.rots)
  {
    if irot < 0 || irot >= |inp.rots| then Err("negative rotamer number")
    else MapAll(jsel, EntryAgainst(inp, ir, jr, irot))
  }

  function RowFor(inp: Inputs, ir: nat, jr: nat, jsel: seq<int>): int -> Result<seq<real>, string>
    requires ValidRotamers(inp.rots)
  {
    (irot: int) => RowOf(inp, ir, jr, irot, jsel)
  }

  function BlockOf(inp: Inputs, ir: nat, jr: nat, isel: seq<int>, jsel: seq<int>): Result<seq<seq<real>>, string>
    requires ValidRotamers(inp.rots)
  {
    MapAll(isel, RowFor(inp, ir, jr, jsel))
  }

  /** Every selected rotamer number is a rotamer. */
  predicate SelInRange(inp: Inputs, sel: seq<seq<int>>) {
    forall r, k | 0 <= r < |sel| && 0 <= k < |sel[r]| :: sel[r][k] < |inp.rots|
  }

  /** A row fails exactly when its rotamer number or some entry's is negative
      or some entry fails; otherwise it holds the entries. */
  lemma RowSpec(inp: Inputs, ir: nat, jr: nat, irot: int, jsel: seq<int>)
    requires ValidRotamers(inp.rots) && irot < |inp.rots|
    requires forall k | 0 <= k < |jsel| :: jsel[k] < |inp.rots|
    ensures RowOf(inp, ir, jr, irot, jsel).Ok? <==>
      irot >= 0 && forall b | 0 <= b < |jsel| :: jsel[b] >= 0 && Entry(inp, ir, jr, irot, jsel[b]).Ok?
    ensures RowOf(inp, ir, jr, irot, jsel).Ok? ==>
      |RowOf(inp, ir, jr, irot, jsel).value| == |jsel| &&
      forall b | 0 <= b < |jsel| :: RowOf(inp, ir, jr, irot, jsel).value[b] == Entry(inp, ir, jr, irot, jsel[b]).value
  {
    if irot >= 0 {
      MapAllSpec(jsel, EntryAgainst(inp, ir, jr, irot));
    }
  }

  /** The block of a pair fails exactly when some selected rotamer number is
      negative or some entry fails; otherwise it holds every entry. */
  lemma BlockSpec(inp: Inputs, ir: nat, jr: nat, isel: seq<int>, jsel: seq<int>)
    requires ValidRotamers(inp.rots)
    requires forall k | 0 <= k < |isel| :: isel[k] < |inp.rots|
    requires forall k | 0 <= k < |jsel| :: jsel[k] < |inp.rots|
    ensures BlockOf(inp, ir, jr, isel, jsel).Ok? <==>
      forall a | 0 <= a < |isel| :: RowOf(inp, ir, jr, isel[a], jsel).Ok?
    ensures BlockOf(inp, ir, jr, isel, jsel).Ok? ==>
      var block := BlockOf(inp, ir, jr, isel, jsel).value;
      |block| == |isel| &&
      forall a | 0 <= a < |isel| :: block[a] == RowOf(inp, ir, jr, isel[a], jsel).value
  {
    MapAllSpec(isel, RowFor(inp, ir, jr, jsel));
  }

  /** The block of a pair in terms of its entries. */
  lemma BlockEntries(inp: Inputs, ir: nat, jr: nat, isel: seq<int>, jsel: seq<int>)
    requires ValidRotamers(inp.rots)
    requires forall k | 0 <= k < |isel| :: isel[k] < |inp.rots|
    requires forall k | 0 <= k < |jsel| :: jsel[k] < |inp.rots|
    ensures BlockOf(inp, ir, jr, isel, jsel).Ok? <==>
      (forall a | 0 <= a < |isel| :: isel[a] >= 0) &&
      forall a, b | 0 <= a < |isel| && 0 <= b < |jsel| ::
        isel[a] >= 0 && jsel[b] >= 0 && Entry(inp, ir, jr, isel[a], jsel[b]).Ok?
    ensures BlockOf(inp, ir, jr, isel, jsel).Ok? ==>
      var block := BlockOf(inp, ir, jr, isel, jsel).value;
      |block| == |isel| &&
      forall a | 0 <= a < |isel| :: |block[a]| == |jsel| &&
        forall b | 0 <= b < |jsel| ::
          isel[a] >= 0 && jsel[b] >= 0 && Entry(inp, ir, jr, isel[a], jsel[b]).Ok? &&
          block[a][b] == Entry(inp, ir, jr, isel[a], jsel[b]).value
  {
    BlockSpec(inp, ir, jr, isel, jsel);
    forall a | 0 <= a < |isel| {
      RowSpec(inp, ir, jr, isel[a], jsel);
    }
  }

  // ---------------------------------------------------------------------
  // Dropping negligible pairs

  function Flatten(block: seq<seq<real>>): seq<real>
    decreases |block|
  {
    if block == [] then [] else block[0] + Flatten(block[1..])
  }

  lemma {:induction false} FlattenMember(block: seq<seq<real>>, x: real)
    ensures x in Flatten(block) <==> exists a, b | 0 <= a < |block| && 0 <= b < |block[a]| :: block[a][b] == x
    decreases |block|
  {
    if block != [] {
      FlattenMember(block[1..], x);
      if x in Flatten(block[1..]) {
        var a, b :| 0 <= a < |block[1..]| && 0 <= b < |block[1..][a]| && block[1..][a][b] == x;
        assert block[a + 1][b] == x;
      }
      if exists a, b | 0 <= a < |block| && 0 <= b < |block[a]| :: block[a][b] == x {
        var a, b :| 0 <= a < |block| && 0 <= b < |block[a]| && block[a][b] == x;
        if a > 0 {
          assert block[1..][a - 1][b] == x;
        }
      }
    }
  }

  /** The running minimum and maximum over the entries, as the build keeps them. */
  function RunMin(xs: seq<real>, acc: real): real
    decreases |xs|
  {
    if xs == [] then acc else RunMin(xs[1..], if xs[0] < acc then xs[0] else acc)
  }

  function RunMax(xs: seq<real>, acc: real): real
    decreases |xs|
  {
    if xs == [] then acc else RunMax(xs[1..], if xs[0] > acc then xs[0] else acc)
  }

  lemma {:induction false} RunMinAbove(xs: seq<real>, acc: real, c: real)
    ensures RunMin(xs, acc) > c <==> acc > c && forall i | 0 <= i < |xs| :: xs[i] > c
    decreases |xs|
  {
    if xs != [] {
      RunMinAbove(xs[1..], if xs[0] < acc then xs[0] else acc, c);
      assert forall i | 1 <= i < |xs| :: xs[1..][i - 1] == xs[i];
    }
  }


  lemma {:induction false} RunMaxBelow(xs: seq<real>, acc: real, c: real)
    ensures RunMax(xs, acc) < c <==> acc < c && forall i | 0 <= i < |xs| :: xs[i] < c
    decreases |xs|
  {
    if xs != [] {
      RunMaxBelow(xs[1..], if xs[0] > acc then xs[0] else acc, c);
      assert forall i | 1 <= i < |xs| :: xs[1..][i - 1] == xs[i];
    }
  }


  /** The build's test for dropping a pair. */
  predicate Dropped(block: seq<seq<real>>) {
    RunMin(Flatten(block), MinStart) > -Negligible && RunMax(Flatten(block), MaxStart) < Negligible
  }

  /** A pair is dropped exactly when every entry is within 0.01 of zero; a pair
      without selected rotamers is dropped. */
  lemma DroppedIff(block: seq<seq<real>>)
    ensures Dropped(block) <==>
      forall a, b | 0 <= a < |block| && 0 <= b < |block[a]| :: -Negligible < block[a][b] < Negligible
  {
    var flat := Flatten(block);
    RunMinAbove(flat, MinStart, -Negligible);
    RunMaxBelow(flat, MaxStart, Negligible);
    if forall i | 0 <= i < |flat| :: -Negligible < flat[i] < Negligible {
      forall a, b | 0 <= a < |block| && 0 <= b < |block[a]| ensures -Negligible < block[a][b] < Negligible {
        FlattenMember(block, block[a][b]);
      }
    }
    if forall a, b | 0 <= a < |block| && 0 <= b < |block[a]| :: -Negligible < block[a][b] < Negligible {
      forall i | 0 <= i < |flat| ensures -Negligible < flat[i] < Negligible {
        FlattenMember(block, flat[i]);
      }
    }
  }

  // ---------------------------------------------------------------------
  // The whole table

  /** Pairs (ir, jr) with jr < ir < n, by ir and then jr. */
  function Pairs(n: nat): (ps: seq<(nat, nat)>)
    decreases n
  {
    if n == 0 then [] else Pairs(n - 1) + seq(n - 1, jr requires 0 <= jr < n - 1 => (n - 1, jr))
  }

  lemma {:induction false} PairsMember(n: nat, ir: nat, jr: nat)
    ensures (ir, jr) in Pairs(n) <==> jr < ir < n
    decreases n
  {
    if n > 0 {
      PairsMember(n - 1, ir, jr);
      var row := seq(n - 1, jr' requires 0 <= jr' < n - 1 => (n - 1, jr'));
      if ir == n - 1 && jr < ir {
        assert row[jr] == (ir, jr);
      }
    }
  }

  /** The pairs the build scores: two protein residues within the distance
      cut. */
  predicate Considered(inp: Inputs, ir: nat, jr: nat)
    requires ir < |inp.isProtein| && jr < |inp.isProtein|
  {
    inp.isProtein[ir] && inp.isProtein[jr] && inp.dist2(ir, jr) <= inp.distanceCut * inp.distanceCut
  }

  predicate PairsIn(pairs: seq<(nat, nat)>, nres: nat) {
    forall k | 0 <= k < |pairs| :: pairs[k].0 < nres && pairs[k].1 < nres
  }

  /** Scores the pairs in order, storing each pair that is not dropped; the
      first failure aborts the build. */
  function Fill(inp: Inputs, sel: seq<seq<int>>, pairs: seq<(nat, nat)>, table: Table): (r: Result<Table, string>)
    requires ValidRotamers(inp.rots) && |sel| == |inp.isProtein| && PairsIn(pairs, |sel|)
    decreases |pairs|
  {
    if pairs == [] then Ok(table)
    else
      var (ir, jr) := pairs[0];
      if !Considered(inp, ir, jr) then Fill(inp, sel, pairs[1..], table)
      else match BlockOf(inp, ir, jr, sel[ir], sel[jr])
        case Err(e) => Err(e)
        case Ok(block) =>
          Fill(inp, sel, pairs[1..], if Dropped(block) then table else table[(ir, jr) := block])
  }

  /** Filling fails exactly when the block of some considered pair fails. */
  lemma {:induction false} FillFails(inp: Inputs, sel: seq<seq<int>>, pairs: seq<(nat, nat)>, table: Table)
    requires ValidRotamers(inp.rots) && |sel| == |inp.isProtein| && PairsIn(pairs, |sel|)
    ensures Fill(inp, sel, pairs, table).Err? <==>
      exists k | 0 <= k < |pairs| :: Considered(inp, pairs[k].0, pairs[k].1) &&
        BlockOf(inp, pairs[k].0, pairs[k].1, sel[pairs[k].0], sel[pairs[k].1]).Err?
    decreases |pairs|
  {
    if pairs != [] {
      var (ir, jr) := pairs[0];
      var next := if !Considered(inp, ir, jr) || BlockOf(inp, ir, jr, sel[ir], sel[jr]).Err? then table
                  else if Dropped(BlockOf(inp, ir, jr, sel[ir], sel[jr]).value) then table
                  else table[(ir, jr) := BlockOf(inp, ir, jr, sel[ir], sel[jr]).value];
      FillFails(inp, sel, pairs[1..], next);
      assert forall k | 1 <= k < |pairs| :: pairs[1..][k - 1] == pairs[k];
    }
  }

  /** What a successful fill stores: a pair of the list is stored exactly when
      it is considered and not dropped (or was stored before), with its block;
      other pairs are as before. */
  lemma {:induction false} FillStores(inp: Inputs, sel: seq<seq<int>>, pairs: seq<(nat, nat)>, table: Table,
                                      ir: nat, jr: nat)
    requires ValidRotamers(inp.rots) && |sel| == |inp.isProtein| && PairsIn(pairs, |sel|)
    requires Fill(inp, sel, pairs, table).Ok?
    requires ir < |sel| && jr < |sel|
    ensures var r := Fill(inp, sel, pairs, table).value;
      if (ir, jr) in pairs && Considered(inp, ir, jr) && BlockOf(inp, ir, jr, sel[ir], sel[jr]).Ok? &&
         !Dropped(BlockOf(inp, ir, jr, sel[ir], sel[jr]).value)
      then (ir, jr) in r && r[(ir, jr)] == BlockOf(inp, ir, jr, sel[ir], sel[jr]).value
      else ((ir, jr) in r <==> (ir, jr) in table) && ((ir, jr) in table ==> r[(ir, jr)] == table[(ir, jr)])
    decreases |pairs|
  {
    if pairs != [] {
      var p := pairs[0];
      var next := if !Considered(inp, p.0, p.1) || BlockOf(inp, p.0, p.1, sel[p.0], sel[p.1]).Err? then table
                  else if Dropped(BlockOf(inp, p.0, p.1, sel[p.0], sel[p.1]).value) then table
                  else table[p := BlockOf(inp, p.0, p.1, sel[p.0], sel[p.1]).value];
      FillStores(inp, sel, pairs[1..], next, ir, jr);
      assert (ir, jr) in pairs <==> (ir, jr) == p || (ir, jr) in pairs[1..];
    }
  }

  /** Builds the table from the one-body table (which must have one row per
      residue and one entry per rotamer) and the selected rotamers of every
      residue. */
  function MakeTwobody(inp: Inputs, onebody: seq<seq<real>>, sel: seq<seq<int>>): (r: Result<Table, string>)
    requires ValidRotamers(inp.rots) && |sel| == |inp.isProtein| && SelInRange(inp, sel)
    ensures (|onebody| != |inp.isProtein| ||
             exists i | 0 <= i < |onebody| :: |onebody[i]| != |inp.rots|) ==> r.Err?
  {
    if |onebody| != |inp.isProtein| then Err("one-body table has the wrong number of residues")
    else if exists i | 0 <= i < |onebody| :: |onebody[i]| != |inp.rots| then
      Err("one-body table has the wrong number of rotamers")
    else
      PairsInRange(|sel|);
      Fill(inp, sel, Pairs(|sel|), map[])
  }

  lemma PairsInRange(n: nat)
    ensures PairsIn(Pairs(n), n)
  {
    forall k | 0 <= k < |Pairs(n)| ensures Pairs(n)[k].0 < n && Pairs(n)[k].1 < n {
      PairsMember(n, Pairs(n)[k].0, Pairs(n)[k].1);
    }
  }

  /** A built table holds pair (ir, jr) exactly when jr < ir, both residues are
      protein, their CA atoms are within the cut, and not every entry is within
      0.01 of zero; it holds the pair's block, whose entries are the pair
      energies of the selected rotamers and never above 12345. */
  lemma MakeTwobodyStores(inp: Inputs, onebody: seq<seq<real>>, sel: seq<seq<int>>, ir: nat, jr: nat)
    requires ValidRotamers(inp.rots) && |sel| == |inp.isProtein| && SelInRange(inp, sel)
    requires MakeTwobody(inp, onebody, sel).Ok?
    requires ir < |sel| && jr < |sel|
    ensures (ir, jr) in MakeTwobody(inp, onebody, sel).value <==>
      jr < ir && Considered(inp, ir, jr) &&
      exists a, b | 0 <= a < |sel[ir]| && 0 <= b < |sel[jr]| ::
        sel[ir][a] >= 0 && sel[jr][b] >= 0 && Entry(inp, ir, jr, sel[ir][a], sel[jr][b]).Ok? &&
        !(-Negligible < Entry(inp, ir, jr, sel[ir][a], sel[jr][b]).value < Negligible)
    ensures (ir, jr) in MakeTwobody(inp, onebody, sel).value ==>
      var block := MakeTwobody(inp, onebody, sel).value[(ir, jr)];
      |block| == |sel[ir]| &&
      forall a | 0 <= a < |sel[ir]| :: |block[a]| == |sel[jr]| &&
        forall b | 0 <= b < |sel[jr]| ::
          sel[ir][a] >= 0 && sel[jr][b] >= 0 && Entry(inp, ir, jr, sel[ir][a], sel[jr][b]).Ok? &&
          block[a][b] == Entry(inp, ir, jr, sel[ir][a], sel[jr][b]).value && block[a][b] <= Cap
  {
    PairsInRange(|sel|);
    PairsMember(|sel|, ir, jr);
    FillStores(inp, sel, Pairs(|sel|), map[], ir, jr);
    if jr < ir && Considered(inp, ir, jr) {
      FillFails(inp, sel, Pairs(|sel|), map[]);
      var k :| 0 <= k < |Pairs(|sel|)| && Pairs(|sel|)[k] == (ir, jr);
      BlockEntries(inp, ir, jr, sel[ir], sel[jr]);
      var block := BlockOf(inp, ir, jr, sel[ir], sel[jr]).value;
      DroppedIff(block);
    }
  }

  /** A considered pair aborts the build: a negative selected rotamer number at
      ir, or a negative one at jr or a failing entry in the block. */
  predicate PairFails(inp: Inputs, sel: seq<seq<int>>, ir: nat, jr: nat)
    requires ValidRotamers(inp.rots) && SelInRange(inp, sel) && ir < |sel| && jr < |sel|
  {
    || (exists a | 0 <= a < |sel[ir]| :: sel[ir][a] < 0)
    || exists a, b | 0 <= a < |sel[ir]| && 0 <= b < |sel[jr]| ::
         !(sel[ir][a] >= 0 && sel[jr][b] >= 0 && Entry(inp, ir, jr, sel[ir][a], sel[jr][b]).Ok?)
  }

  lemma BlockFailsIff(inp: Inputs, sel: seq<seq<int>>, ir: nat, jr: nat)
    requires ValidRotamers(inp.rots) && SelInRange(inp, sel) && ir < |sel| && jr < |sel|
    ensures BlockOf(inp, ir, jr, sel[ir], sel[jr]).Err? <==> PairFails(inp, sel, ir, jr)
  {
    BlockEntries(inp, ir, jr, sel[ir], sel[jr]);
  }

  /** The pair list fails exactly when some considered pair fails. */
  lemma PairsFailIff(inp: Inputs, sel: seq<seq<int>>)
    requires ValidRotamers(inp.rots) && |sel| == |inp.isProtein| && SelInRange(inp, sel)
    requires PairsIn(Pairs(|sel|), |sel|)
    ensures Fill(inp, sel, Pairs(|sel|), map[]).Err? <==>
      exists ir, jr | 0 <= jr < ir < |sel| :: Considered(inp, ir, jr) && PairFails(inp, sel, ir, jr)
  {
    var pairs := Pairs(|sel|);
    FillFails(inp, sel, pairs, map[]);
    if exists k | 0 <= k < |pairs| :: Considered(inp, pairs[k].0, pairs[k].1) &&
         BlockOf(inp, pairs[k].0, pairs[k].1, sel[pairs[k].0], sel[pairs[k].1]).Err? {
      var k :| 0 <= k < |pairs| && Considered(inp, pairs[k].0, pairs[k].1) &&
         BlockOf(inp, pairs[k].0, pairs[k].1, sel[pairs[k].0], sel[pairs[k].1]).Err?;
      var (ir, jr) := pairs[k];
      PairsMember(|sel|, ir, jr);
      BlockFailsIff(inp, sel, ir, jr);
    }
    if exists ir, jr | 0 <= jr < ir < |sel| :: Considered(inp, ir, jr) && PairFails(inp, sel, ir, jr) {
      var ir, jr :| 0 <= jr < ir < |sel| && Considered(inp, ir, jr) && PairFails(inp, sel, ir, jr);
      PairsMember(|sel|, ir, jr);
      BlockFailsIff(inp, sel, ir, jr);
      var k :| 0 <= k < |pairs| && pairs[k] == (ir, jr);
    }
  }

  /** The build fails exactly when the one-body table has the wrong shape or
      some considered pair fails. */
  lemma MakeTwobodyFails(inp: Inputs, onebody: seq<seq<real>>, sel: seq<seq<int>>)
    requires ValidRotamers(inp.rots) && |sel| == |inp.isProtein| && SelInRange(inp, sel)
    ensures MakeTwobody(inp, onebody, sel).Err? <==>
      || |onebody| != |inp.isProtein|
      || (exists i | 0 <= i < |onebody| :: |onebody[i]| != |inp.rots|)
      || exists ir, jr | 0 <= jr < ir < |sel| :: Considered(inp, ir, jr) && PairFails(inp, sel, ir, jr)
  {
    PairsInRange(|sel|);
    PairsFailIff(inp, sel);
  }

  // ---------------------------------------------------------------------
  // Loading or building, then scaling

  /** Multiplies every negative entry by `multiplier`. */
  function ScaleFavourable(t: Table, multiplier: real): (r: Table)
    ensures r.Keys == t.Keys
  {
    map k | k in t :: seq(|t[k]|, a requires 0 <= a < |t[k]| =>
      seq(|t[k][a]|, b requires 0 <= b < |t[k][a]| =>
        if t[k][a][b] < 0.0 then t[k][a][b] * multiplier else t[k][a][b]))
  }

  /** Scaling keeps every block's shape and its non-negative entries, scales
      the negative ones, and with the unit multiplier changes nothing, so the
      build's test for a multiplier other than one only saves work. */
  lemma ScaleFavourableSpec(t: Table, multiplier: real, k: (nat, nat))
    requires k in t
    ensures |ScaleFavourable(t, multiplier)[k]| == |t[k]|
    ensures forall a | 0 <= a < |t[k]| ::
      |ScaleFavourable(t, multiplier)[k][a]| == |t[k][a]| &&
      forall b | 0 <= b < |t[k][a]| ::
        ScaleFavourable(t, multiplier)[k][a][b] == if t[k][a][b] < 0.0 then multiplier * t[k][a][b] else t[k][a][b]
  {
  }

  lemma UnitScaleIsIdentity(t: Table)
    ensures ScaleFavourable(t, 1.0) == t
  {
    forall k | k in t ensures ScaleFavourable(t, 1.0)[k] == t[k] {
      ScaleFavourableSpec(t, 1.0, k);
      forall a | 0 <= a < |t[k]| ensures ScaleFavourable(t, 1.0)[k][a] == t[k][a] {
      }
    }
  }

  /** A table and its description as saved in the cache. */
  datatype Saved = Saved(table: Table, description: string)

  /** The table handed on, its description, and what was saved, if anything. */
  datatype Got = Got(table: Table, description: string, written: Option<Saved>)

  /** Reads the table and description from the cache when a cache name is
      given and the file was found (`cached`); otherwise builds the table, fills
      in the default description when the caller gave none, and saves both.
      Either way, negative entries are then scaled by the multiplier. */
  function GetTwobody(cacheName: string, cached: Option<Saved>, description: string,
                      inp: Inputs, onebody: seq<seq<real>>, sel: seq<seq<int>>, multiplier: real)
    : (r: Result<Got, string>)
    requires ValidRotamers(inp.rots) && |sel| == |inp.isProtein| && SelInRange(inp, sel)
    ensures cacheName != "" && cached.Some? ==>
      r == Ok(Got(ScaleFavourable(cached.value.table, multiplier), cached.value.description, None))
    ensures !(cacheName != "" && cached.Some?) ==> (r.Err? <==> MakeTwobody(inp, onebody, sel).Err?)
    ensures !(cacheName != "" && cached.Some?) && r.Ok? ==>
      && r.value.description == (if description == "" then DefaultDescription else description)
      && r.value.table == ScaleFavourable(MakeTwobody(inp, onebody, sel).value, multiplier)
      && r.value.written == (if cacheName != "" then Some(Saved(MakeTwobody(inp, onebody, sel).value,
                                                                 r.value.description)) else None)
  {
    var got: Result<(Table, string, Option<Saved>), string> :=
      if cacheName != "" && cached.Some? then Ok((cached.value.table, cached.value.description, None))
      else match MakeTwobody(inp, onebody, sel)
        case Err(e) => Err(e)
        case Ok(t) =>
          var d := if description == "" then DefaultDescription else description;
          Ok((t, d, if cacheName != "" then Some(Saved(t, d)) else None));
    match got
    case Err(e) => Err(e)
    case Ok((t, d, w)) =>
      UnitScaleIsIdentity(t);
      Ok(Got(if multiplier != 1.0 then ScaleFavourable(t, multiplier) else t, d, w))
  }

  /** A later run that finds the cache this run saved gets the same table and
      description, whatever description it passes in. */
  lemma TwobodyCacheHitAgrees(cacheName: string, description: string, later: string,
                              inp: Inputs, onebody: seq<seq<real>>, sel: seq<seq<int>>, multiplier: real)
    requires ValidRotamers(inp.rots) && |sel| == |inp.isProtein| && SelInRange(inp, sel)
    requires cacheName != ""
    requires GetTwobody(cacheName, None, description, inp, onebody, sel, multiplier).Ok?
    ensures var first := GetTwobody(cacheName, None, description, inp, onebody, sel, multiplier).value;
      first.written.Some? &&
      var second := GetTwobody(cacheName, first.written, later, inp, onebody, sel, multiplier);
      second.Ok? && second.value.table == first.table && second.value.description == first.description
  {
  }
}
