/** The per-rotamer score fields: for every rotamer of the rotamer index, one
    voxel field per atom type (types 1..21), built from the rotamer's side-chain
    atoms or loaded from a cache file named after the rotamer and the field
    options. Rotamers whose heavy atoms duplicate another rotamer's (their
    structural parent) share the parent's fields. The voxel arithmetic is not
    modelled: a field is the sequence of its voxel values, produced by an
    abstract builder. */
module RotamerFields {
  import opened Outcomes

  /** The number of atom types the fields are built for. */
  const AtomTypes: nat := 21

  /** Heavy atoms 0 to 3 are the backbone atoms and CB (CB is atom 3); the
      side-chain atoms the fields are built from start at index 4. */
  const FirstSideChainAtom: nat := 4

  /** A rotamer of the index: its residue name, number of heavy atoms, the atom
      type of every atom, the formatted values of its chi angles and its
      structural parent. */
  datatype Rotamer = Rotamer(resname: string, nheavy: nat, atomTypes: seq<nat>,
                             chiTexts: seq<string>, parent: nat)

  /** The field options; the `...Text` fields are the options as they appear in
      a cache file name. `threaded` is the OpenMP build. */
  datatype FieldOpts = FieldOpts(dataDir: string, reslText: string, spreadText: string,
                                 oversampText: string, spread: real, scaleAtr: real,
                                 scaleAtrText: string, threaded: bool)

  type Field = seq<real>

  /** One slot of a rotamer's per-atom-type field table. */
  datatype Slot = Null | FieldSlot(data: Field)

  /** The cache directory: file name to the fields stored in it, in atom type
      order. */
  type Store = map<string, seq<Field>>

  /** Builds the voxel values of the field of (rotamer, atom type); the flag
      asks for the bounding (spread) field. */
  type Builder = (nat, nat, bool) -> Field

  /** Every parent is a rotamer and every heavy atom has a type. */
  predicate ValidIndex(rots: seq<Rotamer>) {
    forall i | 0 <= i < |rots| :: rots[i].parent < |rots| && rots[i].nheavy <= |rots[i].atomTypes|
  }

  predicate Canonical(r: Rotamer, irot: nat) {
    r.parent == irot
  }

  /** Some heavy atom past CB has one of the field atom types. */
  predicate HasSideChain(r: Rotamer)
    requires r.nheavy <= |r.atomTypes|
  {
    exists i | FirstSideChainAtom <= i < r.nheavy :: r.atomTypes[i] <= AtomTypes
  }

  // ---------------------------------------------------------------------
  // The cache file name

  /** The chi values separated by underscores. */
  function Join(parts: seq<string>): (s: string)
    ensures |parts| == 1 ==> s == parts[0]
    decreases |parts|
  {
    if |parts| == 0 then ""
    else if |parts| == 1 then parts[0]
    else parts[0] + "_" + Join(parts[1..])
  }

  predicate NoUnderscore(s: string) {
    forall i | 0 <= i < |s| :: s[i] != '_'
  }

  /** The position of the first underscore, or the length when there is none. */
  function FirstUnderscore(s: string): (i: nat)
    ensures i <= |s|
    ensures i < |s| ==> s[i] == '_'
    ensures forall j | 0 <= j < i :: s[j] != '_'
    decreases |s|
  {
    if |s| == 0 then 0
    else if s[0] == '_' then 0
    else 1 + FirstUnderscore(s[1..])
  }

  /** Splits a non-empty text at its underscores. */
  function SplitParts(s: string): (parts: seq<string>)
    ensures |parts| >= 1
    decreases |s|
  {
    var i := FirstUnderscore(s);
    if i == |s| then [s] else [s[..i]] + SplitParts(s[i + 1..])
  }

  /** The chi values read back from the chi part of a cache file name. */
  function Split(s: string): seq<string> {
    if s == "" then [] else SplitParts(s)
  }

  predicate PlainParts(parts: seq<string>) {
    forall k | 0 <= k < |parts| :: parts[k] != "" && NoUnderscore(parts[k])
  }

  lemma {:induction false} SplitPartsJoin(parts: seq<string>)
    requires |parts| >= 1 && PlainParts(parts)
    ensures SplitParts(Join(parts)) == parts
    decreases |parts|
  {
    var p := parts[0];
    if |parts| == 1 {
      assert FirstUnderscore(p) == |p|;
    } else {
      var rest := Join(parts[1..]);
      var s := p + "_" + rest;
      assert s[|p|] == '_';
      assert FirstUnderscore(s) == |p|;
      assert s[..|p|] == p;
      assert s[|p| + 1..] == rest;
      SplitPartsJoin(parts[1..]);
      assert [p] + parts[1..] == parts;
    }
  }

  /** Formatted chi values are non-empty and hold no underscore, so the chi part
      of a cache file name gives them back: two rotamers with different chi
      texts never share a cache file. */
  lemma ChiRoundTrip(parts: seq<string>)
    requires PlainParts(parts)
    ensures Split(Join(parts)) == parts
  {
    if |parts| > 0 {
      SplitPartsJoin(parts);
      assert |Join(parts)| >= |parts[0]| by { JoinStartsWithFirst(parts); }
    }
  }

  lemma {:induction false} JoinStartsWithFirst(parts: seq<string>)
    requires |parts| >= 1
    ensures |Join(parts)| >= |parts[0]|
    ensures Join(parts)[..|parts[0]|] == parts[0]
  {
    if |parts| > 1 {
      assert Join(parts) == parts[0] + ("_" + Join(parts[1..]));
    }
  }

  const FileSuffix: string := "__21atypes.rosetta_field.gz"

  function ScaleAtrPart(opts: FieldOpts): string {
    if opts.scaleAtr != 1.0 then "__scaleatr" + opts.scaleAtrText else ""
  }

  /** Joins the pieces of a file name. */
  function Concat(parts: seq<string>): string
    decreases |parts|
  {
    if parts == [] then "" else parts[0] + Concat(parts[1..])
  }

  /** The pieces of a cache file name up to the oversampling option. */
  function NameParts(opts: FieldOpts, r: Rotamer): seq<string> {
    [opts.dataDir, "/__rotamer_", r.resname, "__chi", Join(r.chiTexts), "__resl", opts.reslText,
     "__spread", opts.spreadText, "__oversamp", opts.oversampText]
  }

  /** The file caching the fields of rotamer `r`. */
  function CacheName(opts: FieldOpts, r: Rotamer): (name: string)
    ensures |name| >= |FileSuffix| && name[|name| - |FileSuffix|..] == FileSuffix
  {
    var stem := Concat(NameParts(opts, r)) + ScaleAtrPart(opts);
    var name := stem + FileSuffix;
    assert name[|stem|..] == FileSuffix;
    name
  }

  /** Options that differ only in the attraction scale, with the unit scale on
      one side, name different files: a scaled field never shadows an unscaled
      one. */
  lemma ScaledFieldsNamedApart(opts: FieldOpts, r: Rotamer)
    requires opts.scaleAtr != 1.0
    ensures CacheName(opts, r) != CacheName(opts.(scaleAtr := 1.0), r)
  {
    var plain := opts.(scaleAtr := 1.0);
    assert |CacheName(opts, r)| >= |CacheName(plain, r)| + |"__scaleatr"|;
  }

  // ---------------------------------------------------------------------
  // Building and loading one rotamer's fields

  /** Multiplies the attractive (negative) voxel values by `scale`. */
  function ScaleAttractive(data: Field, scale: real): (r: Field)
    ensures |r| == |data|
  {
    seq(|data|, k requires 0 <= k < |data| => if data[k] < 0.0 then data[k] * scale else data[k])
  }

  /** With a positive scale no voxel changes sign and repulsive voxels are
      kept; the unit scale changes nothing. */
  lemma ScaleAttractiveKeepsSigns(data: Field, scale: real)
    requires scale > 0.0
    ensures forall k | 0 <= k < |data| ::
      (ScaleAttractive(data, scale)[k] < 0.0 <==> data[k] < 0.0) &&
      (data[k] >= 0.0 ==> ScaleAttractive(data, scale)[k] == data[k])
    ensures scale == 1.0 ==> ScaleAttractive(data, scale) == data
  {
    forall k | 0 <= k < |data| ensures ScaleAttractive(data, scale)[k] < 0.0 <==> data[k] < 0.0 {
      if data[k] < 0.0 {
        assert data[k] * scale < 0.0 * scale;
      }
    }
  }

  /** The 21 fields of a rotamer: the plain field when the spread is below 0.01,
      else the bounding field, each with its attractive voxels scaled. */
  function BuildFields(build: Builder, irot: nat, opts: FieldOpts): (fs: seq<Field>)
    ensures |fs| == AtomTypes
  {
    seq(AtomTypes, k requires 0 <= k < AtomTypes =>
      ScaleAttractive(build(irot, k + 1, opts.spread >= 0.01), opts.scaleAtr))
  }

  /** The slot table of a rotamer with fields: slot 0 unused, slot t holding
      the field of atom type t, and one more empty slot left over unless the
      threaded build trims it. */
  function SlotsOf(fields: seq<Field>, threaded: bool): (slots: seq<Slot>)
    requires |fields| == AtomTypes
    ensures |slots| == if threaded then AtomTypes + 1 else AtomTypes + 2
    ensures slots[0] == Null
    ensures forall t | 1 <= t <= AtomTypes :: slots[t] == FieldSlot(fields[t - 1])
    ensures !threaded ==> slots[AtomTypes + 1] == Null
  {
    [Null] + seq(AtomTypes, k requires 0 <= k < AtomTypes => FieldSlot(fields[k]))
    + (if threaded then [] else [Null])
  }

  function NoFields(): seq<Slot> {
    seq(AtomTypes + 1, _ => Null)
  }

  /** The cache file names of all rotamers. */
  function CacheNames(opts: FieldOpts, rots: seq<Rotamer>): (names: seq<string>)
    ensures |names| == |rots|
    ensures forall i | 0 <= i < |rots| :: names[i] == CacheName(opts, rots[i])
  {
    seq(|rots|, i requires 0 <= i < |rots| => CacheName(opts, rots[i]))
  }

  /** The slot table of rotamer `irot`, whose cache file is `name`, and the
      cache directory afterwards. A non-canonical rotamer, or one without
      side-chain atoms of a field type, gets only empty slots. Otherwise its
      fields are loaded when its cache file exists and built and saved when
      not. */
  function OneRotamer(rots: seq<Rotamer>, irot: nat, name: string, opts: FieldOpts, nAtomTypes: nat,
                      build: Builder, store: Store): (r: Result<(seq<Slot>, Store), string>)
    requires ValidIndex(rots) && irot < |rots|
    ensures r.Err? <==>
      nAtomTypes != AtomTypes ||
      (Canonical(rots[irot], irot) && HasSideChain(rots[irot]) && name in store && |store[name]| < AtomTypes)
    ensures r.Ok? ==> |r.value.0| >= AtomTypes + 1
  {
    if nAtomTypes != AtomTypes then Err("the fields assume 21 atom types")
    else if !Canonical(rots[irot], irot) || !HasSideChain(rots[irot]) then Ok((NoFields(), store))
    else if name in store then
      if |store[name]| < AtomTypes then Err("field cache cut short")
      else Ok((SlotsOf(store[name][..AtomTypes], opts.threaded), store))
    else
      var fields := BuildFields(build, irot, opts);
      Ok((SlotsOf(fields, opts.threaded), store[name := fields]))
  }

  // ---------------------------------------------------------------------
  // All rotamers

  /** Processes rotamers 0..n-1 in order (`names` holds their cache file
      names), threading the cache directory; the first failure ends the run. */
  function Pass(rots: seq<Rotamer>, names: seq<string>, n: nat, opts: FieldOpts, nAtomTypes: nat,
                build: Builder, store: Store): (r: Result<(seq<seq<Slot>>, Store), string>)
    requires ValidIndex(rots) && |names| == |rots| && n <= |rots|
    ensures r.Ok? ==> |r.value.0| == n
    ensures r.Ok? ==> forall i | 0 <= i < n :: |r.value.0[i]| >= AtomTypes + 1
    decreases n
  {
    if n == 0 then Ok(([], store))
    else Step(rots, names, n - 1, opts, nAtomTypes, build, Pass(rots, names, n - 1, opts, nAtomTypes, build, store))
  }

  /** Processes rotamer `irot` after the earlier ones, unless they failed. */
  function Step(rots: seq<Rotamer>, names: seq<string>, irot: nat, opts: FieldOpts, nAtomTypes: nat,
                build: Builder, prev: Result<(seq<seq<Slot>>, Store), string>)
    : (r: Result<(seq<seq<Slot>>, Store), string>)
    requires ValidIndex(rots) && |names| == |rots| && irot < |rots|
    requires prev.Ok? ==> |prev.value.0| == irot
    requires prev.Ok? ==> forall i | 0 <= i < irot :: |prev.value.0[i]| >= AtomTypes + 1
    ensures r.Ok? ==> |r.value.0| == irot + 1
    ensures r.Ok? ==> forall i | 0 <= i <= irot :: |r.value.0[i]| >= AtomTypes + 1
    ensures prev.Err? ==> r == prev
    ensures prev.Ok? ==>
      (r.Err? <==> nAtomTypes != AtomTypes ||
                   (Canonical(rots[irot], irot) && HasSideChain(rots[irot]) &&
                    names[irot] in prev.value.1 && |prev.value.1[names[irot]]| < AtomTypes))
    ensures prev.Ok? && r.Ok? ==> forall i | 0 <= i < irot :: r.value.0[i] == prev.value.0[i]
    ensures prev.Ok? && r.Ok? ==>
      (r.value.0[irot], r.value.1) == OneRotamer(rots, irot, names[irot], opts, nAtomTypes, build, prev.value.1).value
  {
    if prev.Err? then prev
    else
      var one := OneRotamer(rots, irot, names[irot], opts, nAtomTypes, build, prev.value.1);
      if one.Err? then Err(one.error) else Ok((prev.value.0 + [one.value.0], one.value.1))
  }

  /** `b` keeps every file of `a` as it was. */
  predicate Extends(a: Store, b: Store) {
    forall name | name in a :: name in b && b[name] == a[name]
  }

  /** Rotamer `i`'s slots agree with the cache directory `s`: a rotamer with
      fields holds what its cache file `name` gives, any other holds no
      fields. */
  predicate RecordedAt(rots: seq<Rotamer>, i: nat, name: string, one: seq<Slot>, opts: FieldOpts, s: Store)
    requires ValidIndex(rots) && i < |rots|
  {
    if Canonical(rots[i], i) && HasSideChain(rots[i]) then
      name in s && |s[name]| >= AtomTypes && one == SlotsOf(s[name][..AtomTypes], opts.threaded)
    else one == NoFields()
  }

  /** What a pass leaves: every rotamer's slots agree with the cache directory. */
  predicate Recorded(rots: seq<Rotamer>, names: seq<string>, slots: seq<seq<Slot>>, opts: FieldOpts, s: Store)
    requires ValidIndex(rots) && |names| == |rots| && |slots| <= |rots|
  {
    forall i | 0 <= i < |slots| :: RecordedAt(rots, i, names[i], slots[i], opts, s)
  }

  /** One rotamer builds and saves its fields only when its cache file is
      missing, only adds that file, and its slots are what that file gives. */
  lemma OneRotamerRecords(rots: seq<Rotamer>, i: nat, name: string, opts: FieldOpts, build: Builder, s: Store)
    requires ValidIndex(rots) && i < |rots|
    requires OneRotamer(rots, i, name, opts, AtomTypes, build, s).Ok?
    ensures OneRotamer(rots, i, name, opts, AtomTypes, build, s).value.1 ==
              if Canonical(rots[i], i) && HasSideChain(rots[i]) && name !in s
              then s[name := BuildFields(build, i, opts)] else s
    ensures Extends(s, OneRotamer(rots, i, name, opts, AtomTypes, build, s).value.1)
    ensures RecordedAt(rots, i, name, OneRotamer(rots, i, name, opts, AtomTypes, build, s).value.0, opts,
                       OneRotamer(rots, i, name, opts, AtomTypes, build, s).value.1)
  {
    var fields := BuildFields(build, i, opts);
    assert fields[..AtomTypes] == fields;
  }

  /** A recorded rotamer is loaded again unchanged. */
  lemma OneRotamerLoads(rots: seq<Rotamer>, i: nat, name: string, one: seq<Slot>, opts: FieldOpts,
                        build: Builder, s: Store)
    requires ValidIndex(rots) && i < |rots|
    requires RecordedAt(rots, i, name, one, opts, s)
    ensures OneRotamer(rots, i, name, opts, AtomTypes, build, s) == Ok((one, s))
  {
  }

  lemma RecordedExtends(rots: seq<Rotamer>, names: seq<string>, slots: seq<seq<Slot>>, opts: FieldOpts,
                        a: Store, b: Store)
    requires ValidIndex(rots) && |names| == |rots| && |slots| <= |rots|
    requires Recorded(rots, names, slots, opts, a) && Extends(a, b)
    ensures Recorded(rots, names, slots, opts, b)
  {
    forall i | 0 <= i < |slots| ensures RecordedAt(rots, i, names[i], slots[i], opts, b) {
      assert RecordedAt(rots, i, names[i], slots[i], opts, a);
    }
  }

  /** A pass only adds files, and every rotamer's slots are those its cache file
      now gives. */
  lemma {:induction false} PassRecords(rots: seq<Rotamer>, names: seq<string>, n: nat, opts: FieldOpts,
                                       build: Builder, store: Store)
    requires ValidIndex(rots) && |names| == |rots| && n <= |rots|
    requires Pass(rots, names, n, opts, AtomTypes, build, store).Ok?
    ensures Extends(store, Pass(rots, names, n, opts, AtomTypes, build, store).value.1)
    ensures Recorded(rots, names, Pass(rots, names, n, opts, AtomTypes, build, store).value.0, opts,
                     Pass(rots, names, n, opts, AtomTypes, build, store).value.1)
    decreases n
  {
    if n > 0 {
      var prev := Pass(rots, names, n - 1, opts, AtomTypes, build, store);
      PassRecords(rots, names, n - 1, opts, build, store);
      var slots := prev.value.0;
      var s := prev.value.1;
      var next := OneRotamer(rots, n - 1, names[n - 1], opts, AtomTypes, build, s);
      OneRotamerRecords(rots, n - 1, names[n - 1], opts, build, s);
      var one := next.value.0;
      var s' := next.value.1;
      RecordedExtends(rots, names, slots, opts, s, s');
      var all := slots + [one];
      forall i | 0 <= i < n ensures RecordedAt(rots, i, names[i], all[i], opts, s') {
        if i < n - 1 {
          assert all[i] == slots[i];
        }
      }
    }
  }

  /** With every rotamer recorded in the cache directory, a pass only loads and
      gives back the recorded slots. */
  lemma {:induction false} PassLoadsRecorded(rots: seq<Rotamer>, names: seq<string>, slots: seq<seq<Slot>>,
                                             opts: FieldOpts, build: Builder, s: Store)
    requires ValidIndex(rots) && |names| == |rots| && |slots| <= |rots|
    requires Recorded(rots, names, slots, opts, s)
    ensures Pass(rots, names, |slots|, opts, AtomTypes, build, s) == Ok((slots, s))
    decreases |slots|
  {
    var n := |slots|;
    if n > 0 {
      var init := slots[..n - 1];
      assert Recorded(rots, names, init, opts, s) by {
        forall i | 0 <= i < n - 1 ensures RecordedAt(rots, i, names[i], init[i], opts, s) {
          assert init[i] == slots[i];
        }
      }
      PassLoadsRecorded(rots, names, init, opts, build, s);
      OneRotamerLoads(rots, n - 1, names[n - 1], slots[n - 1], opts, build, s);
      assert init + [slots[n - 1]] == slots;
    }
  }

  /** A second run over the cache directory the first run left finds every
      cache file it needs, builds nothing, and gets the same slots. */
  lemma CacheRerunAgrees(rots: seq<Rotamer>, names: seq<string>, opts: FieldOpts, build: Builder, store: Store)
    requires ValidIndex(rots) && |names| == |rots|
    requires Pass(rots, names, |rots|, opts, AtomTypes, build, store).Ok?
    ensures var (slots, s) := Pass(rots, names, |rots|, opts, AtomTypes, build, store).value;
            Pass(rots, names, |rots|, opts, AtomTypes, build, s) == Ok((slots, s))
  {
    var (slots, s) := Pass(rots, names, |rots|, opts, AtomTypes, build, store).value;
    PassRecords(rots, names, |rots|, opts, build, store);
    PassLoadsRecorded(rots, names, slots, opts, build, s);
  }

  // ---------------------------------------------------------------------
  // Sharing the parents' fields

  /** Every structural parent is its own parent. */
  predicate ParentsCanonical(rots: seq<Rotamer>)
    requires ValidIndex(rots)
  {
    forall i | 0 <= i < |rots| :: Canonical(rots[rots[i].parent], rots[i].parent)
  }

  /** In index order, points slots 1..21 of every non-canonical rotamer at its
      parent's fields. */
  method ShareParentFields(rots: seq<Rotamer>, slots: seq<seq<Slot>>) returns (shared: seq<seq<Slot>>)
    requires ValidIndex(rots) && |slots| == |rots|
    requires forall i | 0 <= i < |slots| :: |slots[i]| >= AtomTypes + 1
    ensures |shared| == |slots|
    ensures forall i | 0 <= i < |slots| :: |shared[i]| == |slots[i]| && shared[i][0] == slots[i][0]
    ensures forall i | 0 <= i < |slots| && Canonical(rots[i], i) :: shared[i] == slots[i]
    ensures forall i, t | 0 <= i < |slots| && AtomTypes < t < |slots[i]| :: shared[i][t] == slots[i][t]
    ensures ParentsCanonical(rots) ==>
      forall i, t | 0 <= i < |slots| && 1 <= t <= AtomTypes :: shared[i][t] == slots[rots[i].parent][t]
  {
    shared := slots;
    var irot := 0;
    while irot < |slots|
      invariant irot <= |slots| && |shared| == |slots|
      invariant forall i | 0 <= i < |slots| :: |shared[i]| == |slots[i]| && shared[i][0] == slots[i][0]
      invariant forall i | 0 <= i < |slots| && (irot <= i || Canonical(rots[i], i)) :: shared[i] == slots[i]
      invariant forall i, t | 0 <= i < |slots| && AtomTypes < t < |slots[i]| :: shared[i][t] == slots[i][t]
      invariant ParentsCanonical(rots) ==>
        forall i, t | 0 <= i < irot && 1 <= t <= AtomTypes :: shared[i][t] == slots[rots[i].parent][t]
    {
      var p := rots[irot].parent;
      if p != irot {
        var row := shared[irot];
        var source := shared[p];
        var copied := seq(|row|, t requires 0 <= t < |row| =>
          if 1 <= t <= AtomTypes then source[t] else row[t]);
        shared := shared[irot := copied];
      }
      irot := irot + 1;
    }
  }

  /** The field tables of all rotamers: every rotamer processed in index order
      under its cache file name, then the non-canonical ones pointed at their
      parents' fields. */
  method PerRotamerFields(rots: seq<Rotamer>, opts: FieldOpts, nAtomTypes: nat,
                          build: Builder, store: Store)
    returns (r: Result<(seq<seq<Slot>>, Store), string>)
    requires ValidIndex(rots)
    ensures var pass := Pass(rots, CacheNames(opts, rots), |rots|, opts, nAtomTypes, build, store);
      && (r.Err? <==> pass.Err? || nAtomTypes != AtomTypes)
      && (r.Ok? ==> |r.value.0| == |rots| && r.value.1 == pass.value.1)
      && (r.Ok? ==> forall i | 0 <= i < |rots| :: |r.value.0[i]| == |pass.value.0[i]|)
      && (r.Ok? ==> forall i | 0 <= i < |rots| && Canonical(rots[i], i) :: r.value.0[i] == pass.value.0[i])
      && (r.Ok? && ParentsCanonical(rots) ==> forall i, t | 0 <= i < |rots| && 1 <= t <= AtomTypes ::
            r.value.0[i][t] == pass.value.0[rots[i].parent][t])
  {
    if nAtomTypes != AtomTypes {
      return Err("the fields assume 21 atom types");
    }
    var pass :- Pass(rots, CacheNames(opts, rots), |rots|, opts, nAtomTypes, build, store);
    var shared := ShareParentFields(rots, pass.0);
    return Ok((shared, pass.1));
  }

  /** After a pass under the rotamers' cache file names, a canonical rotamer
      with side-chain atoms holds a field for every atom type, the one its cache
      file gives; with the parents canonical, the sharing hands the same fields
      to its children. */
  lemma PassFieldsFromCache(rots: seq<Rotamer>, opts: FieldOpts, build: Builder, store: Store,
                            p: nat, t: nat)
    requires ValidIndex(rots) && p < |rots| && 1 <= t <= AtomTypes
    requires Canonical(rots[p], p) && HasSideChain(rots[p])
    requires Pass(rots, CacheNames(opts, rots), |rots|, opts, AtomTypes, build, store).Ok?
    ensures var (slots, s) := Pass(rots, CacheNames(opts, rots), |rots|, opts, AtomTypes, build, store).value;
            var name := CacheName(opts, rots[p]);
            name in s && |s[name]| >= AtomTypes && slots[p][t] == FieldSlot(s[name][t - 1])
  {
    var names := CacheNames(opts, rots);
    PassRecords(rots, names, |rots|, opts, build, store);
    var (slots, s) := Pass(rots, names, |rots|, opts, AtomTypes, build, store).value;
    assert RecordedAt(rots, p, names[p], slots[p], opts, s);
  }
}
