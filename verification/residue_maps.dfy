/** The scaffold's residue bookkeeping in the docking driver: the maps between
    global (whole scaffold, 0-based) and local (designable residues only)
    positions, and the masking of the one-body rotamer energy table by the
    native sequence before it is split into its local and global forms. */
module ResidueMaps {
  import opened Outcomes

  /** The energy that removes a rotamer from consideration. */
  const Forbidden: real := 9000000000.0

  /** `g2l` maps each global position to its local position or -1, `l2g` maps
      each local position to its global one, `used` flags the selected global
      positions. */
  datatype PositionMaps = PositionMaps(g2l: seq<int>, l2g: seq<nat>, used: seq<bool>)

  /** The relations the driver relies on between the three maps of a scaffold
      with `nres` residues: every local position names a selected residue, a
      selected residue maps back to the last local position that names it, and
      an unselected one maps to -1. */
  predicate Coherent(m: PositionMaps, nres: nat) {
    && |m.g2l| == nres && |m.used| == nres
    && (forall i | 0 <= i < |m.l2g| :: m.l2g[i] < nres && m.used[m.l2g[i]])
    && (forall g | 0 <= g < nres :: m.used[g] <==> m.g2l[g] >= 0)
    && (forall g | 0 <= g < nres && m.used[g] ::
          && m.g2l[g] < |m.l2g|
          && m.l2g[m.g2l[g]] == g
          && forall j | m.g2l[g] < j < |m.l2g| :: m.l2g[j] != g)
  }

  predicate Distinct(s: seq<nat>) {
    forall i, j | 0 <= i < j < |s| :: s[i] != s[j]
  }

  /** Builds the maps from the designable residues, given as 1-based residue
      numbers in selection order. */
  method BuildMaps(nres: nat, scaffoldRes: seq<nat>) returns (m: PositionMaps)
    requires forall i | 0 <= i < |scaffoldRes| :: 1 <= scaffoldRes[i] <= nres
    ensures Coherent(m, nres)
    ensures |m.l2g| == |scaffoldRes|
    ensures forall i | 0 <= i < |scaffoldRes| :: m.l2g[i] == scaffoldRes[i] - 1
    ensures forall g | 0 <= g < nres :: m.used[g] <==> g + 1 in scaffoldRes
    ensures Distinct(scaffoldRes) ==> forall i | 0 <= i < |scaffoldRes| :: m.g2l[m.l2g[i]] == i
  {
    var g2l := seq(nres, _ => -1);
    var used := seq(nres, _ => false);
    var l2g: seq<nat> := [];
    var count := 0;
    while count < |scaffoldRes|
      invariant count <= |scaffoldRes| && |l2g| == count
      invariant |g2l| == nres && |used| == nres
      invariant forall i | 0 <= i < count :: l2g[i] == scaffoldRes[i] - 1
      invariant forall g | 0 <= g < nres :: used[g] <==> g + 1 in scaffoldRes[..count]
      invariant forall g | 0 <= g < nres :: used[g] <==> g2l[g] >= 0
      invariant forall g | 0 <= g < nres && used[g] ::
        g2l[g] < count && l2g[g2l[g]] == g && forall j | g2l[g] < j < count :: l2g[j] != g
    {
      var g := scaffoldRes[count] - 1;
      assert scaffoldRes[..count + 1] == scaffoldRes[..count] + [scaffoldRes[count]];
      g2l := g2l[g := count];
      l2g := l2g + [g];
      used := used[g := true];
      count := count + 1;
    }
    assert scaffoldRes[..count] == scaffoldRes;
    m := PositionMaps(g2l, l2g, used);
    forall i | 0 <= i < |scaffoldRes| ensures used[l2g[i]] {
      assert scaffoldRes[i] in scaffoldRes;
    }
    if Distinct(scaffoldRes) {
      forall i | 0 <= i < |scaffoldRes| ensures g2l[l2g[i]] == i {
        var g := l2g[i];
        assert used[g];
        if g2l[g] > i {
          assert false;
        }
      }
    }
  }

  /** The energy of rotamer `irot` at global position `ir` after the native
      sequence options: a non-native rotamer other than alanine is forbidden
      when restricting to the native sequence, and a native one gets the bonus. */
  function MaskedEnergy(e: real, native: string, rotName: string, restrictToNative: bool,
                        bonus: real): (r: real)
    ensures restrictToNative && rotName != native && rotName != "ALA" ==> r == Forbidden
    ensures rotName == native ==> r == e + bonus
    ensures !restrictToNative && rotName != native ==> r == e
  {
    var killed := if restrictToNative && rotName != native && rotName != "ALA" then Forbidden else e;
    if bonus != 0.0 && rotName == native then killed + bonus else killed
  }

  /** Applies the native sequence options to the whole global table. Reading a
      residue name past the scaffold sequence is an error, but only if some
      option makes the loop read it. */
  method MaskBySequence(onebody: seq<seq<real>>, sequence: seq<string>, rotNames: seq<string>,
                        restrictToNative: bool, bonus: real)
    returns (r: Result<seq<seq<real>>, string>)
    requires forall ir | 0 <= ir < |onebody| :: |onebody[ir]| == |rotNames|
    ensures r.Err? <==>
      (restrictToNative || bonus != 0.0) && |rotNames| > 0 && |onebody| > |sequence|
    ensures r.Ok? ==> |r.value| == |onebody|
    ensures r.Ok? ==> forall ir | 0 <= ir < |onebody| :: |r.value[ir]| == |rotNames|
    ensures r.Ok? && !restrictToNative && bonus == 0.0 ==> r.value == onebody
    ensures r.Ok? ==> forall ir, irot | 0 <= ir < |onebody| && 0 <= irot < |rotNames| ::
      r.value[ir][irot] ==
        if restrictToNative || bonus != 0.0
        then MaskedEnergy(onebody[ir][irot], sequence[ir], rotNames[irot], restrictToNative, bonus)
        else onebody[ir][irot]
  {
    if !restrictToNative && bonus == 0.0 {
      return Ok(onebody);
    }
    if |rotNames| > 0 && |onebody| > |sequence| {
      return Err("residue index past the scaffold sequence");
    }
    var out: seq<seq<real>> := [];
    var ir := 0;
    while ir < |onebody|
      invariant ir <= |onebody| && |out| == ir
      invariant forall k | 0 <= k < ir :: |out[k]| == |rotNames|
      invariant forall k, irot | 0 <= k < ir && 0 <= irot < |rotNames| ::
        out[k][irot] == MaskedEnergy(onebody[k][irot], sequence[k], rotNames[irot], restrictToNative, bonus)
    {
      var row := seq(|rotNames|, irot requires 0 <= irot < |rotNames| =>
        MaskedEnergy(onebody[ir][irot], sequence[ir], rotNames[irot], restrictToNative, bonus));
      out := out + [row];
      ir := ir + 1;
    }
    return Ok(out);
  }

  /** Copies the masked rows of the selected residues into the local table and
      then forbids every rotamer at the unselected global positions. */
  method SplitOnebody(m: PositionMaps, masked: seq<seq<real>>)
    returns (local: seq<seq<real>>, global: seq<seq<real>>)
    requires Coherent(m, |masked|)
    ensures |local| == |m.l2g| && |global| == |masked|
    ensures forall i | 0 <= i < |m.l2g| :: local[i] == masked[m.l2g[i]]
    ensures forall g | 0 <= g < |masked| :: |global[g]| == |masked[g]|
    ensures forall g | 0 <= g < |masked| && m.used[g] :: global[g] == masked[g]
    ensures forall g, k | 0 <= g < |masked| && !m.used[g] && 0 <= k < |masked[g]| ::
      global[g][k] == Forbidden
    ensures forall i | 0 <= i < |m.l2g| :: global[m.l2g[i]] == local[i]
  {
    local := [];
    var i := 0;
    while i < |m.l2g|
      invariant i <= |m.l2g| && |local| == i
      invariant forall k | 0 <= k < i :: local[k] == masked[m.l2g[k]]
    {
      local := local + [masked[m.l2g[i]]];
      i := i + 1;
    }
    global := masked;
    var g := 0;
    while g < |m.g2l|
      invariant g <= |masked| && |global| == |masked|
      invariant forall h | 0 <= h < |masked| :: |global[h]| == |masked[h]|
      invariant forall h | g <= h < |masked| :: global[h] == masked[h]
      invariant forall h | 0 <= h < g && m.used[h] :: global[h] == masked[h]
      invariant forall h, k | 0 <= h < g && !m.used[h] && 0 <= k < |masked[h]| :: global[h][k] == Forbidden
    {
      if m.g2l[g] < 0 {
        global := global[g := seq(|masked[g]|, _ => Forbidden)];
      }
      g := g + 1;
    }
  }
}
