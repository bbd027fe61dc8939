/** The one-body rotamer energy table of a scaffold: one row per residue, one
    entry per rotamer of the rotamer index. It is computed from abstract raw
    rotamer energies, or read from its cache file, and then post-processed
    with optional extra scores and a multiplier on favourable entries. */
module Onebody {
  import opened Outcomes
  import OnebodyCache

  /** The entry of every rotamer at a position the table does not score. */
  const Unscored: real := 12345.0

  /** What the computation needs to know of a scaffold residue of the working
      pose (after the optional replacement by alanine). */
  datatype Residue = Residue(isProtein: bool, name3: string)

  /** A residue is scored when it is selected (1-based numbers in
      `scaffoldRes`), a protein residue, and not a proline. */
  predicate Scored(ir: nat, residues: seq<Residue>, scaffoldRes: seq<nat>)
    requires ir < |residues|
  {
    ir + 1 in scaffoldRes && residues[ir].isProtein && residues[ir].name3 != "PRO"
  }

  /** Builds the table: a scored residue's entry for rotamer `irot` is that
      rotamer's raw energy minus the raw energy of the residue's own side chain;
      every other row holds the unscored value. The raw energies (one-body plus
      pair energies with the neighbours) are abstract functions of the residue
      and the rotamer. */
  method ComputeOnebody(residues: seq<Residue>, scaffoldRes: seq<nat>, nrot: nat,
                        raw: (nat, nat) -> real, native: nat -> real)
    returns (t: seq<seq<real>>)
    ensures |t| == |residues|
    ensures forall ir | 0 <= ir < |t| :: |t[ir]| == nrot
    ensures forall ir, irot | 0 <= ir < |t| && 0 <= irot < nrot ::
      t[ir][irot] == if Scored(ir, residues, scaffoldRes) then raw(ir, irot) - native(ir) else Unscored
  {
    t := [];
    var ir := 0;
    while ir < |residues|
      invariant ir <= |residues| && |t| == ir
      invariant forall k | 0 <= k < ir :: |t[k]| == nrot
      invariant forall k, irot | 0 <= k < ir && 0 <= irot < nrot ::
        t[k][irot] == if Scored(k, residues, scaffoldRes) then raw(k, irot) - native(k) else Unscored
    {
      var row: seq<real>;
      if Scored(ir, residues, scaffoldRes) {
        var base := native(ir);
        row := seq(nrot, irot requires 0 <= irot => raw(ir, irot) - base);
      } else {
        row := seq(nrot, _ => Unscored);
      }
      t := t + [row];
      ir := ir + 1;
    }
  }

  /** At a scored residue a rotamer whose raw energy equals the native side
      chain's gets zero, and the entries order the rotamers as their raw
      energies do. */
  lemma RelativeToNative(residues: seq<Residue>, scaffoldRes: seq<nat>, nrot: nat,
                         raw: (nat, nat) -> real, native: nat -> real,
                         t: seq<seq<real>>, ir: nat, i: nat, j: nat)
    requires |t| == |residues| && ir < |t| && i < nrot && j < nrot
    requires forall k | 0 <= k < |t| :: |t[k]| == nrot
    requires forall k, irot | 0 <= k < |t| && 0 <= irot < nrot ::
      t[k][irot] == if Scored(k, residues, scaffoldRes) then raw(k, irot) - native(k) else Unscored
    requires Scored(ir, residues, scaffoldRes)
    ensures raw(ir, i) == native(ir) ==> t[ir][i] == 0.0
    ensures t[ir][i] < t[ir][j] <==> raw(ir, i) < raw(ir, j)
  {
  }

  /** The extra score of rotamer `j` at residue `ir`: zero when there are no
      extra scores or the residue's row is empty. */
  function ExtraAt(extra: Option<seq<seq<real>>>, ir: nat, j: nat): real
    requires extra.Some? ==> ir < |extra.value|
  {
    if extra.Some? && j < |extra.value[ir]| then extra.value[ir][j] else 0.0
  }

  /** One entry after post-processing. */
  function Adjusted(v: real, e: real, multiplier: real, cutoff: real): (r: real)
    ensures v + e >= cutoff ==> r == v + e
    ensures v + e < cutoff ==> r == multiplier * (v + e)
  {
    var s := v + e;
    if s < cutoff then multiplier * s else s
  }

  /** The residues whose extra scores cannot be applied: missing rows, or a
      non-empty row of the wrong length. */
  predicate ExtraMismatch(t: seq<seq<real>>, extra: Option<seq<seq<real>>>) {
    extra.Some? &&
      (|extra.value| < |t| ||
       exists ir | 0 <= ir < |t| :: |extra.value[ir]| > 0 && |extra.value[ir]| != |t[ir]|)
  }

  /** `out` is `t` with the extra scores added and the favourable entries
      multiplied. */
  predicate IsProcessed(t: seq<seq<real>>, out: seq<seq<real>>, extra: Option<seq<seq<real>>>,
                        multiplier: real, cutoff: real)
  {
    && (extra.Some? ==> |extra.value| >= |t|)
    && |out| == |t|
    && (forall ir | 0 <= ir < |t| :: |out[ir]| == |t[ir]|)
    && (forall ir, j | 0 <= ir < |t| && 0 <= j < |t[ir]| ::
          out[ir][j] == Adjusted(t[ir][j], ExtraAt(extra, ir, j), multiplier, cutoff))
  }

  /** Post-processing has one outcome. */
  lemma ProcessedUnique(t: seq<seq<real>>, a: seq<seq<real>>, b: seq<seq<real>>,
                        extra: Option<seq<seq<real>>>, multiplier: real, cutoff: real)
    requires IsProcessed(t, a, extra, multiplier, cutoff)
    requires IsProcessed(t, b, extra, multiplier, cutoff)
    ensures a == b
  {
    forall ir | 0 <= ir < |t| ensures a[ir] == b[ir] {
    }
  }

  /** Adds the extra scores (where a residue has any) and multiplies every
      entry below the cutoff by the favourable-energy multiplier. */
  method PostProcess(t: seq<seq<real>>, extra: Option<seq<seq<real>>>, multiplier: real, cutoff: real)
    returns (r: Result<seq<seq<real>>, string>)
    ensures r.Err? <==> ExtraMismatch(t, extra)
    ensures r.Ok? ==> IsProcessed(t, r.value, extra, multiplier, cutoff)
  {
    if extra.Some? && |extra.value| < |t| {
      return Err("no extra scores for some residue");
    }
    var out: seq<seq<real>> := [];
    var ir := 0;
    while ir < |t|
      invariant ir <= |t| && |out| == ir
      invariant extra.Some? ==>
        forall k | 0 <= k < ir :: !(|extra.value[k]| > 0 && |extra.value[k]| != |t[k]|)
      invariant forall k | 0 <= k < ir :: |out[k]| == |t[k]|
      invariant forall k, j | 0 <= k < ir && 0 <= j < |t[k]| ::
        out[k][j] == Adjusted(t[k][j], ExtraAt(extra, k, j), multiplier, cutoff)
    {
      if extra.Some? && |extra.value[ir]| > 0 && |extra.value[ir]| != |t[ir]| {
        return Err("extra scores have the wrong number of rotamers");
      }
      var row := t[ir];
      var adjusted := seq(|row|, j requires 0 <= j < |row| =>
        Adjusted(row[j], ExtraAt(extra, ir, j), multiplier, cutoff));
      out := out + [adjusted];
      ir := ir + 1;
    }
    return Ok(out);
  }

  /** Without extra scores and with a unit multiplier, post-processing leaves
      the table as it is. */
  lemma NeutralPostProcessing(t: seq<seq<real>>, cutoff: real)
    ensures !ExtraMismatch(t, None)
    ensures IsProcessed(t, t, None, 1.0, cutoff)
  {
  }

  /** The table handed to the docking run and the cache file written on the way,
      if any. */
  datatype Loaded = Loaded(table: seq<seq<real>>, written: Option<seq<OnebodyCache.byte>>)

  /** Reads the table from its cache when a cache name is given and the file was
      found (`cached`); otherwise takes the computed table and, when a cache name
      is given, writes it out before post-processing. Both paths then
      post-process the same way. */
  method GetOnebody(cacheName: string, cached: Option<seq<OnebodyCache.byte>>,
                    computed: seq<seq<real>>, extra: Option<seq<seq<real>>>,
                    multiplier: real, cutoff: real,
                    enc: real -> seq<OnebodyCache.byte>, dec: seq<OnebodyCache.byte> -> real)
    returns (r: Result<Loaded, string>)
    requires cacheName != "" && cached.None? ==> |computed| > 0 && OnebodyCache.Rectangular(computed)
    ensures cacheName != "" && cached.Some? && OnebodyCache.Decode(cached.value, dec).Err? ==> r.Err?
    ensures r.Ok? && cacheName != "" && cached.Some? ==> r.value.written.None?
    ensures r.Ok? && (cacheName == "" || cached.None?) ==>
      r.value.written == if cacheName != "" then Some(OnebodyCache.Encode(computed, enc)) else None
    ensures cacheName != "" && cached.Some? && OnebodyCache.Decode(cached.value, dec).Ok? ==>
      (r.Err? <==> ExtraMismatch(OnebodyCache.Decode(cached.value, dec).value, extra))
    ensures !(cacheName != "" && cached.Some?) ==> (r.Err? <==> ExtraMismatch(computed, extra))
    ensures r.Ok? ==> IsProcessed(if cacheName != "" && cached.Some?
                                  then OnebodyCache.Decode(cached.value, dec).value else computed,
                                  r.value.table, extra, multiplier, cutoff)
  {
    var raw: seq<seq<real>>;
    var written: Option<seq<OnebodyCache.byte>> := None;
    if cacheName != "" && cached.Some? {
      raw :- OnebodyCache.Decode(cached.value, dec);
    } else {
      raw := computed;
      if cacheName != "" {
        written := Some(OnebodyCache.Encode(computed, enc));
      }
    }
    var table :- PostProcess(raw, extra, multiplier, cutoff);
    return Ok(Loaded(table, written));
  }

  /** A later run that finds the cache this run wrote gets the same table. */
  method CacheHitAgrees(cacheName: string, computed: seq<seq<real>>, extra: Option<seq<seq<real>>>,
                        multiplier: real, cutoff: real,
                        enc: real -> seq<OnebodyCache.byte>, dec: seq<OnebodyCache.byte> -> real)
    returns (first: Result<Loaded, string>, second: Result<Loaded, string>)
    requires cacheName != ""
    requires 0 < |computed| < OnebodyCache.SizeLimit && OnebodyCache.Rectangular(computed)
    requires 0 < |computed[0]| < OnebodyCache.SizeLimit
    requires OnebodyCache.Representable(computed, enc, dec)
    ensures first.Ok? ==> first.value.written.Some?
    ensures first.Ok? <==> second.Ok?
    ensures first.Ok? ==> second.value.table == first.value.table && second.value.written.None?
  {
    first := GetOnebody(cacheName, None, computed, extra, multiplier, cutoff, enc, dec);
    if first.Err? {
      second := first;
      return;
    }
    OnebodyCache.CacheRoundTrip(computed, enc, dec);
    second := GetOnebody(cacheName, first.value.written, [], extra, multiplier, cutoff, enc, dec);
    if second.Ok? {
      ProcessedUnique(computed, first.value.table, second.value.table, extra, multiplier, cutoff);
    }
  }
}
