/** The binary cache file of the one-body rotamer energy table: two 8-byte
    little-endian sizes (rows, then rotamers per row) followed by the entries
    row by row, 4 bytes each. The bit-level encoding of a float entry is a
    parameter of the codec. */
module OnebodyCache {
  import opened Outcomes
  import HSearch

  newtype byte = x: int | 0 <= x < 256

  /** Largest row and rotamer count (exclusive) the reader accepts. */
  const SizeLimit: nat := 99999

  /** Width of a stored size and of a stored entry, in bytes. */
  const SizeWidth: nat := 8
  const EntryWidth: nat := 4

  predicate Rectangular(t: seq<seq<real>>) {
    forall i | 0 <= i < |t| :: |t[i]| == |t[0]|
  }

  /** Every entry of `t` has a 4-byte encoding that reads back as itself: the
      table holds values a 4-byte float can represent. */
  predicate Representable(t: seq<seq<real>>, enc: real -> seq<byte>, dec: seq<byte> -> real) {
    forall i | 0 <= i < |t| :: RowRepresentable(t[i], enc, dec)
  }

  predicate RowRepresentable(row: seq<real>, enc: real -> seq<byte>, dec: seq<byte> -> real) {
    forall j | 0 <= j < |row| :: |enc(row[j])| == EntryWidth && dec(enc(row[j])) == row[j]
  }

  // ---------------------------------------------------------------------------
  // Little-endian sizes

  function Pow256(k: nat): (p: nat)
    ensures p >= 1
  {
    if k == 0 then 1 else 256 * Pow256(k - 1)
  }

  /** The low `k` bytes of `n`, least significant first. */
  function ToLittleEndian(n: nat, k: nat): (bs: seq<byte>)
    ensures |bs| == k
  {
    if k == 0 then [] else [(n % 256) as byte] + ToLittleEndian(n / 256, k - 1)
  }

  function FromLittleEndian(bs: seq<byte>): nat {
    if bs == [] then 0 else bs[0] as nat + 256 * FromLittleEndian(bs[1..])
  }

  lemma {:induction false} LittleEndianRoundTrip(n: nat, k: nat)
    requires n < Pow256(k)
    ensures FromLittleEndian(ToLittleEndian(n, k)) == n
  {
    if k > 0 {
      var q := n / 256;
      LittleEndianRoundTrip(q, k - 1);
      assert ToLittleEndian(n, k)[1..] == ToLittleEndian(q, k - 1);
    }
  }

  // ---------------------------------------------------------------------------
  // Entries

  /** Reads `n` entries off the front of `b`; `None` when the bytes run out. */
  function ReadEntries(b: seq<byte>, n: nat, dec: seq<byte> -> real): Option<(seq<real>, seq<byte>)>
    decreases n
  {
    if n == 0 then Some(([], b))
    else if |b| < EntryWidth then None
    else
      match ReadEntries(b[EntryWidth..], n - 1, dec)
      case None => None
      case Some((vs, rest)) => Some(([dec(b[..EntryWidth])] + vs, rest))
  }

  /** Reads `rows` rows of `cols` entries each. */
  function ReadRows(b: seq<byte>, rows: nat, cols: nat, dec: seq<byte> -> real)
    : Option<(seq<seq<real>>, seq<byte>)>
    decreases rows
  {
    if rows == 0 then Some(([], b))
    else
      match ReadEntries(b, cols, dec)
      case None => None
      case Some((row, b')) =>
        match ReadRows(b', rows - 1, cols, dec)
        case None => None
        case Some((more, rest)) => Some(([row] + more, rest))
  }

  function WriteEntries(row: seq<real>, enc: real -> seq<byte>): seq<byte>
    decreases |row|
  {
    if row == [] then [] else enc(row[0]) + WriteEntries(row[1..], enc)
  }

  function WriteRows(t: seq<seq<real>>, enc: real -> seq<byte>): seq<byte>
    decreases |t|
  {
    if t == [] then [] else WriteEntries(t[0], enc) + WriteRows(t[1..], enc)
  }

  /** Blank characters the reader's final extraction skips. */
  predicate IsBlank(c: byte) {
    c == 32 || 9 <= c <= 13
  }

  // ---------------------------------------------------------------------------
  // The file

  /** The cache file of a table with at least one row. */
  function Encode(t: seq<seq<real>>, enc: real -> seq<byte>): (b: seq<byte>)
    requires |t| > 0 && Rectangular(t)
    ensures |b| >= 2 * SizeWidth
    ensures b[..SizeWidth] == ToLittleEndian(|t|, SizeWidth)
    ensures b[SizeWidth..2 * SizeWidth] == ToLittleEndian(|t[0]|, SizeWidth)
  {
    var h1 := ToLittleEndian(|t|, SizeWidth);
    var h2 := ToLittleEndian(|t[0]|, SizeWidth);
    assert (h1 + h2 + WriteRows(t, enc))[..SizeWidth] == h1;
    assert (h1 + h2 + WriteRows(t, enc))[SizeWidth..2 * SizeWidth] == h2;
    h1 + h2 + WriteRows(t, enc)
  }

  /** Reads a cache file back: the two sizes must lie strictly between 0 and
      99999, exactly that many entries must follow, and anything after them may
      only be blank. */
  function Decode(b: seq<byte>, dec: seq<byte> -> real): (r: Result<seq<seq<real>>, string>)
    ensures r.Ok? ==> |b| >= 2 * SizeWidth
    ensures r.Ok? ==> |r.value| == FromLittleEndian(b[..SizeWidth])
    ensures r.Ok? ==> 0 < |r.value| < SizeLimit
    ensures r.Ok? ==> Rectangular(r.value)
    ensures r.Ok? ==> 0 < |r.value[0]| < SizeLimit
    ensures r.Ok? ==> |r.value[0]| == FromLittleEndian(b[SizeWidth..2 * SizeWidth])
  {
    if |b| < 2 * SizeWidth then Err("cache header cut short")
    else
      var s1 := FromLittleEndian(b[..SizeWidth]);
      var s2 := FromLittleEndian(b[SizeWidth..2 * SizeWidth]);
      if !(0 < s1 < SizeLimit) then Err("bad row count in cache")
      else if !(0 < s2 < SizeLimit) then Err("bad rotamer count in cache")
      else
        match ReadRows(b[2 * SizeWidth..], s1, s2, dec)
        case None => Err("cache cut short")
        case Some((rows, rest)) =>
          if exists k | 0 <= k < |rest| :: !IsBlank(rest[k]) then Err("something left in cache")
          else
            ReadRowsShape(b[2 * SizeWidth..], s1, s2, dec);
            Ok(rows)
  }

  lemma {:induction false} ReadEntriesShape(b: seq<byte>, n: nat, dec: seq<byte> -> real)
    ensures ReadEntries(b, n, dec).Some? ==> |ReadEntries(b, n, dec).value.0| == n
    decreases n
  {
    if n > 0 && |b| >= EntryWidth {
      ReadEntriesShape(b[EntryWidth..], n - 1, dec);
    }
  }

  lemma {:induction false} ReadRowsShape(b: seq<byte>, rows: nat, cols: nat, dec: seq<byte> -> real)
    ensures ReadRows(b, rows, cols, dec).Some? ==>
      var t := ReadRows(b, rows, cols, dec).value.0;
      |t| == rows && forall i | 0 <= i < rows :: |t[i]| == cols
    decreases rows
  {
    if rows > 0 {
      ReadEntriesShape(b, cols, dec);
      var e := ReadEntries(b, cols, dec);
      if e.Some? {
        ReadRowsShape(e.value.1, rows - 1, cols, dec);
      }
    }
  }

  // ---------------------------------------------------------------------------
  // Round trip

  lemma {:induction false} EntriesRoundTrip(row: seq<real>, rest: seq<byte>,
                                            enc: real -> seq<byte>, dec: seq<byte> -> real)
    requires RowRepresentable(row, enc, dec)
    ensures ReadEntries(WriteEntries(row, enc) + rest, |row|, dec) == Some((row, rest))
    decreases |row|
  {
    if row != [] {
      var tail := row[1..];
      assert RowRepresentable(tail, enc, dec) by {
        forall j | 0 <= j < |tail| ensures tail[j] == row[j + 1] {
        }
      }
      EntriesRoundTrip(tail, rest, enc, dec);
      var head := enc(row[0]);
      var after := WriteEntries(tail, enc) + rest;
      var b := WriteEntries(row, enc) + rest;
      assert b == head + after;
      assert |head| == EntryWidth;
      assert b[..EntryWidth] == head;
      assert b[EntryWidth..] == after;
      assert dec(head) == row[0];
      assert ReadEntries(b[EntryWidth..], |row| - 1, dec) == Some((tail, rest));
      assert [row[0]] + tail == row;
    } else {
      assert WriteEntries(row, enc) + rest == rest;
    }
  }

  lemma {:induction false} RowsRoundTrip(t: seq<seq<real>>, cols: nat, rest: seq<byte>,
                                         enc: real -> seq<byte>, dec: seq<byte> -> real)
    requires forall i | 0 <= i < |t| :: |t[i]| == cols
    requires Representable(t, enc, dec)
    ensures ReadRows(WriteRows(t, enc) + rest, |t|, cols, dec) == Some((t, rest))
    decreases |t|
  {
    if t != [] {
      var more := WriteRows(t[1..], enc) + rest;
      EntriesRoundTrip(t[0], more, enc, dec);
      assert Representable(t[1..], enc, dec) by {
        forall i | 0 <= i < |t[1..]| ensures t[1..][i] == t[i + 1] {
        }
      }
      RowsRoundTrip(t[1..], cols, rest, enc, dec);
      assert WriteRows(t, enc) + rest == WriteEntries(t[0], enc) + more;
      assert [t[0]] + t[1..] == t;
    } else {
      assert WriteRows(t, enc) + rest == rest;
    }
  }

  lemma SizeFits(n: nat)
    requires n < SizeLimit
    ensures n < Pow256(SizeWidth)
  {
    assert Pow256(3) == 16777216;
    PowMonotone(3, SizeWidth);
  }

  lemma {:induction false} PowMonotone(i: nat, j: nat)
    requires i <= j
    ensures Pow256(i) <= Pow256(j)
    decreases j - i
  {
    if i < j {
      PowMonotone(i, j - 1);
    }
  }

  /** Saving a table and loading it back gives the same table. */
  lemma CacheRoundTrip(t: seq<seq<real>>, enc: real -> seq<byte>, dec: seq<byte> -> real)
    requires 0 < |t| < SizeLimit && Rectangular(t) && 0 < |t[0]| < SizeLimit
    requires Representable(t, enc, dec)
    ensures Decode(Encode(t, enc), dec) == Ok(t)
  {
    var b := Encode(t, enc);
    var h1 := ToLittleEndian(|t|, SizeWidth);
    var h2 := ToLittleEndian(|t[0]|, SizeWidth);
    assert b == h1 + h2 + WriteRows(t, enc);
    assert b[2 * SizeWidth..] == WriteRows(t, enc) + [];
    SizeFits(|t|);
    SizeFits(|t[0]|);
    LittleEndianRoundTrip(|t|, SizeWidth);
    LittleEndianRoundTrip(|t[0]|, SizeWidth);
    RowsRoundTrip(t, |t[0]|, [], enc, dec);
  }

  /** Bytes after the entries are tolerated exactly when they are all blank. */
  lemma TrailingBytes(t: seq<seq<real>>, extra: seq<byte>, enc: real -> seq<byte>, dec: seq<byte> -> real)
    requires 0 < |t| < SizeLimit && Rectangular(t) && 0 < |t[0]| < SizeLimit
    requires Representable(t, enc, dec)
    ensures Decode(Encode(t, enc) + extra, dec).Ok? <==> forall k | 0 <= k < |extra| :: IsBlank(extra[k])
    ensures Decode(Encode(t, enc) + extra, dec).Ok? ==> Decode(Encode(t, enc) + extra, dec).value == t
  {
    var b := Encode(t, enc) + extra;
    var h1 := ToLittleEndian(|t|, SizeWidth);
    var h2 := ToLittleEndian(|t[0]|, SizeWidth);
    assert b == h1 + h2 + (WriteRows(t, enc) + extra);
    assert b[..SizeWidth] == h1;
    assert b[SizeWidth..2 * SizeWidth] == h2;
    assert b[2 * SizeWidth..] == WriteRows(t, enc) + extra;
    SizeFits(|t|);
    SizeFits(|t[0]|);
    LittleEndianRoundTrip(|t|, SizeWidth);
    LittleEndianRoundTrip(|t[0]|, SizeWidth);
    RowsRoundTrip(t, |t[0]|, extra, enc, dec);
  }
}
