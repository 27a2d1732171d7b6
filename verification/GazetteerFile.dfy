/**
 The on-disk gazetteer: the packer that writes it, and the reader that searches it.

 The file is a header and six columns of little-endian numbers. The rows of the key table are sorted by
 hash, so the reader finds a hash by binary search and reads the run of rows that share it.
 */
module GazetteerFile {
  import opened Wrappers
  import opened Bytes

  const FLAG_PRIMARY: int := 1
  const FLAG_ALIAS: int := 0
  const HEADER_SIZE: nat := 60
  const MAGIC: seq<byte> := [0x50, 0x4C, 0x43, 0x33]

  /** One name of one place: the hash of the name's key, the place's entry, and which kind of name it is. */
  datatype KeyRow = KeyRow(hash: int, entry: nat, flag: int)

  /** Coordinates in units of 1/100000 degree, and population. */
  datatype Entry = Entry(lat: int, lng: int, population: int)

  // ---------- little-endian numbers ----------

  function Pow256(w: nat): nat {
    if w == 0 then 1 else 256 * Pow256(w - 1)
  }

  function Le(n: nat, w: nat): (s: seq<byte>)
    ensures |s| == w
  {
    if w == 0 then [] else [n % 256] + Le(n / 256, w - 1)
  }

  function FromLe(s: seq<byte>): nat {
    if s == [] then 0 else s[0] + 256 * FromLe(s[1..])
  }

  lemma {:induction false} LeRoundTrip(n: nat, w: nat)
    requires n < Pow256(w)
    ensures FromLe(Le(n, w)) == n
  {
    if w != 0 {
      LeRoundTrip(n / 256, w - 1);
      assert Le(n, w)[1..] == Le(n / 256, w - 1);
    }
  }

  /** The first byte counts once, and each further one 256 times as much as the one before. */
  lemma {:induction false} LeLast(s: seq<byte>, b: byte)
    ensures FromLe(s + [b]) == FromLe(s) + b * Pow256(|s|)
  {
    if s == [] {
      assert s + [b] == [b] && FromLe([b][1..]) == 0;
    } else {
      LeLast(s[1..], b);
      assert (s + [b])[1..] == s[1..] + [b];
      assert b * Pow256(|s|) == 256 * (b * Pow256(|s| - 1));
    }
  }

  /** Two's complement in 32 bits. */
  function Unsigned32(v: int): nat
    requires -0x8000_0000 <= v < 0x8000_0000
  {
    if v < 0 then v + TWO32 else v
  }

  function Signed32(n: nat): int {
    if n < 0x8000_0000 then n else n - TWO32
  }

  // ---------- columns ----------

  /** Numbers of `w` bytes each, one after another. */
  function Column(values: seq<nat>, w: nat): (s: seq<byte>)
    ensures |s| == |values| * w
  {
    if values == [] then []
    else
      assert |values| * w == w + (|values| - 1) * w;
      Le(values[0], w) + Column(values[1..], w)
  }

  lemma {:induction false} ColumnAt(values: seq<nat>, w: nat, i: nat)
    requires i < |values|
    ensures i * w <= i * w + w <= |Column(values, w)|
    ensures Column(values, w)[i * w..i * w + w] == Le(values[i], w)
  {
    var head := Le(values[0], w);
    var tail := Column(values[1..], w);
    assert |values| * w == w + (|values| - 1) * w;
    if i == 0 {
      assert (head + tail)[0..w] == head;
    } else {
      ColumnAt(values[1..], w, i - 1);
      assert i * w == w + (i - 1) * w;
      DropHead(head, tail, (i - 1) * w, (i - 1) * w + w);
    }
  }

  lemma DropHead(head: seq<byte>, tail: seq<byte>, a: nat, b: nat)
    requires a <= b <= |tail|
    ensures (head + tail)[|head| + a..|head| + b] == tail[a..b]
  {
    forall i | 0 <= i < b - a ensures (head + tail)[|head| + a..|head| + b][i] == tail[a..b][i] {
    }
  }

  // ---------- the packer ----------

  /** `list.sort` by hash, which keeps the order of rows with equal hashes. */
  function InsertStable(rows: seq<KeyRow>, row: KeyRow): seq<KeyRow> {
    if rows == [] || rows[|rows| - 1].hash <= row.hash then rows + [row]
    else InsertStable(rows[..|rows| - 1], row) + [rows[|rows| - 1]]
  }

  function StableSort(rows: seq<KeyRow>): seq<KeyRow> {
    if rows == [] then [] else InsertStable(StableSort(rows[..|rows| - 1]), rows[|rows| - 1])
  }

  ghost predicate ByHash(rows: seq<KeyRow>) {
    forall i, j :: 0 <= i < j < |rows| ==> rows[i].hash <= rows[j].hash
  }

  /** The entries of the rows with a hash and a tier, in order. */
  function Matches(rows: seq<KeyRow>, hash: int, primary: bool): seq<nat> {
    if rows == [] then []
    else
      var row := rows[|rows| - 1];
      var init := Matches(rows[..|rows| - 1], hash, primary);
      if row.hash == hash && (row.flag == FLAG_PRIMARY) == primary then init + [row.entry] else init
  }

  lemma {:induction false} MatchesAppend(rows: seq<KeyRow>, row: KeyRow, hash: int, primary: bool)
    ensures
      var init := Matches(rows, hash, primary);
      Matches(rows + [row], hash, primary)
      == if row.hash == hash && (row.flag == FLAG_PRIMARY) == primary then init + [row.entry] else init
  {
    assert (rows + [row])[..|rows|] == rows;
  }

  lemma {:induction false} InsertKeeps(rows: seq<KeyRow>, row: KeyRow, hash: int, primary: bool)
    requires ByHash(rows)
    ensures ByHash(InsertStable(rows, row))
    ensures |InsertStable(rows, row)| == |rows| + 1
    ensures forall r :: r in InsertStable(rows, row) <==> r in rows || r == row
    ensures Matches(InsertStable(rows, row), hash, primary) == Matches(rows + [row], hash, primary)
  {
    if rows != [] && row.hash < rows[|rows| - 1].hash {
      var init, last := rows[..|rows| - 1], rows[|rows| - 1];
      assert rows == init + [last];
      InsertKeeps(init, row, hash, primary);
      MatchesAppend(init, last, hash, primary);
      MatchesAppend(init, row, hash, primary);
      MatchesAppend(rows, row, hash, primary);
      MatchesAppend(InsertStable(init, row), last, hash, primary);
      LastIsLargest(init, row, last);
    }
  }

  lemma {:induction false} LastIsLargest(init: seq<KeyRow>, row: KeyRow, last: KeyRow)
    requires ByHash(init + [last]) && row.hash < last.hash
    requires ByHash(InsertStable(init, row))
    requires forall r :: r in InsertStable(init, row) <==> r in init || r == row
    ensures ByHash(InsertStable(init, row) + [last])
  {
    var s := InsertStable(init, row);
    forall i | 0 <= i < |s| ensures s[i].hash <= last.hash {
      if s[i] in init {
        var k :| 0 <= k < |init| && init[k] == s[i];
        assert (init + [last])[k].hash <= (init + [last])[|init|].hash;
      } else {
        assert s[i] in s;
      }
    }
  }

  /** Sorting keeps the matches of every hash, in build order. */
  lemma {:induction false} SortKeeps(rows: seq<KeyRow>, hash: int, primary: bool)
    ensures ByHash(StableSort(rows)) && |StableSort(rows)| == |rows|
    ensures forall r :: r in StableSort(rows) <==> r in rows
    ensures Matches(StableSort(rows), hash, primary) == Matches(rows, hash, primary)
  {
    if rows != [] {
      var init, last := rows[..|rows| - 1], rows[|rows| - 1];
      assert rows == init + [last];
      SortKeeps(init, hash, primary);
      InsertKeeps(StableSort(init), last, hash, primary);
      MatchesAppend(init, last, hash, primary);
      MatchesAppend(StableSort(init), last, hash, primary);
    }
  }

  function Hashes(rows: seq<KeyRow>): (s: seq<nat>)
    requires RowsFit(rows)
    ensures |s| == |rows|
  {
    seq(|rows|, i requires 0 <= i < |rows| => rows[i].hash)
  }

  function EntryIndices(rows: seq<KeyRow>): (s: seq<nat>)
    requires RowsFit(rows)
    ensures |s| == |rows|
  {
    seq(|rows|, i requires 0 <= i < |rows| => rows[i].entry)
  }

  function Flags(rows: seq<KeyRow>): (s: seq<nat>)
    requires RowsFit(rows)
    ensures |s| == |rows|
  {
    seq(|rows|, i requires 0 <= i < |rows| => rows[i].flag)
  }

  predicate IsInt32(v: int) {
    -0x8000_0000 <= v < 0x8000_0000
  }

  predicate RowFits(r: KeyRow) {
    0 <= r.hash < TWO64 && r.entry < TWO32 && 0 <= r.flag < 0x100
  }

  predicate RowsFit(rows: seq<KeyRow>) {
    forall i :: 0 <= i < |rows| ==> RowFits(rows[i])
  }

  predicate EntryFits(e: Entry) {
    IsInt32(e.lat) && IsInt32(e.lng) && IsInt32(e.population)
  }

  predicate EntriesFit(entries: seq<Entry>) {
    forall i :: 0 <= i < |entries| ==> EntryFits(entries[i])
  }

  function Lats(entries: seq<Entry>): (s: seq<nat>)
    requires EntriesFit(entries)
    ensures |s| == |entries|
  {
    seq(|entries|, i requires 0 <= i < |entries| => assert EntryFits(entries[i]); Unsigned32(entries[i].lat))
  }

  function Lngs(entries: seq<Entry>): (s: seq<nat>)
    requires EntriesFit(entries)
    ensures |s| == |entries|
  {
    seq(|entries|, i requires 0 <= i < |entries| => assert EntryFits(entries[i]); Unsigned32(entries[i].lng))
  }

  function Populations(entries: seq<Entry>): (s: seq<nat>)
    requires EntriesFit(entries)
    ensures |s| == |entries|
  {
    seq(|entries|, i requires 0 <= i < |entries| => assert EntryFits(entries[i]); Unsigned32(entries[i].population))
  }

  /** Every field fits its width; otherwise packing fails. */
  predicate Fits(entries: seq<Entry>, rows: seq<KeyRow>) {
    |rows| < TWO32 && |entries| < TWO32 && RowsFit(rows) && EntriesFit(entries)
  }

  /** Where the columns begin, and how many rows the key table has. */
  datatype Header = Header(keyCount: nat, hashesOffset: int, entryIndicesOffset: int, flagsOffset: int,
                           latOffset: int, lngOffset: int, populationOffset: int)

  function HeaderFor(keys: nat, entries: nat): Header {
    Header(keys, HEADER_SIZE, HEADER_SIZE + 8 * keys, HEADER_SIZE + 12 * keys,
           HEADER_SIZE + 13 * keys, HEADER_SIZE + 13 * keys + 4 * entries, HEADER_SIZE + 13 * keys + 8 * entries)
  }

  function HeaderBytes(h: Header, entryCount: nat): (s: seq<byte>)
    requires h.hashesOffset >= 0 && h.entryIndicesOffset >= 0 && h.flagsOffset >= 0
    requires h.latOffset >= 0 && h.lngOffset >= 0 && h.populationOffset >= 0
    ensures |s| == HEADER_SIZE
  {
    MAGIC + (Le(h.keyCount, 4)
    + (Le(h.hashesOffset, 8) + (Le(h.entryIndicesOffset, 8) + (Le(h.flagsOffset, 8)
    + (Le(entryCount, 4)
    + (Le(h.latOffset, 8) + (Le(h.lngOffset, 8) + Le(h.populationOffset, 8))))))))
  }

  function FileOf(entries: seq<Entry>, sorted: seq<KeyRow>): seq<byte>
    requires Fits(entries, sorted)
  {
    HeaderBytes(HeaderFor(|sorted|, |entries|), |entries|)
    + (Column(Hashes(sorted), 8)
    + (Column(EntryIndices(sorted), 4)
    + (Column(Flags(sorted), 1)
    + (Column(Lats(entries), 4)
    + (Column(Lngs(entries), 4)
    + Column(Populations(entries), 4))))))
  }

  lemma {:induction false} SortFits(rows: seq<KeyRow>)
    requires RowsFit(rows)
    ensures RowsFit(StableSort(rows)) && |StableSort(rows)| == |rows|
  {
    SortKeeps(rows, 0, true);
    var sorted := StableSort(rows);
    forall i | 0 <= i < |sorted| ensures RowFits(sorted[i]) {
      assert sorted[i] in sorted;
    }
  }

  /** The packed file, or nothing when a field does not fit. */
  function Serialize(entries: seq<Entry>, rows: seq<KeyRow>): Option<seq<byte>> {
    if Fits(entries, rows) then
      SortFits(rows);
      Some(FileOf(entries, StableSort(rows)))
    else None
  }

  // ---------- the reader ----------

  datatype ReadError = ShortRead | BadMagic

  /** `ReadAt`: exactly `n` bytes, or an error. */
  function ReadAt(f: seq<byte>, offset: int, n: nat): (r: Option<seq<byte>>)
    ensures r.Some? ==> |r.value| == n
  {
    if 0 <= offset && offset + n <= |f| then Some(f[offset..offset + n]) else None
  }

  /** Conversion of a 64-bit offset to Go's signed `int64`. */
  function Offset(s: seq<byte>): int {
    var n := FromLe(s) % TWO64;
    if n < 0x8000_0000_0000_0000 then n else n - TWO64
  }

  function ReadHeader(f: seq<byte>): Result<Header, ReadError> {
    match ReadAt(f, 0, HEADER_SIZE)
    case None => Err(ShortRead)
    case Some(b) =>
      if b[..4] != MAGIC then Err(BadMagic)
      else
        Ok(Header(FromLe(b[4..8]), Offset(b[8..16]), Offset(b[16..24]), Offset(b[24..32]),
                  Offset(b[36..44]), Offset(b[44..52]), Offset(b[52..60])))
  }

  function ReadUint(f: seq<byte>, offset: int, i: nat, w: nat): Option<nat> {
    match ReadAt(f, offset + i * w, w)
    case None => None
    case Some(s) => Some(FromLe(s))
  }

  function ReadInt32(f: seq<byte>, offset: int, i: nat): Option<int> {
    match ReadUint(f, offset, i, 4)
    case None => None
    case Some(n) => Some(Signed32(n))
  }

  datatype LookupResult = LookupResult(primary: seq<nat>, alias: seq<nat>)

  /** The first row, in a table sorted by hash, whose hash is not below `hash`. */
  function LowerBound(f: seq<byte>, h: Header, hash: nat, lo: nat, hi: nat): (r: Option<nat>)
    requires lo <= hi
    decreases hi - lo
  {
    if lo == hi then Some(lo)
    else
      var mid := lo + (hi - lo) / 2;
      match ReadUint(f, h.hashesOffset, mid, 8)
      case None => None
      case Some(v) => if v < hash then LowerBound(f, h, hash, mid + 1, hi) else LowerBound(f, h, hash, lo, mid)
  }

  /** The run of rows from the `i`-th on that have the hash, added to what was found before. */
  function ScanRun(f: seq<byte>, h: Header, hash: nat, i: nat, found: LookupResult): Option<LookupResult>
    decreases h.keyCount - i
  {
    if i >= h.keyCount then Some(found)
    else
      match ReadUint(f, h.hashesOffset, i, 8)
      case None => None
      case Some(v) =>
        if v != hash then Some(found)
        else
          match ReadUint(f, h.entryIndicesOffset, i, 4)
          case None => None
          case Some(entry) =>
            match ReadUint(f, h.flagsOffset, i, 1)
            case None => None
            case Some(flag) =>
              ScanRun(f, h, hash, i + 1,
                      if flag == FLAG_PRIMARY then found.(primary := found.primary + [entry])
                      else found.(alias := found.alias + [entry]))
  }

  function LookupIn(f: seq<byte>, h: Header, hash: nat): Option<LookupResult> {
    match LowerBound(f, h, hash, 0, h.keyCount)
    case None => None
    case Some(lo) => ScanRun(f, h, hash, lo, LookupResult([], []))
  }

  /** `lookup`: binary search for the hash, then a scan of its run; no result on a read error. */
  method Lookup(f: seq<byte>, h: Header, hash: nat) returns (r: Option<LookupResult>)
    ensures r == LookupIn(f, h, hash)
  {
    hide ReadUint;
    var lo: nat, hi: nat := 0, h.keyCount;
    while lo < hi
      invariant lo <= hi <= h.keyCount
      invariant LowerBound(f, h, hash, 0, h.keyCount) == LowerBound(f, h, hash, lo, hi)
    {
      var mid := lo + (hi - lo) / 2;
      var v := ReadUint(f, h.hashesOffset, mid, 8);
      if v == None {
        return None;
      }
      if v.value < hash {
        lo := mid + 1;
      } else {
        hi := mid;
      }
    }
    var found := LookupResult([], []);
    var i := lo;
    while i < h.keyCount
      invariant LookupIn(f, h, hash) == ScanRun(f, h, hash, i, found)
    {
      var v := ReadUint(f, h.hashesOffset, i, 8);
      if v == None {
        return None;
      }
      if v.value != hash {
        break;
      }
      var entry := ReadUint(f, h.entryIndicesOffset, i, 4);
      if entry == None {
        return None;
      }
      var flag := ReadUint(f, h.flagsOffset, i, 1);
      if flag == None {
        return None;
      }
      if flag.value == FLAG_PRIMARY {
        found := found.(primary := found.primary + [entry.value]);
      } else {
        found := found.(alias := found.alias + [entry.value]);
      }
      i := i + 1;
    }
    return Some(found);
  }

  // ---------- reading back what was packed ----------

  /** The columns of the file hold these rows and entries. */
  ghost predicate Holds(f: seq<byte>, h: Header, rows: seq<KeyRow>, entries: seq<Entry>) {
    && h.keyCount == |rows|
    && (forall i :: 0 <= i < |rows| ==> HoldsRow(f, h, i, rows[i]))
    && (forall i :: 0 <= i < |entries| ==> HoldsEntry(f, h, i, entries[i]))
  }

  ghost predicate HoldsRow(f: seq<byte>, h: Header, i: nat, r: KeyRow) {
    && ReadUint(f, h.hashesOffset, i, 8) == Some(r.hash)
    && ReadUint(f, h.entryIndicesOffset, i, 4) == Some(r.entry)
    && ReadUint(f, h.flagsOffset, i, 1) == Some(r.flag)
  }

  ghost predicate HoldsEntry(f: seq<byte>, h: Header, i: nat, e: Entry) {
    && ReadInt32(f, h.latOffset, i) == Some(e.lat)
    && ReadInt32(f, h.lngOffset, i) == Some(e.lng)
    && ReadInt32(f, h.populationOffset, i) == Some(e.population)
  }

  lemma ColumnValue(values: seq<nat>, w: nat, i: nat) returns (k: nat)
    requires i < |values| && values[i] < Pow256(w)
    ensures k == i * w && k + w <= |Column(values, w)|
    ensures FromLe(Column(values, w)[k..k + w]) == values[i]
  {
    hide Le, Column, Pow256, FromLe;
    ColumnAt(values, w, i);
    LeRoundTrip(values[i], w);
    k := i * w;
  }

  /** A column is read back wherever it stands in the file. */
  lemma {:induction false} ReadColumn(f: seq<byte>, before: seq<byte>, values: seq<nat>, w: nat, after: seq<byte>,
      i: nat)
    requires f == before + (Column(values, w) + after)
    requires i < |values| && values[i] < Pow256(w)
    ensures ReadUint(f, |before|, i, w) == Some(values[i])
  {
    hide *;
    var k := ColumnValue(values, w, i);
    ReadInside(f, before, Column(values, w), after, k, w);
    ReadUintAt(f, |before|, i, w, k);
  }

  lemma ReadUintAt(f: seq<byte>, offset: nat, i: nat, w: nat, k: nat)
    requires k == i * w && ReadAt(f, offset + k, w).Some?
    ensures ReadUint(f, offset, i, w) == Some(FromLe(ReadAt(f, offset + k, w).value))
  {
    hide ReadAt, FromLe;
  }

  lemma ReadInside(f: seq<byte>, before: seq<byte>, column: seq<byte>, after: seq<byte>, k: nat, w: nat)
    requires f == before + (column + after) && k + w <= |column|
    ensures ReadAt(f, |before| + k, w) == Some(column[k..k + w])
  {
    TakeHead(column, after, k, k + w);
    DropHead(before, column + after, k, k + w);
  }

  lemma TakeHead(head: seq<byte>, tail: seq<byte>, a: nat, b: nat)
    requires a <= b <= |head|
    ensures (head + tail)[a..b] == head[a..b]
  {
  }

  lemma FileHoldsRow(entries: seq<Entry>, rows: seq<KeyRow>, i: nat)
    requires Fits(entries, rows) && i < |rows|
    ensures HoldsRow(FileOf(entries, rows), HeaderFor(|rows|, |entries|), i, rows[i])
  {
    hide Column, ReadUint, HeaderBytes;
    var header := HeaderBytes(HeaderFor(|rows|, |entries|), |entries|);
    var c1, c2, c3 := Column(Hashes(rows), 8), Column(EntryIndices(rows), 4), Column(Flags(rows), 1);
    var rest := Column(Lats(entries), 4) + (Column(Lngs(entries), 4) + Column(Populations(entries), 4));
    var f := FileOf(entries, rows);
    assert RowFits(rows[i]);
    ReadColumn(f, header, Hashes(rows), 8, c2 + (c3 + rest), i);
    ReadColumn(f, header + c1, EntryIndices(rows), 4, c3 + rest, i);
    ReadColumn(f, (header + c1) + c2, Flags(rows), 1, rest, i);
  }

  lemma FileHoldsEntry(entries: seq<Entry>, rows: seq<KeyRow>, i: nat)
    requires Fits(entries, rows) && i < |entries|
    ensures HoldsEntry(FileOf(entries, rows), HeaderFor(|rows|, |entries|), i, entries[i])
  {
    hide Column, ReadUint, HeaderBytes;
    var header := HeaderBytes(HeaderFor(|rows|, |entries|), |entries|);
    var keys := Column(Hashes(rows), 8) + (Column(EntryIndices(rows), 4) + Column(Flags(rows), 1));
    var c4, c5, c6 := Column(Lats(entries), 4), Column(Lngs(entries), 4), Column(Populations(entries), 4);
    var f := FileOf(entries, rows);
    var before := header + keys;
    assert f == before + (c4 + (c5 + c6));
    assert EntryFits(entries[i]);
    ReadColumn(f, before, Lats(entries), 4, c5 + c6, i);
    ReadColumn(f, before + c4, Lngs(entries), 4, c6, i);
    assert c6 + [] == c6;
    ReadColumn(f, (before + c4) + c5, Populations(entries), 4, [], i);
  }

  lemma {:induction false} ReadOffset(n: nat)
    requires n < 0x8000_0000_0000_0000
    ensures Offset(Le(n, 8)) == n
  {
    LeRoundTrip(n, 8);
  }

  lemma HeaderRoundTrip(entries: seq<Entry>, rows: seq<KeyRow>)
    requires Fits(entries, rows)
    ensures ReadHeader(FileOf(entries, rows)) == Ok(HeaderFor(|rows|, |entries|))
  {
    hide Le, Column, Offset, FromLe;
    var h := HeaderFor(|rows|, |entries|);
    var b := HeaderBytes(h, |entries|);
    var f := FileOf(entries, rows);
    assert f[0..HEADER_SIZE] == b;
    HeaderFields(h, |entries|);
    LeRoundTrip(h.keyCount, 4);
    ReadOffset(h.hashesOffset);
    ReadOffset(h.entryIndicesOffset);
    ReadOffset(h.flagsOffset);
    ReadOffset(h.latOffset);
    ReadOffset(h.lngOffset);
    ReadOffset(h.populationOffset);
  }

  lemma HeaderFields(h: Header, entryCount: nat)
    requires h.hashesOffset >= 0 && h.entryIndicesOffset >= 0 && h.flagsOffset >= 0
    requires h.latOffset >= 0 && h.lngOffset >= 0 && h.populationOffset >= 0
    ensures
      var b := HeaderBytes(h, entryCount);
      && b[..4] == MAGIC && b[4..8] == Le(h.keyCount, 4)
      && b[8..16] == Le(h.hashesOffset, 8) && b[16..24] == Le(h.entryIndicesOffset, 8)
      && b[24..32] == Le(h.flagsOffset, 8)
      && b[36..44] == Le(h.latOffset, 8) && b[44..52] == Le(h.lngOffset, 8) && b[52..60] == Le(h.populationOffset, 8)
  {
    hide Le;
    var b := HeaderBytes(h, entryCount);
    var r8 := Le(h.populationOffset, 8);
    var r7 := Le(h.lngOffset, 8) + r8;
    var r6 := Le(h.latOffset, 8) + r7;
    var r5 := Le(entryCount, 4) + r6;
    var r4 := Le(h.flagsOffset, 8) + r5;
    var r3 := Le(h.entryIndicesOffset, 8) + r4;
    var r2 := Le(h.hashesOffset, 8) + r3;
    var r1 := Le(h.keyCount, 4) + r2;
    assert r8 + [] == r8;
  }

  /** Reading the header of a packed file, and reading its columns, gives the packed tables. */
  lemma {:induction false} PackedHolds(entries: seq<Entry>, rows: seq<KeyRow>)
    requires Fits(entries, rows)
    ensures Serialize(entries, rows).Some?
    ensures ReadHeader(Serialize(entries, rows).value) == Ok(HeaderFor(|rows|, |entries|))
    ensures Holds(Serialize(entries, rows).value, HeaderFor(|rows|, |entries|), StableSort(rows), entries)
  {
    hide FileOf, StableSort, HoldsRow, HoldsEntry, RowsFit, EntriesFit, ReadHeader;
    SortFits(rows);
    var sorted := StableSort(rows);
    HeaderRoundTrip(entries, sorted);
    forall i | 0 <= i < |sorted|
      ensures HoldsRow(FileOf(entries, sorted), HeaderFor(|rows|, |entries|), i, sorted[i])
    {
      FileHoldsRow(entries, sorted, i);
    }
    forall i | 0 <= i < |entries|
      ensures HoldsEntry(FileOf(entries, sorted), HeaderFor(|rows|, |entries|), i, entries[i])
    {
      FileHoldsEntry(entries, sorted, i);
    }
  }

  // ---------- binary search refines a linear scan ----------

  lemma {:induction false} LowerBoundSplits(f: seq<byte>, h: Header, rows: seq<KeyRow>, entries: seq<Entry>,
      hash: nat, lo: nat, hi: nat)
    requires Holds(f, h, rows, entries) && ByHash(rows) && lo <= hi <= |rows|
    requires forall i :: 0 <= i < lo ==> rows[i].hash < hash
    requires forall i :: hi <= i < |rows| ==> rows[i].hash >= hash
    ensures
      var r := LowerBound(f, h, hash, lo, hi);
      && r.Some? && r.value <= |rows|
      && (forall i :: 0 <= i < r.value ==> rows[i].hash < hash)
      && (forall i :: r.value <= i < |rows| ==> rows[i].hash >= hash)
    decreases hi - lo
  {
    hide ReadUint, ReadInt32;
    if lo < hi {
      var mid := lo + (hi - lo) / 2;
      assert HoldsRow(f, h, mid, rows[mid]);
      if rows[mid].hash < hash {
        LowerBoundSplits(f, h, rows, entries, hash, mid + 1, hi);
      } else {
        LowerBoundSplits(f, h, rows, entries, hash, lo, mid);
      }
    }
  }

  lemma {:induction false} NoMatchesBelow(rows: seq<KeyRow>, k: nat, hash: int, primary: bool)
    requires k <= |rows| && forall i :: 0 <= i < k ==> rows[i].hash < hash
    ensures Matches(rows[..k], hash, primary) == []
  {
    if k > 0 {
      assert rows[..k][..k - 1] == rows[..k - 1];
      NoMatchesBelow(rows, k - 1, hash, primary);
    }
  }

  lemma {:induction false} NoMatchesAbove(rows: seq<KeyRow>, k: nat, hash: int, primary: bool)
    requires k <= |rows| && forall i :: k <= i < |rows| ==> rows[i].hash > hash
    ensures Matches(rows, hash, primary) == Matches(rows[..k], hash, primary)
  {
    if k < |rows| {
      var init := rows[..|rows| - 1];
      NoMatchesAbove(init, k, hash, primary);
      assert init[..k] == rows[..k];
    } else {
      assert rows[..k] == rows;
    }
  }

  lemma {:induction false} ScanFindsMatches(f: seq<byte>, h: Header, rows: seq<KeyRow>, entries: seq<Entry>,
      hash: nat, i: nat, found: LookupResult)
    requires Holds(f, h, rows, entries) && ByHash(rows) && i <= |rows|
    requires forall j :: i <= j < |rows| ==> rows[j].hash >= hash
    requires found == LookupResult(Matches(rows[..i], hash, true), Matches(rows[..i], hash, false))
    ensures ScanRun(f, h, hash, i, found) == Some(LookupResult(Matches(rows, hash, true), Matches(rows, hash, false)))
    decreases |rows| - i
  {
    hide ReadUint, ReadInt32, Matches;
    if i == |rows| {
      assert rows[..i] == rows;
    } else {
      assert HoldsRow(f, h, i, rows[i]);
      if rows[i].hash != hash {
        NoMatchesAbove(rows, i, hash, true);
        NoMatchesAbove(rows, i, hash, false);
      } else {
        assert rows[..i + 1] == rows[..i] + [rows[i]];
        MatchesAppend(rows[..i], rows[i], hash, true);
        MatchesAppend(rows[..i], rows[i], hash, false);
        var found' := if rows[i].flag == FLAG_PRIMARY then found.(primary := found.primary + [rows[i].entry])
                      else found.(alias := found.alias + [rows[i].entry]);
        ScanFindsMatches(f, h, rows, entries, hash, i + 1, found');
      }
    }
  }

  /**
   On a packed file, a lookup finds exactly the rows with the hash, in the order they were built,
   split by tier.
   */
  lemma {:induction false} LookupFindsMatches(entries: seq<Entry>, rows: seq<KeyRow>, hash: nat)
    requires Fits(entries, rows)
    ensures
      var f := Serialize(entries, rows);
      && f.Some? && ReadHeader(f.value).Ok?
      && LookupIn(f.value, ReadHeader(f.value).value, hash)
      == Some(LookupResult(Matches(rows, hash, true), Matches(rows, hash, false)))
  {
    hide Fits, Serialize, ReadHeader, Holds, Matches, StableSort, ScanRun;
    PackedHolds(entries, rows);
    var f, h, sorted := Serialize(entries, rows).value, HeaderFor(|rows|, |entries|), StableSort(rows);
    SortKeeps(rows, hash, true);
    SortKeeps(rows, hash, false);
    LowerBoundSplits(f, h, sorted, entries, hash, 0, |rows|);
    var lo := LowerBound(f, h, hash, 0, |rows|).value;
    NoMatchesBelow(sorted, lo, hash, true);
    NoMatchesBelow(sorted, lo, hash, false);
    ScanFindsMatches(f, h, sorted, entries, hash, lo, LookupResult([], []));
  }
}
