/**
 The native-grid blob "M4NG": `build_blob` of
 firmware/scripts/generate_m4_native_grid.py on one side, the firmware reader
 firmware/lib/EpdFont/NativeGridEpdFont.h on the other.  Glyphs too wide for
 15 columns live in a sidecar that the firmware searches by bisection.
 */
module NativeGridBlob {

  import opened Wrappers
  import opened Bytes
  import opened RankedIndex
  import opened PackedFields
  import opened FontBlob

  const GRID_WIDTH := 15
  const GRID_HEIGHT := 16
  const RAW_BYTES := 30
  const OUTLIER_BYTES := 32
  const VERSION := 1

  datatype Glyph = Narrow(bitmap: seq<byte>) | Wide(bitmap: seq<byte>)

  /** `pack_grid`: cells addressed bottom-up become pixels addressed top-down; a grid that
      does not fill whole bytes is refused. */
  method PackGrid(cells: set<(int, int)>, width: nat, height: nat) returns (packed: Option<seq<byte>>)
    ensures packed.None? <==> width * height % 8 != 0
    ensures packed.Some? ==> |packed.value| == width * height / 8
    ensures packed.Some? ==>
              forall i :: 0 <= i < width * height ==>
                (PixelOn(packed.value, i) <==> (i % width, height - 1 - i / width) in cells)
  {
    if width * height % 8 != 0 { return None; }
    var bits := seq(width * height, i requires 0 <= i < width * height => (i % width, height - 1 - i / width) in cells);
    var bytes := PackBits(bits);
    packed := Some(bytes);
  }

  // ---------- writing ----------

  function Header(outliers: nat, glyphs: nat, leafCount: nat,
                  bitmapsOff: nat, cpsOff: nat, bmpsOff: nat): (h: seq<byte>)
    requires glyphs < U16_LIMIT && leafCount < U16_LIMIT && outliers < U16_LIMIT
    requires bitmapsOff < U32_LIMIT && cpsOff < U32_LIMIT && bmpsOff < U32_LIMIT
    ensures |h| == HEADER_BYTES
  {
    var identity := [0x4D, 0x34, 0x4E, 0x47] + U16(VERSION) + U16(if outliers > 0 then 1 else 0);
    var counts := U16(glyphs) + U16(outliers) + U16(leafCount);
    var metrics := [GRID_WIDTH, GRID_HEIGHT, GRID_HEIGHT, GRID_HEIGHT, 0, 0];
    var offsets := U32(HEADER_BYTES) + U32(HEADER_BYTES + DIR_BYTES) + U32(bitmapsOff) + U32(cpsOff) + U32(bmpsOff);
    identity + counts + metrics + offsets + U16(RAW_BYTES) + U16(OUTLIER_BYTES) + U32(0)
  }

  /** `kMagic`: the bytes "M4NG" as a little-endian word. */
  const MAGIC := 0x474E_344D

  // ---------- reading: the firmware ----------

  datatype Fields = Fields(magic: nat, version: nat, glyphs: nat, outliers: nat, leafCount: nat,
                           gridW: nat, gridH: nat, dirOff: nat, leavesOff: nat, bitmapsOff: nat,
                           cpsOff: nat, bmpsOff: nat, bitmapBytes: nat, outlierBytes: nat)

  function ReadFields(blob: seq<byte>): (f: Fields)
    requires |blob| >= HEADER_BYTES
    ensures f.glyphs < U16_LIMIT && f.leafCount < U16_LIMIT && f.outliers < U16_LIMIT
  {
    Fields(ReadU32(blob, 0), ReadU16(blob, 4), ReadU16(blob, 8), ReadU16(blob, 10), ReadU16(blob, 12),
           blob[14], blob[15], ReadU32(blob, 20), ReadU32(blob, 24), ReadU32(blob, 28),
           ReadU32(blob, 32), ReadU32(blob, 36), ReadU16(blob, 40), ReadU16(blob, 42))
  }

  lemma MagicBytes()
    ensures U32(MAGIC) == [0x4D, 0x34, 0x4E, 0x47]
  {
  }

  lemma FieldsReadBack(h: seq<byte>, outliers: nat, glyphs: nat, leafCount: nat,
                       bitmapsOff: nat, cpsOff: nat, bmpsOff: nat)
    requires glyphs < U16_LIMIT && leafCount < U16_LIMIT && outliers < U16_LIMIT
    requires bitmapsOff < U32_LIMIT && cpsOff < U32_LIMIT && bmpsOff < U32_LIMIT
    requires h == Header(outliers, glyphs, leafCount, bitmapsOff, cpsOff, bmpsOff)
    ensures ReadFields(h) == Fields(MAGIC, VERSION, glyphs, outliers, leafCount, GRID_WIDTH, GRID_HEIGHT,
                                    HEADER_BYTES, HEADER_BYTES + DIR_BYTES, bitmapsOff, cpsOff, bmpsOff,
                                    RAW_BYTES, OUTLIER_BYTES)
  {
    hide ReadU16, ReadU32, U16, U32;
    assert h[0..4] == U32(MAGIC) by { MagicBytes(); }
    U32ReadsBack(h, 0, MAGIC);
    assert h[4..6] == U16(VERSION);
    U16ReadsBack(h, 4, VERSION);
    assert h[8..10] == U16(glyphs);
    U16ReadsBack(h, 8, glyphs);
    assert h[10..12] == U16(outliers);
    U16ReadsBack(h, 10, outliers);
    assert h[12..14] == U16(leafCount);
    U16ReadsBack(h, 12, leafCount);
    assert h[20..24] == U32(HEADER_BYTES);
    U32ReadsBack(h, 20, HEADER_BYTES);
    assert h[24..28] == U32(HEADER_BYTES + DIR_BYTES);
    U32ReadsBack(h, 24, HEADER_BYTES + DIR_BYTES);
    assert h[28..32] == U32(bitmapsOff);
    U32ReadsBack(h, 28, bitmapsOff);
    assert h[32..36] == U32(cpsOff);
    U32ReadsBack(h, 32, cpsOff);
    assert h[36..40] == U32(bmpsOff);
    U32ReadsBack(h, 36, bmpsOff);
    assert h[40..42] == U16(RAW_BYTES);
    U16ReadsBack(h, 40, RAW_BYTES);
    assert h[42..44] == U16(OUTLIER_BYTES);
    U16ReadsBack(h, 42, OUTLIER_BYTES);
  }

  lemma FieldsOfPrefix(blob: seq<byte>)
    requires |blob| >= HEADER_BYTES
    ensures ReadFields(blob) == ReadFields(blob[..HEADER_BYTES])
  {
  }

  /** The tests of `bind`, with their 32-bit arithmetic. */
  predicate Accepts(f: Fields, size: nat) {
    && f.magic == MAGIC && f.version == VERSION
    && f.gridW == GRID_WIDTH && f.gridH == GRID_HEIGHT
    && f.bitmapBytes == RAW_BYTES && f.outlierBytes == OUTLIER_BYTES
    && f.dirOff == HEADER_BYTES
    && f.leavesOff == (f.dirOff + DIR_BYTES) % U32_LIMIT
    && f.bitmapsOff == (f.leavesOff + f.leafCount * LEAF_BYTES) % U32_LIMIT
    && f.cpsOff == (f.bitmapsOff + f.glyphs * RAW_BYTES) % U32_LIMIT
    && f.bmpsOff == (f.cpsOff + f.outliers * 2) % U32_LIMIT
    && (f.bmpsOff + f.outliers * OUTLIER_BYTES) % U32_LIMIT <= size
  }

  lemma AcceptedFieldsDoNotWrap(f: Fields, size: nat)
    requires f.glyphs < U16_LIMIT && f.leafCount < U16_LIMIT && f.outliers < U16_LIMIT
    requires Accepts(f, size)
    ensures f.leavesOff == HEADER_BYTES + DIR_BYTES
    ensures f.bitmapsOff == f.leavesOff + f.leafCount * LEAF_BYTES
    ensures f.cpsOff == f.bitmapsOff + f.glyphs * RAW_BYTES
    ensures f.bmpsOff == f.cpsOff + f.outliers * 2
    ensures f.bmpsOff + f.outliers * OUTLIER_BYTES <= size
  {
  }

  datatype Bound = Bound(index: IndexView, bitmapsOff: nat, cpsOff: nat, bmpsOff: nat, outliers: nat)

  function Bind(blob: seq<byte>): (r: Option<Bound>)
    ensures r.Some? ==> ReadsAreSafe(blob, r.value)
  {
    if |blob| < HEADER_BYTES then None
    else
      hide ReadFields, Accepts;
      var f := ReadFields(blob);
      if Accepts(f, |blob|) then
        AcceptedFieldsDoNotWrap(f, |blob|);
        Some(Bound(IndexView(f.dirOff, f.leavesOff, f.leafCount, f.glyphs), f.bitmapsOff, f.cpsOff, f.bmpsOff,
                   f.outliers))
      else None
  }

  /** `bind` takes a blob exactly when its magic number, version, grid and bitmap sizes are
      right and every section starts where the one before it ends, the last ending inside. */
  lemma BindIff(blob: seq<byte>)
    ensures Bind(blob).Some?
       <==> && |blob| >= 48 && blob[..4] == ['M' as int, '4' as int, 'N' as int, 'G' as int] && ReadU16(blob, 4) == 1
            && blob[14] == 15 && blob[15] == 16 && ReadU16(blob, 40) == 30 && ReadU16(blob, 42) == 32
            && var glyphs, outliers, leaves := ReadU16(blob, 8), ReadU16(blob, 10), ReadU16(blob, 12);
               && ReadU32(blob, 20) == 48 && ReadU32(blob, 24) == 560 && ReadU32(blob, 28) == 560 + 34 * leaves
               && ReadU32(blob, 32) == 560 + 34 * leaves + 30 * glyphs
               && ReadU32(blob, 36) == 560 + 34 * leaves + 30 * glyphs + 2 * outliers
               && 560 + 34 * leaves + 30 * glyphs + 34 * outliers <= |blob|
  {
    if |blob| >= HEADER_BYTES {
      MagicIff(blob);
      hide ReadU32, ReadU16, Accepts;
      AcceptsIff(ReadFields(blob), |blob|);
    }
  }

  lemma AcceptsIff(f: Fields, size: nat)
    requires f.glyphs < U16_LIMIT && f.leafCount < U16_LIMIT && f.outliers < U16_LIMIT
    ensures Accepts(f, size)
       <==> && f.magic == MAGIC && f.version == 1 && f.gridW == 15 && f.gridH == 16
            && f.bitmapBytes == 30 && f.outlierBytes == 32
            && f.dirOff == 48 && f.leavesOff == 560 && f.bitmapsOff == 560 + 34 * f.leafCount
            && f.cpsOff == 560 + 34 * f.leafCount + 30 * f.glyphs
            && f.bmpsOff == 560 + 34 * f.leafCount + 30 * f.glyphs + 2 * f.outliers
            && 560 + 34 * f.leafCount + 30 * f.glyphs + 34 * f.outliers <= size
  {
    if Accepts(f, size) { AcceptedFieldsDoNotWrap(f, size); }
  }

  lemma MagicIff(blob: seq<byte>)
    requires |blob| >= 4
    ensures ReadU32(blob, 0) == MAGIC <==> blob[..4] == ['M' as int, '4' as int, 'N' as int, 'G' as int]
  {
    if ReadU32(blob, 0) == MAGIC { assert blob[..4] == [0x4D, 0x34, 0x4E, 0x47]; }
    if blob[..4] == ['M' as int, '4' as int, 'N' as int, 'G' as int] {
      assert blob[0] == blob[..4][0] && blob[1] == blob[..4][1] && blob[2] == blob[..4][2] && blob[3] == blob[..4][3];
    }
  }

  /** Everything a bound reader dereferences lies inside the blob. */
  predicate ReadsAreSafe(blob: seq<byte>, b: Bound) {
    && IndexInside(b.index, blob)
    && b.bitmapsOff + b.index.glyphCount * RAW_BYTES <= |blob|
    && b.cpsOff + b.outliers * 2 <= |blob|
    && b.bmpsOff + b.outliers * OUTLIER_BYTES <= |blob|
  }

  /** The k-th code point of the sidecar. */
  function OutlierCp(blob: seq<byte>, b: Bound, k: nat): nat
    requires b.cpsOff + b.outliers * 2 <= |blob| && k < b.outliers
  {
    ReadU16(blob, b.cpsOff + 2 * k)
  }

  ghost predicate OutliersSorted(blob: seq<byte>, b: Bound)
    requires b.cpsOff + b.outliers * 2 <= |blob|
  {
    forall i, j :: 0 <= i < j < b.outliers ==> OutlierCp(blob, b, i) < OutlierCp(blob, b, j)
  }

  /** `outlierIndex`: bisection over the sidecar. */
  method OutlierIndex(blob: seq<byte>, b: Bound, cp: nat) returns (r: Option<nat>)
    requires b.cpsOff + b.outliers * 2 <= |blob|
    ensures r.Some? ==> r.value < b.outliers && OutlierCp(blob, b, r.value) == cp
    ensures OutliersSorted(blob, b) && r.None? ==> forall k :: 0 <= k < b.outliers ==> OutlierCp(blob, b, k) != cp
  {
    if cp > 0xFFFF || b.outliers == 0 { return None; }
    var lo, hi := 0, b.outliers - 1;
    while lo <= hi
      invariant 0 <= lo && hi < b.outliers
      invariant OutliersSorted(blob, b) ==>
                  forall k :: 0 <= k < b.outliers && !(lo <= k <= hi) ==> OutlierCp(blob, b, k) != cp
    {
      var mid := lo + (hi - lo) / 2;
      var v := OutlierCp(blob, b, mid);
      if cp == v { return Some(mid); }
      if cp < v { hi := mid - 1; } else { lo := mid + 1; }
    }
    return None;
  }

  // ---------- end to end ----------

  /** Code points as the sidecar stores them. */
  function CpBytes(cps: seq<nat>): seq<seq<byte>>
    requires AllBmp(cps)
  {
    seq(|cps|, i requires 0 <= i < |cps| => U16(cps[i]))
  }

  ghost predicate Sections(blob: seq<byte>, pageDir: seq<byte>, leaves: seq<byte>, bmp: seq<byte>,
                           cps: seq<byte>, obmp: seq<byte>, glyphs: nat, leafCount: nat, outliers: nat) {
    && glyphs < U16_LIMIT && leafCount <= 256 && outliers < U16_LIMIT
    && |pageDir| == DIR_BYTES && |leaves| == leafCount * LEAF_BYTES && |bmp| == glyphs * RAW_BYTES
    && |cps| == outliers * 2 && |obmp| == outliers * OUTLIER_BYTES
    && var leavesOff := HEADER_BYTES + DIR_BYTES;
       var bitmapsOff := leavesOff + |leaves|;
       var cpsOff := bitmapsOff + |bmp|;
       var bmpsOff := cpsOff + |cps|;
       && |blob| == bmpsOff + |obmp|
       && blob[..HEADER_BYTES] == Header(outliers, glyphs, leafCount, bitmapsOff, cpsOff, bmpsOff)
       && blob[HEADER_BYTES..leavesOff] == pageDir
       && blob[leavesOff..bitmapsOff] == leaves
       && blob[bitmapsOff..cpsOff] == bmp
       && blob[cpsOff..bmpsOff] == cps
       && blob[bmpsOff..] == obmp
  }

  lemma SectionsBind(blob: seq<byte>, pageDir: seq<byte>, leaves: seq<byte>, bmp: seq<byte>, cps: seq<byte>,
                     obmp: seq<byte>, glyphs: nat, leafCount: nat, outliers: nat)
    requires Sections(blob, pageDir, leaves, bmp, cps, obmp, glyphs, leafCount, outliers)
    ensures var bitmapsOff := HEADER_BYTES + DIR_BYTES + |leaves|;
            Bind(blob) == Some(Bound(IndexView(HEADER_BYTES, HEADER_BYTES + DIR_BYTES, leafCount, glyphs),
                                     bitmapsOff, bitmapsOff + |bmp|, bitmapsOff + |bmp| + |cps|, outliers))
  {
    hide Header, ReadU16, ReadU32;
    var bitmapsOff := HEADER_BYTES + DIR_BYTES + |leaves|;
    FieldsReadBack(blob[..HEADER_BYTES], outliers, glyphs, leafCount, bitmapsOff, bitmapsOff + |bmp|,
                   bitmapsOff + |bmp| + |cps|);
    FieldsOfPrefix(blob);
  }

  /** The font data a blob was built from. */
  datatype Font = Font(ordered: seq<nat>, bitmaps: seq<seq<byte>>,
                       outlierCps: seq<nat>, outlierBitmaps: seq<seq<byte>>)
  {
    /** What `collect_corpus` hands over: both code point lists sorted and
        disjoint, one bitmap of the right size for each. */
    ghost predicate WellFormed() {
      && StrictlyIncreasing(ordered) && |bitmaps| == |ordered| && AllOfSize(bitmaps, RAW_BYTES)
      && StrictlyIncreasing(outlierCps) && |outlierBitmaps| == |outlierCps|
      && AllOfSize(outlierBitmaps, OUTLIER_BYTES)
      && forall cp :: cp in ordered ==> cp !in outlierCps
    }

    ghost predicate Answers(got: Option<Glyph>, cp: nat)
      requires WellFormed()
    {
      if cp in ordered then exists i :: 0 <= i < |ordered| && ordered[i] == cp && got == Some(Narrow(bitmaps[i]))
      else if cp in outlierCps then
        exists i :: 0 <= i < |outlierCps| && outlierCps[i] == cp && got == Some(Wide(outlierBitmaps[i]))
      else got == None
    }
  }

  /** A blob whose sections hold the font. */
  ghost predicate Holds(blob: seq<byte>, font: Font, pageDir: seq<byte>, leaves: seq<byte>) {
    && font.WellFormed() && AllBmp(font.ordered) && AllBmp(font.outlierCps)
    && Indexes(pageDir, leaves, font.ordered)
    && Sections(blob, pageDir, leaves, Flatten(font.bitmaps), Flatten(CpBytes(font.outlierCps)),
                Flatten(font.outlierBitmaps), |font.ordered|, |leaves| / LEAF_BYTES, |font.outlierCps|)
  }

  lemma StoredSlice(blob: seq<byte>, at: nat, items: seq<seq<byte>>, size: nat, i: nat)
    requires AllOfSize(items, size) && i < |items|
    requires at + |Flatten(items)| <= |blob| && blob[at..at + |Flatten(items)|] == Flatten(items)
    ensures 0 <= i * size && at + i * size + size <= |blob|
    ensures blob[at + i * size..at + i * size + size] == items[i]
  {
    hide Flatten;
    FlattenItem(items, size, i);
    assert (i + 1) * size == i * size + size;
    SliceOfSlice(blob, at, |Flatten(items)|, i * size, (i + 1) * size);
  }

  lemma HeldBinds(blob: seq<byte>, font: Font, pageDir: seq<byte>, leaves: seq<byte>)
    requires Holds(blob, font, pageDir, leaves)
    ensures Bind(blob).Some?
    ensures var b := Bind(blob).value;
            && Stores(blob, b.index, pageDir, leaves) && b.index.glyphCount == |font.ordered| < U16_LIMIT
            && b.outliers == |font.outlierCps|
            && b.bitmapsOff + |Flatten(font.bitmaps)| <= |blob|
            && blob[b.bitmapsOff..b.bitmapsOff + |Flatten(font.bitmaps)|] == Flatten(font.bitmaps)
            && b.cpsOff + |Flatten(CpBytes(font.outlierCps))| <= |blob|
            && blob[b.cpsOff..b.cpsOff + |Flatten(CpBytes(font.outlierCps))|] == Flatten(CpBytes(font.outlierCps))
            && b.bmpsOff + |Flatten(font.outlierBitmaps)| <= |blob|
            && blob[b.bmpsOff..b.bmpsOff + |Flatten(font.outlierBitmaps)|] == Flatten(font.outlierBitmaps)
  {
    hide Bind, Header, Flatten, Indexes, CpBytes;
    SectionsBind(blob, pageDir, leaves, Flatten(font.bitmaps), Flatten(CpBytes(font.outlierCps)),
                 Flatten(font.outlierBitmaps), |font.ordered|, |leaves| / LEAF_BYTES, |font.outlierCps|);
  }

  lemma HeldOutliers(blob: seq<byte>, font: Font, pageDir: seq<byte>, leaves: seq<byte>)
    requires Holds(blob, font, pageDir, leaves)
    ensures Bind(blob).Some? && Bind(blob).value.outliers == |font.outlierCps|
    ensures forall k :: 0 <= k < |font.outlierCps| ==> OutlierCp(blob, Bind(blob).value, k) == font.outlierCps[k]
    ensures OutliersSorted(blob, Bind(blob).value)
  {
    HeldBinds(blob, font, pageDir, leaves);
    hide Bind, Header, Flatten, Indexes, Sections;
    var b := Bind(blob).value;
    forall k | 0 <= k < |font.outlierCps| ensures OutlierCp(blob, b, k) == font.outlierCps[k] {
      StoredSlice(blob, b.cpsOff, CpBytes(font.outlierCps), 2, k);
      U16ReadsBack(blob, b.cpsOff + k * 2, font.outlierCps[k]);
    }
  }

  /** `getGlyph` then `loadGlyphBitmap`: on a blob that holds a font, exactly the
      stored bitmap of every code point, from the index or from the sidecar. */
  method FirmwareGlyph(blob: seq<byte>, cp: nat, ghost font: Font, ghost pageDir: seq<byte>, ghost leaves: seq<byte>)
    returns (got: Option<Glyph>)
    requires Holds(blob, font, pageDir, leaves)
    ensures font.Answers(got, cp)
  {
    hide Bind, Header, Flatten, Indexes, Sections, RankedIndexOf, OutlierCp;
    HeldBinds(blob, font, pageDir, leaves);
    var b := Bind(blob).value;
    var rank := RankedIndexOf(blob, b.index, cp);
    if cp in font.ordered {
      ghost var i :| 0 <= i < |font.ordered| && font.ordered[i] == cp;
      FirmwareFindsPosition(blob, b.index, pageDir, leaves, font.ordered, i);
      StoredSlice(blob, b.bitmapsOff, font.bitmaps, RAW_BYTES, i);
    } else {
      FirmwareRejectsOthers(blob, b.index, pageDir, leaves, font.ordered, cp);
    }
    if rank.Some? {
      var at := b.bitmapsOff + rank.value * RAW_BYTES;
      return Some(Narrow(blob[at..at + RAW_BYTES]));
    }
    HeldOutliers(blob, font, pageDir, leaves);
    var k := OutlierIndex(blob, b, cp);
    if k.None? { return None; }
    StoredSlice(blob, b.bmpsOff, font.outlierBitmaps, OUTLIER_BYTES, k.value);
    var at := b.bmpsOff + k.value * OUTLIER_BYTES;
    return Some(Wide(blob[at..at + OUTLIER_BYTES]));
  }

  /** `build_blob`: fails only for a code point outside the BMP or a count that
      does not fit 16 bits; otherwise the blob holds the font. */
  method BuildBlob(font: Font)
    returns (r: Result<seq<byte>, BlobError>, ghost pageDir: seq<byte>, ghost leaves: seq<byte>)
    requires font.WellFormed()
    ensures r.Ok? <==> AllBmp(font.ordered) && AllBmp(font.outlierCps)
                       && |font.ordered| < U16_LIMIT && |font.outlierCps| < U16_LIMIT
    ensures r.Ok? ==> Holds(r.value, font, pageDir, leaves) && Bind(r.value).Some?
  {
    hide Indexes, Flatten, Header, Bind;
    pageDir, leaves := [], [];
    var built := BuildRankedIndex(font.ordered);
    if built.Err? {
      if AllBmp(font.ordered) { IncreasingRanksFit(font.ordered); }
      return Err(IndexFailed(built.error)), [], [];
    }
    var (dir, lvs) := built.value;
    pageDir, leaves := dir, lvs;
    IndexShape(dir, lvs, font.ordered);
    if !AllBmp(font.outlierCps) || |font.outlierCps| >= U16_LIMIT || |font.ordered| >= U16_LIMIT {
      return Err(CountOverflow), [], [];
    }
    var bmp, obmp := Flatten(font.bitmaps), Flatten(font.outlierBitmaps);
    var cps := Flatten(CpBytes(font.outlierCps));
    FlattenLength(font.bitmaps, RAW_BYTES);
    FlattenLength(font.outlierBitmaps, OUTLIER_BYTES);
    FlattenLength(CpBytes(font.outlierCps), 2);
    var leafCount := |lvs| / LEAF_BYTES;
    var bitmapsOff := HEADER_BYTES + DIR_BYTES + |lvs|;
    var header := Header(|font.outlierCps|, |font.ordered|, leafCount, bitmapsOff, bitmapsOff + |bmp|,
                         bitmapsOff + |bmp| + |cps|);
    var blob := header + dir + lvs + bmp + cps + obmp;
    SixSections(blob, header, dir, lvs, bmp, cps, obmp);
    HeldBinds(blob, font, dir, lvs);
    return Ok(blob), dir, lvs;
  }

  lemma SixSections(blob: seq<byte>, a: seq<byte>, b: seq<byte>, c: seq<byte>, d: seq<byte>, e: seq<byte>,
                    f: seq<byte>)
    requires blob == a + b + c + d + e + f
    ensures blob[..|a|] == a
    ensures blob[|a|..|a| + |b|] == b
    ensures blob[|a| + |b|..|a| + |b| + |c|] == c
    ensures blob[|a| + |b| + |c|..|a| + |b| + |c| + |d|] == d
    ensures blob[|a| + |b| + |c| + |d|..|a| + |b| + |c| + |d| + |e|] == e
    ensures blob[|a| + |b| + |c| + |d| + |e|..] == f
  {
  }
}
