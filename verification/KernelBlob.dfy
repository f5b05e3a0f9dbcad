/**
 The center-kernel blob "M4CK": `build_blob` of
 firmware/scripts/generate_m4_center_kernel.py on one side, the firmware reader
 firmware/lib/EpdFont/CenterKernelEpdFont.h on the other.
 */
module KernelBlob {

  import opened Wrappers
  import opened Bytes
  import opened RankedIndex
  import opened PackedFields
  import opened FontBlob

  const GRID := 16
  const OCC_BYTES := 32

  datatype Glyph = Glyph(occupancy: seq<byte>, cls: nat)

  // ---------- writing ----------

  /** The 48 header bytes. */
  function Header(glyphs: nat, leafCount: nat, bitmapsOff: nat, classesOff: nat, classBytes: nat): (h: seq<byte>)
    requires glyphs < U16_LIMIT && leafCount < U16_LIMIT && classBytes < U16_LIMIT
    requires bitmapsOff < U32_LIMIT && classesOff < U32_LIMIT
    ensures |h| == HEADER_BYTES
  {
    var identity := [0x4D, 0x34, 0x43, 0x4B] + U16(1) + U16(0) + U16(glyphs) + U16(leafCount);
    var offsets := U32(HEADER_BYTES) + U32(HEADER_BYTES + DIR_BYTES) + U32(bitmapsOff) + U32(classesOff);
    identity + [GRID, GRID, GRID, 0] + offsets + U16(OCC_BYTES) + U16(classBytes) + Zeros(12)
  }

  /** `kMagic`: the bytes "M4CK" as a little-endian word. */
  const MAGIC := 0x4B43_344D

  // ---------- reading: the firmware ----------

  /** The header fields `bind` looks at. */
  datatype Fields = Fields(magic: nat, glyphs: nat, leafCount: nat, gridW: nat, gridH: nat,
                           dirOff: nat, leavesOff: nat, bitmapsOff: nat, classesOff: nat,
                           bitmapBytes: nat, classBytes: nat)

  function ReadFields(blob: seq<byte>): (f: Fields)
    requires |blob| >= HEADER_BYTES
    ensures f.glyphs < U16_LIMIT && f.leafCount < U16_LIMIT && f.classBytes < U16_LIMIT
  {
    Fields(ReadU32(blob, 0), ReadU16(blob, 8), ReadU16(blob, 10), blob[12], blob[13],
           ReadU32(blob, 16), ReadU32(blob, 20), ReadU32(blob, 24), ReadU32(blob, 28),
           ReadU16(blob, 32), ReadU16(blob, 34))
  }

  lemma {:induction false} FieldsReadBack(h: seq<byte>, glyphs: nat, leafCount: nat, bitmapsOff: nat,
                                          classesOff: nat, classBytes: nat)
    requires glyphs < U16_LIMIT && leafCount < U16_LIMIT && classBytes < U16_LIMIT
    requires bitmapsOff < U32_LIMIT && classesOff < U32_LIMIT
    requires h == Header(glyphs, leafCount, bitmapsOff, classesOff, classBytes)
    ensures ReadFields(h) == Fields(MAGIC, glyphs, leafCount, GRID, GRID, HEADER_BYTES, HEADER_BYTES + DIR_BYTES,
                                    bitmapsOff, classesOff, OCC_BYTES, classBytes)
  {
    hide ReadU16, ReadU32, U16, U32;
    assert h[0..4] == U32(MAGIC) by { assert U32(MAGIC) == [0x4D, 0x34, 0x43, 0x4B] by { MagicBytes(); } }
    U32ReadsBack(h, 0, MAGIC);
    assert h[8..10] == U16(glyphs);
    U16ReadsBack(h, 8, glyphs);
    assert h[10..12] == U16(leafCount);
    U16ReadsBack(h, 10, leafCount);
    assert h[16..20] == U32(HEADER_BYTES);
    U32ReadsBack(h, 16, HEADER_BYTES);
    assert h[20..24] == U32(HEADER_BYTES + DIR_BYTES);
    U32ReadsBack(h, 20, HEADER_BYTES + DIR_BYTES);
    assert h[24..28] == U32(bitmapsOff);
    U32ReadsBack(h, 24, bitmapsOff);
    assert h[28..32] == U32(classesOff);
    U32ReadsBack(h, 28, classesOff);
    assert h[32..34] == U16(OCC_BYTES);
    U16ReadsBack(h, 32, OCC_BYTES);
    assert h[34..36] == U16(classBytes);
    U16ReadsBack(h, 34, classBytes);
  }

  lemma MagicBytes()
    ensures U32(MAGIC) == [0x4D, 0x34, 0x43, 0x4B]
  {
  }

  /** The fields depend on the first 48 bytes only. */
  lemma FieldsOfPrefix(blob: seq<byte>)
    requires |blob| >= HEADER_BYTES
    ensures ReadFields(blob) == ReadFields(blob[..HEADER_BYTES])
  {
  }

  /** The tests of `bind`, with their 32-bit arithmetic, for a blob of `size` bytes. */
  predicate Accepts(f: Fields, size: nat) {
    && f.magic == MAGIC
    && f.gridW == GRID && f.gridH == GRID
    && f.bitmapBytes == OCC_BYTES
    && f.dirOff == HEADER_BYTES
    && (f.dirOff + DIR_BYTES) % U32_LIMIT == f.leavesOff
    && (f.leavesOff + f.leafCount * LEAF_BYTES) % U32_LIMIT == f.bitmapsOff
    && (f.bitmapsOff + f.glyphs * OCC_BYTES) % U32_LIMIT == f.classesOff
    && (f.classesOff + f.classBytes) % U32_LIMIT <= size
    && Expected(f) <= size
  }

  /** The total size the header implies. */
  function Expected(f: Fields): nat {
    (HEADER_BYTES + DIR_BYTES + f.leafCount * LEAF_BYTES + f.glyphs * OCC_BYTES + f.classBytes) % U32_LIMIT
  }

  /** No test of `bind` can be fooled by 32-bit wrap-around: 16-bit counts keep every sum small. */
  lemma AcceptedFieldsDoNotWrap(f: Fields, size: nat)
    requires f.glyphs < U16_LIMIT && f.leafCount < U16_LIMIT && f.classBytes < U16_LIMIT
    requires Accepts(f, size)
    ensures f.leavesOff == HEADER_BYTES + DIR_BYTES
    ensures f.bitmapsOff == f.leavesOff + f.leafCount * LEAF_BYTES
    ensures f.classesOff == f.bitmapsOff + f.glyphs * OCC_BYTES
    ensures f.classesOff + f.classBytes <= size
  {
  }

  datatype Bound = Bound(index: IndexView, bitmapsOff: nat, classesOff: nat)

  /** `bind` */
  function Bind(blob: seq<byte>): (r: Option<Bound>)
    ensures r.Some? ==> ReadsAreSafe(blob, r.value)
  {
    if |blob| < HEADER_BYTES then None
    else
      hide ReadFields, Accepts;
      var f := ReadFields(blob);
      if Accepts(f, |blob|) then
        AcceptedFieldsDoNotWrap(f, |blob|);
        Some(Bound(IndexView(f.dirOff, f.leavesOff, f.leafCount, f.glyphs), f.bitmapsOff, f.classesOff))
      else None
  }

  /** `bind` takes a blob exactly when its magic number, grid and bitmap size are right and
      every section starts where the one before it ends, the last ending inside the blob;
      more bytes may follow, and the version is not looked at. */
  lemma BindIff(blob: seq<byte>)
    ensures Bind(blob).Some?
       <==> && |blob| >= 48 && blob[..4] == ['M' as int, '4' as int, 'C' as int, 'K' as int]
            && blob[12] == 16 && blob[13] == 16 && ReadU16(blob, 32) == 32
            && var glyphs, leaves, classes := ReadU16(blob, 8), ReadU16(blob, 10), ReadU16(blob, 34);
               && ReadU32(blob, 16) == 48 && ReadU32(blob, 20) == 560 && ReadU32(blob, 24) == 560 + 34 * leaves
               && ReadU32(blob, 28) == 560 + 34 * leaves + 32 * glyphs
               && 560 + 34 * leaves + 32 * glyphs + classes <= |blob|
  {
    if |blob| >= HEADER_BYTES {
      MagicIff(blob);
      hide ReadU32, ReadU16, Accepts;
      AcceptsIff(ReadFields(blob), |blob|);
    }
  }

  lemma AcceptsIff(f: Fields, size: nat)
    requires f.glyphs < U16_LIMIT && f.leafCount < U16_LIMIT && f.classBytes < U16_LIMIT
    ensures Accepts(f, size)
       <==> && f.magic == MAGIC && f.gridW == 16 && f.gridH == 16 && f.bitmapBytes == 32
            && f.dirOff == 48 && f.leavesOff == 560 && f.bitmapsOff == 560 + 34 * f.leafCount
            && f.classesOff == 560 + 34 * f.leafCount + 32 * f.glyphs
            && 560 + 34 * f.leafCount + 32 * f.glyphs + f.classBytes <= size
  {
    if Accepts(f, size) { AcceptedFieldsDoNotWrap(f, size); }
  }

  lemma MagicIff(blob: seq<byte>)
    requires |blob| >= 4
    ensures ReadU32(blob, 0) == MAGIC <==> blob[..4] == ['M' as int, '4' as int, 'C' as int, 'K' as int]
  {
    if ReadU32(blob, 0) == MAGIC { assert blob[..4] == [0x4D, 0x34, 0x43, 0x4B]; }
    if blob[..4] == ['M' as int, '4' as int, 'C' as int, 'K' as int] {
      assert blob[0] == blob[..4][0] && blob[1] == blob[..4][1] && blob[2] == blob[..4][2] && blob[3] == blob[..4][3];
    }
  }

  /** Everything a bound reader dereferences lies inside the blob. */
  predicate ReadsAreSafe(blob: seq<byte>, b: Bound) {
    && IndexInside(b.index, blob)
    && b.bitmapsOff + b.index.glyphCount * OCC_BYTES == b.classesOff <= |blob|
  }

  /** `glyphClass`, which answers 1 when the class byte is missing. */
  function GlyphClass(blob: seq<byte>, b: Bound, rank: nat): (c: nat)
    ensures c < 4
  {
    if rank >= b.index.glyphCount then 1
    else if b.classesOff >= |blob| then 1
    else if b.classesOff + rank / 4 >= |blob| then 1
    else FieldAt(blob[b.classesOff + rank / 4], rank % 4)
  }

  /** A class section too short for its glyphs shows class 1 for those beyond the blob. */
  lemma MissingClassIsOne(blob: seq<byte>, b: Bound, rank: nat)
    requires 4 * (|blob| - b.classesOff) <= rank || b.index.glyphCount <= rank
    ensures GlyphClass(blob, b, rank) == 1
  {
  }

  /** What the firmware shows for a code point: `getGlyph` then `loadGlyphBitmap`, before scaling. */
  function FirmwareGlyph(blob: seq<byte>, cp: nat): Option<Glyph> {
    match Bind(blob)
    case None => None
    case Some(b) =>
      match RankedIndexOf(blob, b.index, cp)
      case None => None
      case Some(rank) =>
        var at := b.bitmapsOff + rank * OCC_BYTES;
        assert at + OCC_BYTES <= b.bitmapsOff + b.index.glyphCount * OCC_BYTES;
        Some(Glyph(blob[at..at + OCC_BYTES], GlyphClass(blob, b, rank)))
  }

  /** The length check of `verify_tracked_assets`. */
  predicate LengthAsVerified(blob: seq<byte>) {
    && |blob| >= HEADER_BYTES
    && |blob| == HEADER_BYTES + PAGE_DIR_ENTRIES * 2 + ReadU16(blob, 10) * LEAF_BYTES
               + ReadU16(blob, 8) * OCC_BYTES + ReadU16(blob, 34)
  }

  // ---------- end to end ----------

  /** The blob as its five sections. */
  ghost predicate Sections(blob: seq<byte>, pageDir: seq<byte>, leaves: seq<byte>, bmp: seq<byte>,
                           packed: seq<byte>, glyphs: nat, leafCount: nat) {
    && glyphs < U16_LIMIT && leafCount <= 256 && |packed| < U16_LIMIT
    && |pageDir| == DIR_BYTES && |leaves| == leafCount * LEAF_BYTES && |bmp| == glyphs * OCC_BYTES
    && var leavesOff := HEADER_BYTES + DIR_BYTES;
       var bitmapsOff := leavesOff + |leaves|;
       var classesOff := bitmapsOff + |bmp|;
       && |blob| == classesOff + |packed|
       && blob[..HEADER_BYTES] == Header(glyphs, leafCount, bitmapsOff, classesOff, |packed|)
       && blob[HEADER_BYTES..leavesOff] == pageDir
       && blob[leavesOff..bitmapsOff] == leaves
       && blob[bitmapsOff..classesOff] == bmp
       && blob[classesOff..] == packed
  }

  lemma SectionsBind(blob: seq<byte>, pageDir: seq<byte>, leaves: seq<byte>, bmp: seq<byte>,
                     packed: seq<byte>, glyphs: nat, leafCount: nat)
    requires Sections(blob, pageDir, leaves, bmp, packed, glyphs, leafCount)
    ensures LengthAsVerified(blob)
    ensures var bitmapsOff := HEADER_BYTES + DIR_BYTES + |leaves|;
            Bind(blob) == Some(Bound(IndexView(HEADER_BYTES, HEADER_BYTES + DIR_BYTES, leafCount, glyphs),
                                     bitmapsOff, bitmapsOff + |bmp|))
  {
    hide Header, ReadU16, ReadU32;
    var bitmapsOff := HEADER_BYTES + DIR_BYTES + |leaves|;
    FieldsReadBack(blob[..HEADER_BYTES], glyphs, leafCount, bitmapsOff, bitmapsOff + |bmp|, |packed|);
    FieldsOfPrefix(blob);
  }

  /** What a lookup must answer: the glyph stored with the code point, or nothing. */
  ghost predicate Answers(got: Option<Glyph>, ordered: seq<nat>, bitmaps: seq<seq<byte>>, classes: seq<nat>,
                          cp: nat)
    requires |bitmaps| == |classes| == |ordered|
  {
    if cp in ordered then
      exists i :: 0 <= i < |ordered| && ordered[i] == cp && got == Some(Glyph(bitmaps[i], classes[i] % 4))
    else got == None
  }

  lemma StoredClass(blob: seq<byte>, b: Bound, packed: seq<byte>, i: nat)
    requires i < b.index.glyphCount && b.classesOff <= |blob| && blob[b.classesOff..] == packed
    requires i / 4 < |packed|
    ensures GlyphClass(blob, b, i) == ClassAt(packed, i)
  {
    hide FieldAt;
    assert packed[i / 4] == blob[b.classesOff..][i / 4] == blob[b.classesOff + i / 4];
  }

  lemma StoredBitmap(blob: seq<byte>, bitmapsOff: nat, bitmaps: seq<seq<byte>>, i: nat)
    requires AllOfSize(bitmaps, OCC_BYTES) && i < |bitmaps|
    requires bitmapsOff + |Flatten(bitmaps)| <= |blob|
    requires blob[bitmapsOff..bitmapsOff + |Flatten(bitmaps)|] == Flatten(bitmaps)
    ensures bitmapsOff + i * OCC_BYTES + OCC_BYTES <= |blob|
    ensures blob[bitmapsOff + i * OCC_BYTES..bitmapsOff + i * OCC_BYTES + OCC_BYTES] == bitmaps[i]
  {
    hide Flatten;
    FlattenItem(bitmaps, OCC_BYTES, i);
    SliceOfSlice(blob, bitmapsOff, |Flatten(bitmaps)|, i * OCC_BYTES, (i + 1) * OCC_BYTES);
  }

  lemma StoredGlyph(blob: seq<byte>, pageDir: seq<byte>, leaves: seq<byte>, packed: seq<byte>,
                    leafCount: nat, ordered: seq<nat>, bitmaps: seq<seq<byte>>, classes: seq<nat>, i: nat)
    requires |bitmaps| == |classes| == |ordered| && AllOfSize(bitmaps, OCC_BYTES)
    requires Sections(blob, pageDir, leaves, Flatten(bitmaps), packed, |ordered|, leafCount)
    requires Indexes(pageDir, leaves, ordered) && StrictlyIncreasing(ordered) && AllBmp(ordered)
    requires |packed| == (|classes| + 3) / 4 && i < |ordered|
    requires forall k :: 0 <= k < |classes| ==> ClassAt(packed, k) == classes[k] % 4
    ensures FirmwareGlyph(blob, ordered[i]) == Some(Glyph(bitmaps[i], classes[i] % 4))
  {
    hide Bind, ReadsAreSafe, RankedIndexOf, Header, Flatten, ClassAt, GlyphClass, Indexes, LengthAsVerified;
    SectionsBind(blob, pageDir, leaves, Flatten(bitmaps), packed, |ordered|, leafCount);
    var b := Bind(blob).value;
    FirmwareFindsPosition(blob, b.index, pageDir, leaves, ordered, i);
    StoredBitmap(blob, b.bitmapsOff, bitmaps, i);
    StoredClass(blob, b, packed, i);
  }

  lemma MissingGlyph(blob: seq<byte>, pageDir: seq<byte>, leaves: seq<byte>, bmp: seq<byte>, packed: seq<byte>,
                     leafCount: nat, ordered: seq<nat>, cp: nat)
    requires Sections(blob, pageDir, leaves, bmp, packed, |ordered|, leafCount)
    requires Indexes(pageDir, leaves, ordered) && AllBmp(ordered) && cp !in ordered
    ensures FirmwareGlyph(blob, cp) == None
  {
    hide Bind, ReadsAreSafe, RankedIndexOf, Header, Indexes, LengthAsVerified;
    SectionsBind(blob, pageDir, leaves, bmp, packed, |ordered|, leafCount);
    var b := Bind(blob).value;
    FirmwareRejectsOthers(blob, b.index, pageDir, leaves, ordered, cp);
  }

  lemma BlobAnswers(blob: seq<byte>, pageDir: seq<byte>, leaves: seq<byte>, packed: seq<byte>,
                    leafCount: nat, ordered: seq<nat>, bitmaps: seq<seq<byte>>, classes: seq<nat>)
    requires |bitmaps| == |classes| == |ordered| && AllOfSize(bitmaps, OCC_BYTES)
    requires Sections(blob, pageDir, leaves, Flatten(bitmaps), packed, |ordered|, leafCount)
    requires Indexes(pageDir, leaves, ordered) && StrictlyIncreasing(ordered) && AllBmp(ordered)
    requires |packed| == (|classes| + 3) / 4
    requires forall k :: 0 <= k < |classes| ==> ClassAt(packed, k) == classes[k] % 4
    ensures forall cp: nat :: Answers(FirmwareGlyph(blob, cp), ordered, bitmaps, classes, cp)
  {
    hide FirmwareGlyph, ClassAt, Indexes, Sections;
    forall cp: nat ensures Answers(FirmwareGlyph(blob, cp), ordered, bitmaps, classes, cp) {
      if cp in ordered {
        var i :| 0 <= i < |ordered| && ordered[i] == cp;
        StoredGlyph(blob, pageDir, leaves, packed, leafCount, ordered, bitmaps, classes, i);
      } else {
        MissingGlyph(blob, pageDir, leaves, Flatten(bitmaps), packed, leafCount, ordered, cp);
      }
    }
  }

  /** The self-check at the end of `build_blob`. */
  method SelfCheck(pageDir: seq<byte>, leaves: seq<byte>, ordered: seq<nat>) returns (ok: bool)
    requires Indexes(pageDir, leaves, ordered) && StrictlyIncreasing(ordered) && AllBmp(ordered)
    ensures ok
  {
    var index := 0;
    while index < |ordered|
      invariant index <= |ordered|
    {
      LookupFindsPosition(pageDir, leaves, ordered, index);
      if LookupRank(pageDir, leaves, ordered[index]) != Ok(Some(index)) { return false; }
      index := index + 1;
    }
    return true;
  }

  /**
   `build_blob`.  On sorted code points with one 32-byte bitmap and one class each
   it fails only for a code point outside the BMP or for all 65536 of them (the
   16-bit glyph count cannot hold that); otherwise the firmware binds the blob and
   shows, for every code point, exactly the stored bitmap and class.
   */
  method BuildBlob(ordered: seq<nat>, bitmaps: seq<seq<byte>>, classes: seq<nat>)
    returns (r: Result<seq<byte>, BlobError>)
    requires StrictlyIncreasing(ordered) && |bitmaps| == |classes| == |ordered| && AllOfSize(bitmaps, OCC_BYTES)
    ensures r.Ok? <==> AllBmp(ordered) && |ordered| < U16_LIMIT
    ensures r.Ok? ==> LengthAsVerified(r.value) && Bind(r.value).Some?
    ensures r.Ok? ==> forall cp: nat :: Answers(FirmwareGlyph(r.value, cp), ordered, bitmaps, classes, cp)
  {
    hide Indexes, Flatten, Header, FirmwareGlyph, ClassAt, LengthAsVerified, Bind;
    var built := BuildRankedIndex(ordered);
    if built.Err? {
      if AllBmp(ordered) { IncreasingRanksFit(ordered); }
      return Err(IndexFailed(built.error));
    }
    var (pageDir, leaves) := built.value;
    IndexShape(pageDir, leaves, ordered);
    var bmp := Flatten(bitmaps);
    FlattenLength(bitmaps, OCC_BYTES);
    var packed := PackClasses(classes);
    if |ordered| >= U16_LIMIT { return Err(CountOverflow); }
    var leafCount := |leaves| / LEAF_BYTES;
    var bitmapsOff := HEADER_BYTES + DIR_BYTES + |leaves|;
    var classesOff := bitmapsOff + |bmp|;
    var header := Header(|ordered|, leafCount, bitmapsOff, classesOff, |packed|);
    var blob := header + pageDir + leaves + bmp + packed;
    var checked := SelfCheck(pageDir, leaves, ordered);
    if !checked { return Err(RankMismatch); }
    FiveSections(blob, header, pageDir, leaves, bmp, packed);
    SectionsBind(blob, pageDir, leaves, bmp, packed, |ordered|, leafCount);
    BlobAnswers(blob, pageDir, leaves, packed, leafCount, ordered, bitmaps, classes);
    return Ok(blob);
  }

  lemma FiveSections(blob: seq<byte>, a: seq<byte>, b: seq<byte>, c: seq<byte>, d: seq<byte>, e: seq<byte>)
    requires blob == a + b + c + d + e
    ensures blob[..|a|] == a
    ensures blob[|a|..|a| + |b|] == b
    ensures blob[|a| + |b|..|a| + |b| + |c|] == c
    ensures blob[|a| + |b| + |c|..|a| + |b| + |c| + |d|] == d
    ensures blob[|a| + |b| + |c| + |d|..] == e
  {
  }
}
