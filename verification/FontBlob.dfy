/**
 The two font blobs, written by the Python generators and read by the firmware:
 "M4CK" (16x16 occupancy plus a two-bit class, CenterKernelEpdFont.h) and
 "M4NG" (15x16 bitmaps plus a sidecar of 16x16 outliers, NativeGridEpdFont.h).

 This module is the part both formats share: bitmaps laid end to end and the
 firmware's ranked lookup inside a blob.
 */
module FontBlob {

  import opened Wrappers
  import opened Bytes
  import opened RankedIndex

  const HEADER_BYTES := 48
  const DIR_BYTES := 512

  datatype BlobError = IndexFailed(cause: IndexError) | CountOverflow | RankMismatch

  // ---------- bitmaps laid end to end ----------

  ghost predicate AllOfSize(items: seq<seq<byte>>, size: nat) {
    forall i :: 0 <= i < |items| ==> |items[i]| == size
  }

  /** `b"".join(items)` */
  function Flatten(items: seq<seq<byte>>): seq<byte> {
    if items == [] then [] else Flatten(items[..|items| - 1]) + items[|items| - 1]
  }

  lemma {:induction false} FlattenLength(items: seq<seq<byte>>, size: nat)
    requires AllOfSize(items, size)
    ensures |Flatten(items)| == |items| * size
  {
    if items == [] {
    } else {
      FlattenLength(items[..|items| - 1], size);
      assert |items| * size == (|items| - 1) * size + size;
    }
  }

  lemma {:induction false} FlattenItem(items: seq<seq<byte>>, size: nat, i: nat)
    requires AllOfSize(items, size) && i < |items|
    ensures 0 <= i * size <= (i + 1) * size <= |Flatten(items)|
    ensures Flatten(items)[i * size..(i + 1) * size] == items[i]
  {
    var init := items[..|items| - 1];
    FlattenLength(init, size);
    FlattenLength(items, size);
    assert |items| * size == (|items| - 1) * size + size;
    if i == |items| - 1 {
      assert Flatten(items)[|Flatten(init)|..] == items[i];
    } else {
      FlattenItem(init, size, i);
      assert Flatten(items)[i * size..(i + 1) * size] == Flatten(init)[i * size..(i + 1) * size];
    }
  }

  // ---------- the firmware's ranked lookup ----------

  /** Where a bound blob keeps its index. */
  datatype IndexView = IndexView(dirOff: nat, leavesOff: nat, leafCount: nat, glyphCount: nat)

  predicate IndexInside(view: IndexView, blob: seq<byte>) {
    view.dirOff + DIR_BYTES <= |blob| && view.leavesOff + view.leafCount * LEAF_BYTES <= |blob|
  }

  /** `rankedIndex`: 16-bit sums, a leaf index checked against the leaf count and
      a rank checked against the glyph count. */
  function RankedIndexOf(blob: seq<byte>, view: IndexView, cp: nat): (r: Option<nat>)
    requires IndexInside(view, blob)
    ensures r.Some? ==> r.value < view.glyphCount
  {
    if cp > 0xFFFF then None
    else
      var page, bit := Page(cp), Low(cp);
      var leafIndex := ReadU16(blob, view.dirOff + 2 * page);
      if leafIndex == NO_LEAF || leafIndex >= view.leafCount then None
      else
        var off := view.leavesOff + leafIndex * LEAF_BYTES;
        if !OccupancyBit(blob, off + 2, bit) then None
        else
          var rank := (ReadU16(blob, off) + RankWithin(blob, off + 2, bit)) % U16_LIMIT;
          if rank >= view.glyphCount then None else Some(rank)
  }

  lemma {:induction false} PopSumSame(s: seq<byte>, sOff: nat, t: seq<byte>, tOff: nat, n: nat)
    requires sOff + n <= |s| && tOff + n <= |t|
    requires s[sOff..sOff + n] == t[tOff..tOff + n]
    ensures PopSum(s, sOff, n) == PopSum(t, tOff, n)
  {
    if n == 0 {
    } else {
      assert s[sOff..sOff + (n - 1)] == s[sOff..sOff + n][..n - 1];
      assert t[tOff..tOff + (n - 1)] == t[tOff..tOff + n][..n - 1];
      PopSumSame(s, sOff, t, tOff, n - 1);
      assert s[sOff + n - 1] == s[sOff..sOff + n][n - 1];
      assert t[tOff + n - 1] == t[tOff..tOff + n][n - 1];
    }
  }

  lemma RankWithinSame(s: seq<byte>, sOff: nat, t: seq<byte>, tOff: nat, bit: nat)
    requires sOff + 32 <= |s| && tOff + 32 <= |t| && bit < 256
    requires s[sOff..sOff + 32] == t[tOff..tOff + 32]
    ensures RankWithin(s, sOff, bit) == RankWithin(t, tOff, bit)
    ensures OccupancyBit(s, sOff, bit) == OccupancyBit(t, tOff, bit)
  {
    var n := bit / 8;
    assert s[sOff..sOff + n] == s[sOff..sOff + 32][..n];
    assert t[tOff..tOff + n] == t[tOff..tOff + 32][..n];
    PopSumSame(s, sOff, t, tOff, n);
    assert s[sOff + n] == s[sOff..sOff + 32][n];
    assert t[tOff + n] == t[tOff..tOff + 32][n];
  }

  /** The index lies in the blob where the view says. */
  ghost predicate Stores(blob: seq<byte>, view: IndexView, pageDir: seq<byte>, leaves: seq<byte>) {
    && IndexInside(view, blob)
    && |pageDir| == DIR_BYTES && blob[view.dirOff..view.dirOff + DIR_BYTES] == pageDir
    && |leaves| == view.leafCount * LEAF_BYTES
    && blob[view.leavesOff..view.leavesOff + |leaves|] == leaves
  }

  lemma StoredDirectory(blob: seq<byte>, view: IndexView, pageDir: seq<byte>, leaves: seq<byte>, page: nat)
    requires Stores(blob, view, pageDir, leaves) && page < 256
    ensures ReadU16(blob, view.dirOff + 2 * page) == ReadU16(pageDir, 2 * page)
  {
    var d := blob[view.dirOff..view.dirOff + DIR_BYTES];
    assert d[2 * page] == blob[view.dirOff + 2 * page];
    assert d[2 * page + 1] == blob[view.dirOff + 2 * page + 1];
  }

  lemma StoredLeaf(blob: seq<byte>, view: IndexView, pageDir: seq<byte>, leaves: seq<byte>, leaf: nat, bit: nat)
    requires Stores(blob, view, pageDir, leaves) && leaf < view.leafCount && bit < 256
    ensures leaf * LEAF_BYTES + LEAF_BYTES <= |leaves|
    ensures ReadU16(blob, view.leavesOff + leaf * LEAF_BYTES) == ReadU16(leaves, leaf * LEAF_BYTES)
    ensures OccupancyBit(blob, view.leavesOff + leaf * LEAF_BYTES + 2, bit)
         == OccupancyBit(leaves, leaf * LEAF_BYTES + 2, bit)
    ensures RankWithin(blob, view.leavesOff + leaf * LEAF_BYTES + 2, bit)
         == RankWithin(leaves, leaf * LEAF_BYTES + 2, bit)
  {
    hide OccupancyBit, RankWithin;
    var off := leaf * LEAF_BYTES;
    assert off + LEAF_BYTES <= view.leafCount * LEAF_BYTES;
    var l := blob[view.leavesOff..view.leavesOff + |leaves|];
    SliceOfSlice(blob, view.leavesOff, |leaves|, off + 2, off + 2 + 32);
    RankWithinSame(blob, view.leavesOff + off + 2, leaves, off + 2, bit);
    assert l[off] == blob[view.leavesOff + off] && l[off + 1] == blob[view.leavesOff + (off + 1)];
  }

  /** On a stored index the firmware finds what the generator put there: a member's position, nothing else. */
  lemma FirmwareFindsPosition(blob: seq<byte>, view: IndexView, pageDir: seq<byte>, leaves: seq<byte>,
                              cps: seq<nat>, i: nat)
    requires Stores(blob, view, pageDir, leaves) && Indexes(pageDir, leaves, cps)
    requires StrictlyIncreasing(cps) && AllBmp(cps) && view.glyphCount == |cps| < U16_LIMIT && i < |cps|
    ensures RankedIndexOf(blob, view, cps[i]) == Some(i)
  {
    hide OccupancyBit, RankWithin, Page, Low, Join;
    var page, bit := Page(cps[i]), Low(cps[i]);
    LookupFindsPosition(pageDir, leaves, cps, i);
    PageOfBmp(cps[i]);
    StoredDirectory(blob, view, pageDir, leaves, page);
    var leaf := ReadU16(pageDir, 2 * page);
    assert leaf * LEAF_BYTES + LEAF_BYTES <= |leaves| == view.leafCount * LEAF_BYTES;
    StoredLeaf(blob, view, pageDir, leaves, leaf, bit);
  }

  lemma PageOfBmp(cp: nat)
    requires cp < 0x1_0000
    ensures Page(cp) < 256
  {
  }

  lemma FirmwareRejectsOthers(blob: seq<byte>, view: IndexView, pageDir: seq<byte>, leaves: seq<byte>,
                              cps: seq<nat>, cp: nat)
    requires Stores(blob, view, pageDir, leaves) && Indexes(pageDir, leaves, cps) && AllBmp(cps)
    requires cp !in cps
    ensures RankedIndexOf(blob, view, cp) == None
  {
    hide OccupancyBit, RankWithin, Page, Low, Join;
    if cp <= 0xFFFF {
      var page, bit := Page(cp), Low(cp);
      LookupRejectsOthers(pageDir, leaves, cps, cp);
      PageOfBmp(cp);
      StoredDirectory(blob, view, pageDir, leaves, page);
      var leaf := ReadU16(pageDir, 2 * page);
      if leaf != NO_LEAF && leaf < view.leafCount {
        StoredLeaf(blob, view, pageDir, leaves, leaf, bit);
      }
    }
  }

  lemma IndexShape(pageDir: seq<byte>, leaves: seq<byte>, ordered: seq<nat>)
    requires Indexes(pageDir, leaves, ordered)
    ensures |pageDir| == DIR_BYTES && |leaves| == |leaves| / LEAF_BYTES * LEAF_BYTES
    ensures |leaves| / LEAF_BYTES <= 256
  {
  }
}
