/**
 The ranked font index (firmware/scripts/generate_m4_center_kernel.py and
 generate_m4_native_grid.py): a page directory, and one leaf per non-empty page
 holding the rank of the page's first code point and a 256-bit occupancy set.

 The scripts check the index on the code points of one font.  Here it is shown
 right for every list and every code point: a member's rank is its position in
 the list, and every other code point is absent.
 */
module RankedIndex {

  import opened Wrappers
  import opened Bytes
  import opened Bits

  const PAGE_DIR_ENTRIES := 256
  const LEAF_BYTES := 34
  const NO_LEAF := 0xFFFF

  datatype IndexError = NonBmp | RankOverflow | OutOfRange

  // ---------- code point lists ----------

  predicate StrictlyIncreasing(cps: seq<nat>) {
    forall i, j :: 0 <= i < j < |cps| ==> cps[i] < cps[j]
  }

  predicate AllBmp(cps: seq<nat>) {
    forall i :: 0 <= i < |cps| ==> cps[i] < 0x1_0000
  }

  /** How many code points of the list are below `c`. */
  function CountBelow(cps: seq<nat>, c: nat): (n: nat)
    ensures n <= |cps|
  {
    if cps == [] then 0
    else CountBelow(cps[..|cps| - 1], c) + (if cps[|cps| - 1] < c then 1 else 0)
  }

  function Page(cp: nat): nat { cp / 256 }

  function Low(cp: nat): (b: nat)
    ensures b < 256
  {
    cp % 256
  }

  function Join(page: nat, b: nat): nat { 256 * page + b }

  lemma JoinSplits(cp: nat, page: nat, b: nat)
    requires b < 256
    ensures cp == Join(page, b) <==> Page(cp) == page && Low(cp) == b
  {
  }

  /** The low bytes of the code points of one page, in list order. */
  function LowBytes(cps: seq<nat>, page: nat): seq<nat> {
    if cps == [] then []
    else
      LowBytes(cps[..|cps| - 1], page)
      + (if Page(cps[|cps| - 1]) == page then [Low(cps[|cps| - 1])] else [])
  }

  predicate PageUsed(cps: seq<nat>, page: nat) {
    LowBytes(cps, page) != []
  }

  lemma {:induction false} LowBytesMembers(cps: seq<nat>, page: nat, b: nat)
    ensures b in LowBytes(cps, page) <==> b < 256 && Join(page, b) in cps
  {
    if cps == [] {
    } else {
      var init, last := cps[..|cps| - 1], cps[|cps| - 1];
      LowBytesMembers(init, page, b);
      assert cps == init + [last];
      if b < 256 { JoinSplits(last, page, b); }
    }
  }

  lemma {:induction false} LowBytesCount(cps: seq<nat>, page: nat)
    ensures CountBelow(cps, Join(page + 1, 0)) == CountBelow(cps, Join(page, 0)) + |LowBytes(cps, page)|
  {
    if cps == [] {
    } else {
      LowBytesCount(cps[..|cps| - 1], page);
    }
  }

  lemma MemberUsesPage(cps: seq<nat>, i: nat)
    requires i < |cps|
    ensures PageUsed(cps, Page(cps[i]))
  {
    JoinSplits(cps[i], Page(cps[i]), Low(cps[i]));
    LowBytesMembers(cps, Page(cps[i]), Low(cps[i]));
  }

  /** The 16-bit rank bases of the list all fit. */
  ghost predicate RanksFit(cps: seq<nat>) {
    forall page: nat :: PageUsed(cps, page) ==> CountBelow(cps, Join(page, 0)) < U16_LIMIT
  }

  lemma {:induction false} CountBelowMonotone(cps: seq<nat>, c: nat, d: nat)
    requires c <= d
    ensures CountBelow(cps, c) <= CountBelow(cps, d)
  {
    if cps == [] {
    } else {
      CountBelowMonotone(cps[..|cps| - 1], c, d);
    }
  }

  lemma {:induction false} CountBelowAll(cps: seq<nat>, c: nat)
    ensures CountBelow(cps, c) == |cps| <==> forall i :: 0 <= i < |cps| ==> cps[i] < c
  {
    if cps == [] {
    } else {
      var init := cps[..|cps| - 1];
      CountBelowAll(init, c);
      assert forall i :: 0 <= i < |init| ==> init[i] == cps[i];
    }
  }

  /** In a strictly increasing list one more value below the bound is one more element, if it is listed. */
  lemma {:induction false} CountBelowStep(cps: seq<nat>, c: nat)
    requires StrictlyIncreasing(cps)
    ensures CountBelow(cps, c + 1) == CountBelow(cps, c) + (if c in cps then 1 else 0)
  {
    if cps == [] {
    } else {
      var init, last := cps[..|cps| - 1], cps[|cps| - 1];
      CountBelowStep(init, c);
      assert cps == init + [last];
      assert last !in init;
    }
  }

  /** The position of a member is the number of smaller members. */
  lemma {:induction false} CountBelowMember(cps: seq<nat>, i: nat)
    requires StrictlyIncreasing(cps) && i < |cps|
    ensures CountBelow(cps, cps[i]) == i
  {
    var init := cps[..|cps| - 1];
    if i == |cps| - 1 {
      CountBelowAll(init, cps[i]);
    } else {
      CountBelowMember(init, i);
    }
  }

  lemma {:induction false} CountBelowAtMost(cps: seq<nat>, c: nat)
    requires StrictlyIncreasing(cps)
    ensures CountBelow(cps, c) <= c
  {
    if c == 0 {
      CountBelowNone(cps);
    } else {
      CountBelowAtMost(cps, c - 1);
      CountBelowStep(cps, c - 1);
    }
  }

  lemma {:induction false} CountBelowNone(cps: seq<nat>)
    ensures CountBelow(cps, 0) == 0
  {
    if cps == [] {
    } else {
      CountBelowNone(cps[..|cps| - 1]);
    }
  }

  /** No rank base of a strictly increasing BMP list can overflow its 16 bits. */
  lemma IncreasingRanksFit(cps: seq<nat>)
    requires StrictlyIncreasing(cps) && AllBmp(cps)
    ensures RanksFit(cps)
  {
    forall page: nat | PageUsed(cps, page) ensures CountBelow(cps, Join(page, 0)) < U16_LIMIT {
      LowBytesMembers(cps, page, LowBytes(cps, page)[0]);
      CountBelowAtMost(cps, Join(page, 0));
    }
  }

  // ---------- occupancy sets ----------

  /** Bit `b` of the 256-bit set stored from offset `off` on. */
  predicate OccupancyBit(s: seq<byte>, off: nat, b: nat)
    requires off + b / 8 < |s|
  {
    Bit(s[off + b / 8], b % 8)
  }

  /** How many of the values below `bit` are in the set. */
  function CountOccupied(s: seq<byte>, off: nat, bit: nat): nat
    requires off + 32 <= |s| && bit <= 256
  {
    if bit == 0 then 0
    else CountOccupied(s, off, bit - 1) + (if OccupancyBit(s, off, bit - 1) then 1 else 0)
  }

  /** Popcounts of the first `n` bytes of the set. */
  function PopSum(s: seq<byte>, off: nat, n: nat): nat
    requires off + n <= |s|
  {
    if n == 0 then 0 else PopSum(s, off, n - 1) + PopCount(s[off + n - 1])
  }

  /** What the lookup adds up: whole bytes, then the masked byte. */
  function RankWithin(s: seq<byte>, off: nat, bit: nat): nat
    requires off + 32 <= |s| && bit < 256
  {
    PopSum(s, off, bit / 8) + (if bit % 8 == 0 then 0 else PopCount(MaskLow(s[off + bit / 8], bit % 8)))
  }

  lemma {:induction false} CountOccupiedWithinByte(s: seq<byte>, off: nat, n: nat, r: nat)
    requires off + 32 <= |s| && n < 32 && r <= 8
    ensures CountOccupied(s, off, 8 * n + r) == CountOccupied(s, off, 8 * n) + CountBits(s[off + n], r)
  {
    if r == 0 {
    } else {
      CountOccupiedWithinByte(s, off, n, r - 1);
      assert (8 * n + r - 1) / 8 == n && (8 * n + r - 1) % 8 == r - 1;
    }
  }

  lemma {:induction false} PopSumCounts(s: seq<byte>, off: nat, n: nat)
    requires off + 32 <= |s| && n <= 32
    ensures PopSum(s, off, n) == CountOccupied(s, off, 8 * n)
  {
    if n == 0 {
    } else {
      hide PopCount, CountBits, CountOccupied;
      PopSumCounts(s, off, n - 1);
      PopCountByte(s[off + n - 1]);
      CountOccupiedWithinByte(s, off, n - 1, 8);
    }
  }

  lemma PopCountByte(v: byte)
    ensures PopCount(v) == CountBits(v, 8)
  {
    hide PopCount, CountBits;
    assert Pow2(8) == 256;
    PopCountWhole(v, 8);
  }

  /** The popcount arithmetic of the lookup counts the smaller members of the set. */
  lemma RankWithinCounts(s: seq<byte>, off: nat, bit: nat)
    requires off + 32 <= |s| && bit < 256
    ensures RankWithin(s, off, bit) == CountOccupied(s, off, bit)
  {
    hide PopCount, MaskLow, CountBits, CountOccupied, PopSum;
    var n, r := bit / 8, bit % 8;
    PopSumCounts(s, off, n);
    CountOccupiedWithinByte(s, off, n, r);
    PopCountMask(s[off + n], r);
    assert bit == 8 * n + r;
  }

  // ---------- lookup ----------

  /** `lookup_rank`; an index outside the byte strings is Python's IndexError. */
  function LookupRank(pageDir: seq<byte>, leaves: seq<byte>, cp: nat): Result<Option<nat>, IndexError> {
    var page, bit := Page(cp), Low(cp);
    if 2 * page + 2 > |pageDir| then Err(OutOfRange)
    else
      var leafIndex := ReadU16(pageDir, 2 * page);
      if leafIndex == NO_LEAF then Ok(None)
      else
        var off := leafIndex * LEAF_BYTES;
        if off + LEAF_BYTES > |leaves| then Err(OutOfRange)
        else if !OccupancyBit(leaves, off + 2, bit) then Ok(None)
        else Ok(Some(ReadU16(leaves, off) + RankWithin(leaves, off + 2, bit)))
  }

  // ---------- what a right index looks like ----------

  ghost predicate LeafHolds(leaves: seq<byte>, leaf: nat, cps: seq<nat>, page: nat) {
    && (leaf + 1) * LEAF_BYTES <= |leaves|
    && ReadU16(leaves, leaf * LEAF_BYTES) == CountBelow(cps, Join(page, 0))
    && forall b :: 0 <= b < 256 ==> (OccupancyBit(leaves, leaf * LEAF_BYTES + 2, b) <==> Join(page, b) in cps)
  }

  ghost predicate EntryHolds(pageDir: seq<byte>, leaves: seq<byte>, cps: seq<nat>, page: nat)
    requires 2 * page + 2 <= |pageDir|
  {
    var entry := ReadU16(pageDir, 2 * page);
    if PageUsed(cps, page) then entry < 256 && LeafHolds(leaves, entry, cps, page)
    else entry == NO_LEAF
  }

  ghost predicate Indexes(pageDir: seq<byte>, leaves: seq<byte>, cps: seq<nat>) {
    && |pageDir| == 2 * PAGE_DIR_ENTRIES
    && |leaves| % LEAF_BYTES == 0 && |leaves| <= 256 * LEAF_BYTES
    && forall page :: 0 <= page < PAGE_DIR_ENTRIES ==> EntryHolds(pageDir, leaves, cps, page)
  }

  lemma {:induction false} CountOccupiedCounts(leaves: seq<byte>, leaf: nat, cps: seq<nat>, page: nat, bit: nat)
    requires StrictlyIncreasing(cps) && LeafHolds(leaves, leaf, cps, page) && bit <= 256
    ensures CountBelow(cps, Join(page, bit))
         == CountBelow(cps, Join(page, 0)) + CountOccupied(leaves, leaf * LEAF_BYTES + 2, bit)
  {
    if bit == 0 {
    } else {
      CountOccupiedCounts(leaves, leaf, cps, page, bit - 1);
      CountBelowStep(cps, Join(page, bit - 1));
    }
  }

  /** A member of the list is found at its position. */
  lemma LookupFindsPosition(pageDir: seq<byte>, leaves: seq<byte>, cps: seq<nat>, i: nat)
    requires StrictlyIncreasing(cps) && AllBmp(cps) && Indexes(pageDir, leaves, cps) && i < |cps|
    ensures LookupRank(pageDir, leaves, cps[i]) == Ok(Some(i))
  {
    var page, bit := Page(cps[i]), Low(cps[i]);
    assert EntryHolds(pageDir, leaves, cps, page);
    MemberUsesPage(cps, i);
    var leaf := ReadU16(pageDir, 2 * page);
    JoinSplits(cps[i], page, bit);
    assert cps[i] in cps;
    RankWithinCounts(leaves, leaf * LEAF_BYTES + 2, bit);
    CountOccupiedCounts(leaves, leaf, cps, page, bit);
    CountBelowMember(cps, i);
  }

  /** Every other code point of the BMP is absent. */
  lemma LookupRejectsOthers(pageDir: seq<byte>, leaves: seq<byte>, cps: seq<nat>, cp: nat)
    requires Indexes(pageDir, leaves, cps) && cp < 0x1_0000 && cp !in cps
    ensures LookupRank(pageDir, leaves, cp) == Ok(None)
  {
    var page, bit := Page(cp), Low(cp);
    assert EntryHolds(pageDir, leaves, cps, page);
    JoinSplits(cp, page, bit);
  }

  // ---------- construction ----------

  /** `pages`: the low bytes of the code points, grouped by high byte. */
  ghost predicate Groups(pages: map<nat, seq<nat>>, cps: seq<nat>) {
    forall page: nat :: (page in pages <==> PageUsed(cps, page))
                     && (page in pages ==> pages[page] == LowBytes(cps, page))
  }

  lemma GroupsExtend(pages: map<nat, seq<nat>>, cps: seq<nat>, cp: nat)
    requires Groups(pages, cps)
    ensures Groups(pages[Page(cp) := (if Page(cp) in pages then pages[Page(cp)] else []) + [Low(cp)]], cps + [cp])
  {
    hide Page, Low;
    assert (cps + [cp])[..|cps|] == cps;
    assert forall p: nat ::
        LowBytes(cps + [cp], p) == LowBytes(cps, p) + (if Page(cp) == p then [Low(cp)] else []);
  }

  /** The grouping loop of `build_ranked_index`. */
  method GroupByPage(cps: seq<nat>) returns (pages: map<nat, seq<nat>>)
    ensures Groups(pages, cps)
  {
    hide Page, Low, LowBytes;
    pages := map[];
    assert Groups(pages, []) by { NothingGrouped(); }
    var i := 0;
    while i < |cps|
      invariant i <= |cps|
      invariant Groups(pages, cps[..i])
    {
      var page := Page(cps[i]);
      GroupsExtend(pages, cps[..i], cps[i]);
      assert cps[..i] + [cps[i]] == cps[..i + 1];
      pages := pages[page := (if page in pages then pages[page] else []) + [Low(cps[i])]];
      i := i + 1;
    }
    assert cps[..i] == cps;
  }

  lemma NothingGrouped()
    ensures Groups(map[], [])
  {
  }

  lemma SetOccupancy(occupancy: seq<byte>, bit: nat)
    requires |occupancy| == 32 && bit < 256
    ensures SetBit(occupancy[bit / 8], bit % 8) < 256
    ensures forall b :: 0 <= b < 256 ==>
              (OccupancyBit(occupancy[bit / 8 := SetBit(occupancy[bit / 8], bit % 8)], 0, b)
               <==> b == bit || OccupancyBit(occupancy, 0, b))
  {
    assert Pow2(8) == 256;
    SetBitStaysBelow(occupancy[bit / 8], bit % 8, 8);
    var next: seq<byte> := occupancy[bit / 8 := SetBit(occupancy[bit / 8], bit % 8)];
    forall b | 0 <= b < 256
      ensures OccupancyBit(next, 0, b) <==> b == bit || OccupancyBit(occupancy, 0, b)
    {
      SetBitSets(occupancy[bit / 8], bit % 8, b % 8);
    }
  }

  /** The occupancy loop of `build_ranked_index`. */
  method FillOccupancy(bits: seq<nat>) returns (occupancy: seq<byte>)
    requires forall b :: b in bits ==> b < 256
    ensures |occupancy| == 32
    ensures forall b :: 0 <= b < 256 ==> (OccupancyBit(occupancy, 0, b) <==> b in bits)
  {
    occupancy := Zeros(32);
    forall b | 0 <= b < 256 ensures !OccupancyBit(occupancy, 0, b) { BitOfZero(b % 8); }
    var i := 0;
    while i < |bits|
      invariant i <= |bits| && |occupancy| == 32
      invariant forall b :: 0 <= b < 256 ==> (OccupancyBit(occupancy, 0, b) <==> b in bits[..i])
    {
      var bit := bits[i];
      assert bit in bits;
      SetOccupancy(occupancy, bit);
      assert bits[..i + 1] == bits[..i] + [bit];
      occupancy := occupancy[bit / 8 := SetBit(occupancy[bit / 8], bit % 8)];
      i := i + 1;
    }
    assert bits[..i] == bits;
  }

  /** Appending a leaf leaves the earlier leaves as they were. */
  lemma LeafSurvives(leaves: seq<byte>, more: seq<byte>, leaf: nat, cps: seq<nat>, page: nat)
    requires LeafHolds(leaves, leaf, cps, page)
    ensures LeafHolds(leaves + more, leaf, cps, page)
  {
    forall b | 0 <= b < 256
      ensures OccupancyBit(leaves + more, leaf * LEAF_BYTES + 2, b) <==> Join(page, b) in cps
    {
      assert OccupancyBit(leaves, leaf * LEAF_BYTES + 2, b) <==> Join(page, b) in cps;
    }
  }

  lemma LeafAppended(leaves: seq<byte>, leaf: nat, occupancy: seq<byte>, cps: seq<nat>, page: nat)
    requires |leaves| == leaf * LEAF_BYTES && |occupancy| == 32
    requires CountBelow(cps, Join(page, 0)) < U16_LIMIT
    requires forall b :: 0 <= b < 256 ==> (OccupancyBit(occupancy, 0, b) <==> Join(page, b) in cps)
    ensures LeafHolds(leaves + U16(CountBelow(cps, Join(page, 0))) + occupancy, leaf, cps, page)
  {
    var next := leaves + U16(CountBelow(cps, Join(page, 0))) + occupancy;
    assert next[|leaves|..|leaves| + 2] == U16(CountBelow(cps, Join(page, 0)));
    U16ReadsBack(next, |leaves|, CountBelow(cps, Join(page, 0)));
    forall b | 0 <= b < 256
      ensures OccupancyBit(next, leaf * LEAF_BYTES + 2, b) <==> Join(page, b) in cps
    {
      assert next[|leaves| + 2 + b / 8] == occupancy[b / 8];
      assert OccupancyBit(occupancy, 0, b) <==> Join(page, b) in cps;
    }
  }

  lemma EntriesSurvive(pageDir: seq<byte>, page: nat, entry: nat, other: nat)
    requires |pageDir| == 2 * PAGE_DIR_ENTRIES && page < PAGE_DIR_ENTRIES && other < PAGE_DIR_ENTRIES
    requires entry < U16_LIMIT
    ensures ReadU16(Splice(pageDir, 2 * page, U16(entry)), 2 * other)
         == if other == page then entry else ReadU16(pageDir, 2 * other)
  {
    var next := Splice(pageDir, 2 * page, U16(entry));
    if other == page { U16ReadsBack(next, 2 * page, entry); }
  }

  /** The pages below `done` are indexed, the others have no leaf yet. */
  ghost predicate IndexedUpTo(pageDir: seq<byte>, leaves: seq<byte>, cps: seq<nat>, leafIndex: nat, done: nat) {
    && |pageDir| == 2 * PAGE_DIR_ENTRIES && |leaves| == leafIndex * LEAF_BYTES && leafIndex <= done
    && (forall page :: 0 <= page < done && page < PAGE_DIR_ENTRIES ==> EntryHolds(pageDir, leaves, cps, page))
    && (forall page :: done <= page < PAGE_DIR_ENTRIES ==> ReadU16(pageDir, 2 * page) == NO_LEAF)
  }

  lemma IndexOnePage(pageDir: seq<byte>, leaves: seq<byte>, cps: seq<nat>, leafIndex: nat, page: nat,
                     occupancy: seq<byte>)
    requires page < PAGE_DIR_ENTRIES && IndexedUpTo(pageDir, leaves, cps, leafIndex, page)
    requires PageUsed(cps, page) && CountBelow(cps, Join(page, 0)) < U16_LIMIT && |occupancy| == 32
    requires forall b :: 0 <= b < 256 ==> (OccupancyBit(occupancy, 0, b) <==> Join(page, b) in cps)
    ensures IndexedUpTo(Splice(pageDir, 2 * page, U16(leafIndex)),
                        leaves + U16(CountBelow(cps, Join(page, 0))) + occupancy, cps, leafIndex + 1, page + 1)
  {
    var nextDir := Splice(pageDir, 2 * page, U16(leafIndex));
    var more := U16(CountBelow(cps, Join(page, 0))) + occupancy;
    var nextLeaves := leaves + U16(CountBelow(cps, Join(page, 0))) + occupancy;
    assert nextLeaves == leaves + more;
    LeafAppended(leaves, leafIndex, occupancy, cps, page);
    forall p | 0 <= p < page + 1 ensures EntryHolds(nextDir, nextLeaves, cps, p) {
      EntriesSurvive(pageDir, page, leafIndex, p);
      assert p < page ==> EntryHolds(pageDir, leaves, cps, p);
      if p < page && PageUsed(cps, p) {
        LeafSurvives(leaves, more, ReadU16(pageDir, 2 * p), cps, p);
      }
    }
    forall p | page + 1 <= p < PAGE_DIR_ENTRIES ensures ReadU16(nextDir, 2 * p) == NO_LEAF {
      EntriesSurvive(pageDir, page, leafIndex, p);
    }
  }

  lemma SkipOnePage(pageDir: seq<byte>, leaves: seq<byte>, cps: seq<nat>, leafIndex: nat, page: nat)
    requires page < PAGE_DIR_ENTRIES && IndexedUpTo(pageDir, leaves, cps, leafIndex, page)
    requires !PageUsed(cps, page)
    ensures IndexedUpTo(pageDir, leaves, cps, leafIndex, page + 1)
  {
    assert EntryHolds(pageDir, leaves, cps, page);
  }

  function FreshDirectory(): (dir: seq<byte>)
    ensures |dir| == 2 * PAGE_DIR_ENTRIES
    ensures forall page :: 0 <= page < PAGE_DIR_ENTRIES ==> ReadU16(dir, 2 * page) == NO_LEAF
  {
    seq(2 * PAGE_DIR_ENTRIES, _ => 0xFF)
  }

  /** `build_ranked_index`.  It succeeds exactly on lists that stay in the BMP
      and whose rank bases fit, and what it returns indexes the list. */
  method BuildRankedIndex(cps: seq<nat>) returns (r: Result<(seq<byte>, seq<byte>), IndexError>)
    ensures r.Ok? <==> AllBmp(cps) && RanksFit(cps)
    ensures r.Ok? ==> Indexes(r.value.0, r.value.1, cps)
  {
    hide Page, Low, Join, LowBytes, LeafHolds;
    var pages := GroupByPage(cps);
    var pageDir := FreshDirectory();
    var leaves: seq<byte> := [];
    var rankBase, leafIndex := 0, 0;
    var page := 0;
    FirstPageStartsAtZero(cps);
    while page < PAGE_DIR_ENTRIES
      invariant page <= PAGE_DIR_ENTRIES
      invariant rankBase == CountBelow(cps, Join(page, 0))
      invariant IndexedUpTo(pageDir, leaves, cps, leafIndex, page)
      invariant forall p: nat :: p < page && PageUsed(cps, p) ==> CountBelow(cps, Join(p, 0)) < U16_LIMIT
    {
      LowBytesCount(cps, page);
      if page in pages {
        if rankBase >= U16_LIMIT { return Err(RankOverflow); }
        var bits := pages[page];
        LowBytesAreBytes(cps, page);
        var occupancy := FillOccupancy(bits);
        forall b | 0 <= b < 256 ensures OccupancyBit(occupancy, 0, b) <==> Join(page, b) in cps {
          LowBytesMembers(cps, page, b);
        }
        IndexOnePage(pageDir, leaves, cps, leafIndex, page, occupancy);
        pageDir := Splice(pageDir, 2 * page, U16(leafIndex));
        leaves := leaves + U16(rankBase) + occupancy;
        rankBase := rankBase + |bits|;
        leafIndex := leafIndex + 1;
      } else {
        SkipOnePage(pageDir, leaves, cps, leafIndex, page);
      }
      page := page + 1;
    }
    PagesCoverBmp(cps);
    if rankBase != |cps| { return Err(NonBmp); }
    BmpPagesFit(cps);
    FinishedIndex(pageDir, leaves, cps, leafIndex);
    return Ok((pageDir, leaves));
  }

  lemma FinishedIndex(pageDir: seq<byte>, leaves: seq<byte>, cps: seq<nat>, leafIndex: nat)
    requires IndexedUpTo(pageDir, leaves, cps, leafIndex, PAGE_DIR_ENTRIES)
    ensures Indexes(pageDir, leaves, cps)
  {
  }

  lemma FirstPageStartsAtZero(cps: seq<nat>)
    ensures CountBelow(cps, Join(0, 0)) == 0
  {
    CountBelowNone(cps);
  }

  lemma PagesCoverBmp(cps: seq<nat>)
    ensures CountBelow(cps, Join(PAGE_DIR_ENTRIES, 0)) == |cps| <==> AllBmp(cps)
  {
    CountBelowAll(cps, 0x1_0000);
  }

  lemma LowBytesAreBytes(cps: seq<nat>, page: nat)
    ensures forall b :: b in LowBytes(cps, page) ==> b < 256
  {
    forall b | b in LowBytes(cps, page) ensures b < 256 { LowBytesMembers(cps, page, b); }
  }

  lemma BmpPagesFit(cps: seq<nat>)
    requires AllBmp(cps)
    requires forall p: nat :: p < PAGE_DIR_ENTRIES && PageUsed(cps, p) ==> CountBelow(cps, Join(p, 0)) < U16_LIMIT
    ensures RanksFit(cps)
  {
    forall page: nat | PageUsed(cps, page) ensures page < PAGE_DIR_ENTRIES {
      LowBytesMembers(cps, page, LowBytes(cps, page)[0]);
    }
  }

  /** The index built from any strictly increasing BMP list answers every BMP
      code point: members by their position, others by None. */
  method BuildAndLookup(cps: seq<nat>, cp: nat) returns (rank: Result<Option<nat>, IndexError>)
    requires StrictlyIncreasing(cps) && AllBmp(cps) && cp < 0x1_0000
    ensures rank == Ok(if cp in cps then Some(CountBelow(cps, cp)) else None)
    ensures forall i :: 0 <= i < |cps| && cps[i] == cp ==> rank == Ok(Some(i))
  {
    IncreasingRanksFit(cps);
    var built := BuildRankedIndex(cps);
    var (pageDir, leaves) := built.value;
    rank := LookupRank(pageDir, leaves, cp);
    if cp in cps {
      var i :| 0 <= i < |cps| && cps[i] == cp;
      LookupFindsPosition(pageDir, leaves, cps, i);
      CountBelowMember(cps, i);
    } else {
      LookupRejectsOthers(pageDir, leaves, cps, cp);
    }
  }
}
