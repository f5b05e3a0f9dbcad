# M4 reader: a verified model

This Dafny project models the parts of the M4 e-reader repository that are state or format
machines, and proves what they promise for every input and every run. One module a file;
`dafny verify dfyconfig.toml` checks all of it.

What is modelled, and the main results:

- **Glyph geometry** (`FillTest`, `Rectangles`, `Containment`, `SlabSweep`, `Candidates`,
  `DrawnBlocks`, over `SortedReals`). A rectangle within another is a hole exactly when it is walked
  the other way. On closed axis-aligned contours with real coordinates, midpoint sampling decides
  the ink of a whole cell exactly, the slab sweep is the exact and only canonical description of the
  filled set over the whole plane, and the source centers are exactly the candidates with full ink
  and support: a block of cells drawn as one rectangle is taken apart into exactly its cells. Two
  witnesses show why the axis-aligned and the integer-vertex preconditions are there.
- **Ranked font index and blobs** (`Bits`, `PackedFields`, `RankedIndex`, `FontBlob`, `KernelBlob`,
  `NativeGridBlob`). The page directory with popcount ranks agrees with list position for every code
  point and every strictly increasing list; the built blob, read by the firmware's own reader with
  its 16- and 32-bit arithmetic, shows exactly the stored glyphs.
- **Theme files** (`Scene`, `SceneBytes`, `SceneRoundTrip`, `SceneCompiler`; `ThemePack`,
  `ThemeLayout`, `ThemeReaders`, `ThemeValidity`, `ThemeRoundTrip`, `ThemeTools`; `SceneMeaning`,
  `ThemeMeaning`, `ThemeDecoding`). Every scene the compiler accepts comes back from its bytes with
  all fields and children; every emitted theme file passes the validator and decodes to the theme it
  was made from; which scenes and themes compile, which bytes validate and which decode is stated in
  full; and the validator's overlap test is characterised on arbitrary tables.
- **Page turning** (`Coordinator`, `Panel`, `Reader`, `PageTurn`, `CommitBounds`,
  `PageTurnWitnesses`). The coordinator, the panel and the driver of `simulator/model/ReaderModel.h`
  under every interleaving: provenance of the shown page, no commit of an aborted refresh in any
  later run, convergence of every run after the last tap, short reads included, the exact number of
  commits.
- **Credential store** (`LengthPrefixed`, `WifiCodec`, `SdCard`, `WifiSave`, `WifiStore`,
  `WifiReboot`, `WifiFaults`). The save transaction under every pattern of failures, partial writes
  and power loss, the agreement of disk and memory over runs, and what a reboot after a power loss
  comes to.
- **Shard unscrambling** (`Shards`, `ShardPositions`). Swaps whose positions are read from the very
  buffer they change are a bijection, and every position has a closed form.
- **Components over runs** (`SdImage`, `Sdmmc`, `SdmmcMeaning`, `Monitors`, `Scheduler`, `Tilt`,
  `RecentBooks`, `RecentBooksFile`). What a read delivers after any sequence of cards, faults and
  power changes; every scheduled event once, and when in order of time; what each monitor and the
  tilt detector mean; the ten most recent books and their file.

`Layouts` states the formats once more as documentation would: which byte of which file holds what.
`Bytes`, `Sequences` and `Wrappers` hold little-endian integers, padding, sequence helpers, options
and results.

Objects that the source updates in place are classes whose methods are proved against a function
on their state (`State()`, `View()`, `Machine()`); runs and their properties are proved about those
functions. Loops of the source are loops here, with `SdCard` recording the files after every card
call as the states a power loss can leave.

## Where code and documentation differ

The model follows the code. These promises turned out to hold only under a condition; each has a
concrete counterexample or an exact condition among the members below.

- *One render and one catch-up after the last tap* (`simulator/core/PageTurnCoordinator.h`): with
  the asynchronous page read of the driver a display tick can arm the page that is being read once
  more. The number of commits after the last tap is exactly `Ahead`, at most three, and at most two
  if and only if no other page than the target is under way (`CommitBounds.AtMostTwoIff`); it is at
  most two in every run in which no tick falls inside a page read.
- *A failed persistence is not destructive* (`firmware/src/WifiCredentialStore.cpp`): a power loss
  between the two renames leaves the old list in the backup only, where `loadFromFile` does not
  look, and the next save begins by deleting that backup. So after a reboot the next network that is
  added becomes the only one, on a card that answers every call
  (`WifiReboot.OnePowerLossLosesOthers`); the others are kept if and only if the main file is there,
  or the list was empty (`WifiReboot.PasswordsSurviveIff`). Within a save an existing copy is never
  lost if and only if it is not the backup alone (`WifiSave.CopyIsKeptIff`). A password over 4096
  bytes is saved and then never loads (`WifiStore.RequestKeepsAgreement`).
- *Known metadata is kept when a book is reopened* (`firmware/src/RecentBooksStore.cpp`): only
  while the book is still listed (`RecentBooks.ListIsTopOfHistory`; the failing input is
  `RecentBooks.ReopeningLosesTheTitle`). A string over 4096 bytes is saved and loads as an empty one,
  followed by misread entries, and a short write goes unnoticed: the save answers true and the file
  no longer holds the whole list (`RecentBooksFile.SavedLoadsIff`).
- *Old files load* (the version 2 branch of the same file): the title and author of a book that the
  device knows are not skipped, so the next path is read from that title
  (`RecentBooksFile.OldFileComesBackIff`).
- *Each failure is reported once* (`simulator/core/SimKernel.h`): true of the event-driven checks;
  `finish` can report the same eventually-monitor twice (`Monitors.FinishReportsTwiceIff`).
- *Duplicate offsets are refused* (`validate_m4theme`): that branch never fires, because the
  overlap test before it always refuses first (`ThemeValidity.OverlapTestMeans`). An empty section
  listed after a non-empty one at the same offset is refused as an overlap.

## Assumptions

- Order of time in the scheduler is claimed only for runs in which nothing is scheduled before the clock
  and no run is asked to end before it, and exactly for those (`Scheduler.TimeRunsForwardIff`).
- Tokens, generations, sequence numbers and millisecond clocks are unbounded; only the interval
  between two taps wraps at 32 bits, as in the source.
- Coordinates are real numbers; Python's floating-point rounding does not matter to the claims.
- `sorted` and `dict` are a stable sort and a map; CRC-32 is an arbitrary function of bytes.
- The SD card tells the truth about which files exist and what size they have, appends exactly the
  bytes a write reports, and renames and removes in one step. A rename onto an existing file may
  be refused or may replace it.

## Model

| member | source | states |
|---|---|---|
| Shards.UnscrambleIsBijection | firmware/scripts/weread_live_probe.py:134-145 | Unscrambling has a two-sided inverse on all byte strings: redoing the swaps forwards with positions recomputed from the result undoes it, in both orders |
| Shards.UnscrambleIsInjective | firmware/scripts/weread_live_probe.py:134-145 | Two byte strings with the same unscrambled form are the same string |
| Shards.UnscramblePermutes | firmware/scripts/weread_live_probe.py:134-145 | Unscrambling keeps the length and the multiset of bytes |
| Shards.PositionsDependOnTailOnly | firmware/scripts/weread_live_probe.py:109-131 | Two strings of one length that agree on their last bytes have the same swap positions |
| Shards.SwapsKeepTail | firmware/scripts/weread_live_probe.py:134-145 | No swap, forwards or backwards, touches the bytes the positions are computed from |
| Shards.PositionsSurviveSwaps | firmware/scripts/weread_live_probe.py:109-145 | Positions recomputed after the swaps are the positions before them, in either direction |
| Shards.PositionsShape | firmware/scripts/weread_live_probe.py:109-131 | There are an even number of positions, at most ten, and every one, and its successor, lies before the tail |
| Shards.GuardsNeverFire | firmware/scripts/weread_live_probe.py:134-145 | The bounds test in the swap loop is always true for computed positions |
| Shards.SpreadInterleavesZeros | firmware/scripts/weread_live_probe.py:109-131 | Spreading a byte puts its bit k at place 2k and zeros between |
| Shards.DigitsRoundTrip | firmware/scripts/weread_live_probe.py:109-131 | The decimal digits of a number, read back, give the number and have no leading zero |
| Shards.SwapPositions | firmware/scripts/weread_live_probe.py:109-131 | The loop, early exits included, returns exactly the specified positions; `ShardPositions.PositionsInClosedForm` says which these are |
| Shards.CollectPositions | firmware/scripts/weread_live_probe.py:118-131 | The loop over `index` collects exactly the specified rounds and ends |
| Shards.BuildTail | firmware/scripts/weread_live_probe.py:114-120 | The loop collects the digits of the last bytes, last byte first; what they are is in `ShardPositions.TailIsNumerals` |
| Shards.SwapPairInPlace | firmware/scripts/weread_live_probe.py:134-145 | One swapped pair on the array is the specified pair swap |
| Shards.UnswapInPlace | firmware/scripts/weread_live_probe.py:134-145 | The reverse-order loop on the array is the specified unswap |
| Shards.UnscrambleInPlace | firmware/scripts/weread_live_probe.py:134-145 | In place, the array becomes the unscrambled form of what it held: from eleven bytes on `ShardPositions.PositionsInClosedForm` gives the swaps, below that `ShortUnscrambled` |
| Shards.ShortUnscrambled | firmware/scripts/weread_live_probe.py:109-145 | Four to ten bytes have bytes 0 and 2 exchanged and bytes 1 and 3 exchanged; shorter strings stay |
| ShardPositions.TailIsNumerals | firmware/scripts/weread_live_probe.py:116-120 | The digit string is made of one decimal numeral a byte, last byte first, whose value has bit k of the byte at place 2k and zeros between |
| ShardPositions.PositionsInClosedForm | firmware/scripts/weread_live_probe.py:121-131 | Positions 2r and 2r + 1 are the decimal values of as many digits as the modulus has, from digit r times that number and from the one after it, reduced; as many rounds as fit, at most five; the modulus is the length less the tail less two |
| ShardPositions.TwelveLetters | firmware/scripts/weread_live_probe.py:109-145 | The string ABCDEFGHIJKL has positions 4 1 1 7 7 6 6 4 4 1 and unscrambles to AGHDBCIEFJKL |
| PackedFields.PackClasses | firmware/scripts/generate_m4_center_kernel.py:606-610 | Every class comes back from its two bits, reduced modulo four, and the length is a quarter rounded up |
| PackedFields.WithClassStores | firmware/scripts/generate_m4_center_kernel.py:606-610 | Storing a class in a clear slot sets that slot and leaves every other one |
| PackedFields.OrAtFields | firmware/scripts/generate_m4_center_kernel.py:606-610 | Or-ing a two-bit value into a byte combines with the field in its slot and no other |
| PackedFields.PackBits | firmware/scripts/generate_m4_center_kernel.py:115-122 | Every bit is found again: in whole bytes most significant first, where the readers look for pixels, in a shorter last chunk right-aligned in its byte |
| PackedFields.PackByte | firmware/scripts/generate_m4_center_kernel.py:117-121 | A chunk of at most eight bits, shifted in, gives the byte whose low bits they are, the last one lowest |
| NativeGridBlob.PackGrid | firmware/scripts/generate_m4_native_grid.py:123-143 | Refused exactly when the cells do not fill whole bytes; otherwise pixel (x, y) of the packed grid is on exactly when its cell is in the set |
| RankedIndex.BuildRankedIndex | firmware/scripts/generate_m4_center_kernel.py:562-585 | The builder succeeds exactly on lists inside the BMP whose rank bases fit 16 bits, and what it returns indexes the list |
| RankedIndex.IncreasingRanksFit | firmware/scripts/generate_m4_center_kernel.py:562-585 | For a strictly increasing BMP list no rank base overflows 16 bits |
| RankedIndex.LookupFindsPosition | firmware/scripts/generate_m4_center_kernel.py:587-603 | Looking up a member of an indexed increasing list gives its position |
| RankedIndex.LookupRejectsOthers | firmware/scripts/generate_m4_center_kernel.py:587-603 | Looking up any other code point gives None |
| RankedIndex.BuildAndLookup | firmware/scripts/generate_m4_native_grid.py:154-200 | Build then look up, for every increasing BMP list and every BMP code point: the position or None |
| RankedIndex.RankWithinCounts | firmware/scripts/generate_m4_center_kernel.py:597-603 | Whole-byte popcounts plus a masked popcount count exactly the occupied bits below the bit |
| RankedIndex.CountBelowMember | firmware/scripts/generate_m4_center_kernel.py:562-585 | In an increasing list the number of smaller entries is the position |
| RankedIndex.GroupByPage | firmware/scripts/generate_m4_center_kernel.py:562-570 | Grouping by high byte keeps, for each page, its low bytes in order |
| RankedIndex.FillOccupancy | firmware/scripts/generate_m4_center_kernel.py:571-583 | The occupancy bitmap has exactly the listed bits |
| FontBlob.FlattenItem | firmware/scripts/generate_m4_center_kernel.py:613-638 | Item i of equally sized items stands at i times the size in their concatenation |
| FontBlob.FirmwareFindsPosition | firmware/lib/EpdFont/CenterKernelEpdFont.h:375-396 | The firmware reader, with its 16-bit rank arithmetic, finds the list position of every member |
| FontBlob.FirmwareRejectsOthers | firmware/lib/EpdFont/NativeGridEpdFont.h:288-307 | The firmware reader answers -1 for every code point not in the list |
| KernelBlob.BuildBlob | firmware/scripts/generate_m4_center_kernel.py:613-643 | Building fails only for a code point outside the BMP or all 65536 of them; otherwise the firmware binds the blob and shows, for every code point, exactly the stored bitmap and class or nothing |
| KernelBlob.BlobAnswers | firmware/lib/EpdFont/CenterKernelEpdFont.h:121-149 | For every code point the blob answers the stored glyph or none |
| KernelBlob.StoredGlyph | firmware/lib/EpdFont/CenterKernelEpdFont.h:175-210 | Header offsets and rank lead to exactly the stored 32 bytes and 2-bit class |
| KernelBlob.MissingGlyph | firmware/lib/EpdFont/CenterKernelEpdFont.h:121-149 | A code point not in the list has no glyph in the blob |
| KernelBlob.AcceptedFieldsDoNotWrap | firmware/lib/EpdFont/CenterKernelEpdFont.h:35-99 | When `bind` accepts a header none of its 32-bit sums has wrapped, so the offsets are the true ones and inside the blob |
| KernelBlob.Bind | firmware/lib/EpdFont/CenterKernelEpdFont.h:35-99 | Binding any bytes either fails or yields offsets at which every later read is in range |
| KernelBlob.SectionsBind | firmware/scripts/generate_m4_center_kernel.py:613-638 | A blob made of the five sections binds, at their offsets, and has the length the verifier computes |
| KernelBlob.SelfCheck | firmware/scripts/generate_m4_center_kernel.py:639-642 | The self-check passes for every list the index was built from |
| KernelBlob.BindIff | firmware/lib/EpdFont/CenterKernelEpdFont.h:35-99 | On any bytes the firmware binds exactly when the magic number, the grid, the bitmap size and every section offset, in numbers, are right and the sections fit; the version is not looked at and more bytes may follow |
| KernelBlob.MissingClassIsOne | firmware/lib/EpdFont/CenterKernelEpdFont.h:460-467 | The class of a glyph past the end of the blob, or of none, is 1 |
| NativeGridBlob.BuildBlob | firmware/scripts/generate_m4_native_grid.py:264-311 | Building fails only for a code point outside the BMP or a count over 16 bits; otherwise the blob binds and holds the font |
| NativeGridBlob.FirmwareGlyph | firmware/lib/EpdFont/NativeGridEpdFont.h:141-189 | On a blob that holds a font every code point shows exactly its bitmap, from the index or from the sidecar, and others show nothing |
| NativeGridBlob.OutlierIndex | firmware/lib/EpdFont/NativeGridEpdFont.h:309-322 | The binary search finds a code point exactly when the sidecar has it |
| NativeGridBlob.Bind | firmware/lib/EpdFont/NativeGridEpdFont.h:21-73 | Binding any bytes either fails or yields offsets at which every later read is in range |
| NativeGridBlob.AcceptedFieldsDoNotWrap | firmware/lib/EpdFont/NativeGridEpdFont.h:43-50 | When the header is accepted none of its 32-bit sums has wrapped |
| NativeGridBlob.HeldBinds | firmware/scripts/generate_m4_native_grid.py:264-311 | A blob that holds a font binds and every section stands at its offset |
| NativeGridBlob.HeldOutliers | firmware/scripts/generate_m4_native_grid.py:264-311 | The sidecar reads back sorted, entry by entry |
| NativeGridBlob.BindIff | firmware/lib/EpdFont/NativeGridEpdFont.h:21-73 | On any bytes the firmware binds exactly when the magic number, version, sizes and section offsets, in numbers, are right and the sections fit |
| FillTest.PointInPolygon | firmware/scripts/generate_m4_center_kernel.py:136-143 | The toggling loop is the parity of the edges crossed to the right |
| FillTest.SignedArea | firmware/scripts/generate_m4_center_kernel.py:134-135 | The sum over the edges is half the doubled area; its sign says which way a contour is walked (`Rectangles.RectangleSurrounds`, `ReversedArea`) |
| FillTest.FilledAt | firmware/scripts/generate_m4_center_kernel.py:144-149 | The loop answers whether the signed winding number is not zero; `Rectangles.HoleIsNotFilled` says what that comes to |
| FillTest.FilledConstantOnCell | firmware/scripts/generate_m4_center_kernel.py:136-149 | On axis-aligned contours the fill test is constant on every half-open cell free of vertex coordinates |
| FillTest.ClosedContourCrossedEvenly | firmware/scripts/generate_m4_center_kernel.py:136-143 | Every horizontal line crosses a closed contour an even number of times |
| FillTest.NothingFilledBeyond | firmware/scripts/generate_m4_center_kernel.py:144-149 | No point beyond every vertex on one side is filled |
| Rectangles.CrossesIff | firmware/scripts/generate_m4_center_kernel.py:136-143 | The ray to the right meets an edge exactly when the edge goes up through the line of the point and has it on its left, or comes down and has it on its right; no quotient in it |
| Rectangles.ReversedArea | firmware/scripts/generate_m4_center_kernel.py:134-135 | Walking a contour the other way negates its area |
| Rectangles.RectangleSurrounds | firmware/scripts/generate_m4_center_kernel.py:134-149 | A rectangle walked from any corner either way surrounds exactly x0 <= x < x1 and y0 <= y < y1, and its signed area is plus or minus its area by the direction |
| Rectangles.FilledIffUnbalanced | firmware/scripts/generate_m4_center_kernel.py:144-149 | For any number of rectangles walked either way a point is filled exactly when it is not surrounded as often one way as the other |
| Rectangles.HoleIsNotFilled | firmware/scripts/generate_m4_center_kernel.py:144-149 | A rectangle within another is left out of the ink when it is walked the other way, and makes no difference when it is walked the same way |
| Containment.IsFullyContained | firmware/scripts/generate_m4_center_kernel.py:355-373 | Midpoint sampling is exact: true if and only if every real point of the half-open Kx by 75 cell is filled |
| Containment.RowContained | firmware/scripts/generate_m4_center_kernel.py:362-372 | One row of samples is all filled exactly when the whole row of the rectangle is |
| Containment.MidpointDecides | firmware/scripts/generate_m4_center_kernel.py:355-373 | One midpoint decides a whole grid cell |
| Containment.SlantedEdgeDefeatsSampling | firmware/scripts/generate_m4_center_kernel.py:696 | A slanted triangle with no grid line inside the cell, its midpoint filled and the cell not all ink: the axis-aligned precondition is needed |
| SlabSweep.SweepRow | firmware/scripts/generate_m4_center_kernel.py:173-199 | Along one midline the sweep yields sorted, separated, maximal runs that cover exactly the filled cells |
| SlabSweep.BuildYSlabs | firmware/scripts/generate_m4_center_kernel.py:173-199 | One slab between each two neighbouring ordinates; in each the runs are canonical and, for every real point of the half-open slab, covered if and only if filled, over the whole plane |
| SlabSweep.BuildXSlabs | firmware/scripts/generate_m4_center_kernel.py:201-227 | The same for vertical lines |
| SlabSweep.CanonicalIsUnique | firmware/scripts/generate_m4_center_kernel.py:173-199 | Canonical runs are determined by the points they cover, so the sweep is the only exact description |
| SlabSweep.NothingFilledOffGridX | firmware/scripts/generate_m4_center_kernel.py:173-199 | Nothing is filled left or right of all vertices |
| SlabSweep.NothingFilledOffGridY | firmware/scripts/generate_m4_center_kernel.py:201-227 | Nothing is filled above or below all vertices |
| SlabSweep.SweepDescribesYSlab | firmware/scripts/generate_m4_center_kernel.py:183-199 | The samples at mid-height describe every line of the slab |
| SlabSweep.SweepDescribesXSlab | firmware/scripts/generate_m4_center_kernel.py:211-227 | The samples at mid-width describe every line of the slab |
| Candidates.OneWidth | firmware/scripts/generate_m4_center_kernel.py:265-319 | No run width decodes for both cell widths 74 and 75 |
| Candidates.DecodedCellsTileRun | firmware/scripts/generate_m4_center_kernel.py:265-319 | Decoded cells start and end flush with the run, and a point is in the run exactly when it is in one of them |
| Candidates.XCenterInsideRun | firmware/scripts/generate_m4_center_kernel.py:265-319 | The cell of every X candidate lies inside the run it came from, for integer ends |
| Candidates.YCenterInsideRun | firmware/scripts/generate_m4_center_kernel.py:320-352 | The cell of every Y candidate lies inside the run it came from, for integer ends |
| Candidates.HalfUnitRunSticksOut | firmware/scripts/generate_m4_center_kernel.py:265-319 | With a half-integer end the candidate cell sticks out of its run: integer vertices are needed |
| Candidates.SupportIffCandidateX | firmware/scripts/generate_m4_center_kernel.py:376-399 | The support test, which divides, accepts from a run exactly the candidates that the collector enumerates |
| Candidates.SupportIffCandidateY | firmware/scripts/generate_m4_center_kernel.py:429-452 | The same for Y |
| Candidates.CandidateIsSupported | firmware/scripts/generate_m4_center_kernel.py:376-399 | Every X candidate of a run is accepted by the support test at any ordinate of its slab |
| Candidates.CollectCandidates | firmware/scripts/generate_m4_center_kernel.py:265-352 | The collected sets are exactly the centers decoded or anchored from runs and spans |
| Candidates.HasXSupport | firmware/scripts/generate_m4_center_kernel.py:376-426 | True exactly when a touched run or a span with a touched run accepts the abscissa |
| Candidates.HasYSupport | firmware/scripts/generate_m4_center_kernel.py:429-473 | The same for the ordinate |
| Candidates.Verify | firmware/scripts/generate_m4_center_kernel.py:513-525 | A pair is kept exactly when its whole cell is ink and one direction supports it |
| Candidates.SourceCenters | firmware/scripts/generate_m4_center_kernel.py:489-525 | The verified set is exactly the candidates with full ink and support, over exact slabs |
| Candidates.SlabCenterIsKept | firmware/scripts/generate_m4_center_kernel.py:513-525 | A center decoded from a run is never lost: with a candidate ordinate of the slab and full ink it is kept |
| Candidates.WholeSlabs | firmware/scripts/generate_m4_center_kernel.py:173-199 | Integer vertices give slabs and runs with integer ends |
| Candidates.SpanCandidateIsSupported | firmware/scripts/generate_m4_center_kernel.py:400-426 | Every X candidate of the span of a slab is accepted at any ordinate of its runs |
| Candidates.YCandidateIsSupported | firmware/scripts/generate_m4_center_kernel.py:429-452 | Every Y candidate of a run is accepted at any abscissa of its slab |
| Candidates.YSpanCandidateIsSupported | firmware/scripts/generate_m4_center_kernel.py:453-473 | Every Y candidate of the span of a slab is accepted at any abscissa of its runs |
| Candidates.SpanCenterIsKept | firmware/scripts/generate_m4_center_kernel.py:513-525 | A center whose abscissa comes from the span of a slab is kept when its ordinate is a candidate and the cell is ink |
| Candidates.YSlabCenterIsKept | firmware/scripts/generate_m4_center_kernel.py:513-525 | So is one whose ordinate comes from a run |
| Candidates.YSpanCenterIsKept | firmware/scripts/generate_m4_center_kernel.py:513-525 | And one whose ordinate comes from a span |
| DrawnBlocks.GridIsVertices | firmware/scripts/generate_m4_center_kernel.py:173-227 | The cuts of both sweeps are exactly the coordinates of the vertices |
| DrawnBlocks.BlockDecodes | firmware/scripts/generate_m4_center_kernel.py:265-525 | A block of n by m cells drawn as one rectangle, of either width, anywhere, walked either way, is taken apart into exactly the centers of its cells, with its own width only |
| Coordinator.PageTurnCoordinator.Reset | simulator/core/PageTurnCoordinator.h:54-62 | The fresh state: armed for page 0, nothing shown |
| Coordinator.PageTurnCoordinator.Rearm | simulator/core/PageTurnCoordinator.h:146-148 | A refresh is armed and nothing else changes |
| Coordinator.PageTurnCoordinator.OnTap | simulator/core/PageTurnCoordinator.h:67-82 | The new state is the specified tap, quick mode and both bug knobs included |
| Coordinator.PageTurnCoordinator.OnRenderStarted | simulator/core/PageTurnCoordinator.h:112-115 | The target is snapshotted and the refresh disarmed |
| Coordinator.PageTurnCoordinator.OnFrameReady | simulator/core/PageTurnCoordinator.h:118-118 | Returns the snapshotted page |
| Coordinator.PageTurnCoordinator.OnCommitted | simulator/core/PageTurnCoordinator.h:125-137 | The new state and the catch-up answer are the specified commit |
| Panel.SimPanel.Render | simulator/hardware/SimPanel.h:67-74 | The render framebuffer holds the tag and is valid |
| Panel.SimPanel.Submit | simulator/hardware/SimPanel.h:78-104 | Refused when busy or without a frame; otherwise the frame is pending, busy starts, and one completion with a new token is queued |
| Panel.SimPanel.Commit | simulator/hardware/SimPanel.h:108-118 | A valid pending frame becomes the physical one and busy ends |
| Panel.SimPanel.RunCompletion | simulator/hardware/SimPanel.h:98-102 | A queued completion acts only when its token is the latest |
| Panel.SimPanel.AbortRefresh | simulator/hardware/SimPanel.h:124-130 | The pending frame is lost, busy ends and the token moves on |
| Reader.ReaderModel.Turn | simulator/model/ReaderModel.h:50-60 | The page of the book nearest to the target plus so many pages becomes the target by a tap |
| Reader.ReaderModel.JumpTo | simulator/model/ReaderModel.h:65-72 | The page of the book nearest to the one asked for becomes the target by a tap; the answer says whether it lies beyond the index |
| Reader.ReaderModel.DisplayTaskLoop | simulator/model/ReaderModel.h:115-150 | One display tick is the specified step, all its early returns included |
| Reader.ReaderModel.ContinuePageIndex | simulator/model/ReaderModel.h:98-103 | One more index read is outstanding unless the index is complete |
| Reader.ReaderModel.OnIndexRead | simulator/model/ReaderModel.h:103-112 | A returned index read advances the cursor by a slice and completes the index at its end |
| Reader.ReaderModel.OnPageRead | simulator/model/ReaderModel.h:149-187 | A returned page read renders and submits the captured page, or re-arms |
| Reader.ReaderModel.OnBusyEnded | simulator/model/ReaderModel.h:169-182 | The end of BUSY commits the panel and reports the captured page, unless its token is stale |
| Reader.ReaderModel.OnAbort | simulator/hardware/SimPanel.h:124-130 | An abort of the refresh in progress |
| Reader.ClampIsNearest | simulator/model/ReaderModel.h:90-95 | The clamped page is a page of the book and no other page is nearer to the one asked for |
| Reader.FreshlyOpened | simulator/model/ReaderModel.h:30-48 | What an opened book is: page 0 armed, nothing shown, nothing under way, the index complete only for an empty book |
| PageTurn.RunKeepsInv | simulator/core/PageTurnCoordinator.h:112-137 | The invariant of coordinator, panel and driver holds after every run, in every interleaving, aborts included |
| PageTurn.PhysicalPageIsWhatIsShown | simulator/core/PageTurnCoordinator.h:120-137 | From an opened book, after any run: once a frame has committed the recorded page is the page on the glass; busy holds exactly while a pending frame is valid |
| PageTurn.AbortedRefreshNeverCommits | simulator/hardware/SimPanel.h:97-130 | Over whole runs: a completion queued before an abort changes nothing but the queue, whenever it runs afterwards and whatever taps, submits and aborts came in between |
| PageTurn.TokenOnlyGrows | simulator/hardware/SimPanel.h:86-130 | The refresh token never goes back over any run, which is why a killed completion stays dead |
| PageTurn.QueuedTokensAreOld | simulator/hardware/SimPanel.h:86-102 | After any run from an opened book no queued completion has a token newer than the latest |
| PageTurn.SubmitIsNeverRefused | simulator/model/ReaderModel.h:183-186 | The panel accepts every frame the driver hands it, so the re-arm after a refusal is dead code |
| PageTurn.StepUsesUpCommits | simulator/core/PageTurnCoordinator.h:86-100 | No step after the last tap raises the number of commits still to come |
| PageTurn.CommitsAreBounded | simulator/core/PageTurnCoordinator.h:86-100 | After the last tap every run makes at most `Ahead` commits, never more than three |
| PageTurn.SyncCommitsAreBounded | simulator/core/PageTurnCoordinator.h:86-100 | At most two when no display tick falls inside a page read |
| PageTurn.NothingAheadIffQuiet | simulator/core/PageTurnCoordinator.h:92-100 | No commit is to come exactly when target, recorded page and panel agree and nothing is armed or under way |
| PageTurn.CalmStepsDoNotRegress | simulator/core/PageTurnCoordinator.h:92-100 | No step without tap, abort or short read moves away from agreement |
| PageTurn.MovingOnHelps | simulator/core/PageTurnCoordinator.h:92-100 | While something is left to do, the awaited step strictly decreases the measure |
| PageTurn.EveryRunConverges | simulator/model/ReaderModel.h:115-187 | For every run after the last tap, short reads included, from every live state: awaited steps made plus budget left never exceed the budget at the start plus two for each short read, so no schedule puts agreement off for more awaited steps than that, and agreement once reached stays |
| PageTurn.ShortReadCosts | simulator/model/ReaderModel.h:149-160 | A short read keeps the invariant and adds at most two to the budget |
| PageTurn.CalmStepSpends | simulator/core/PageTurnCoordinator.h:92-100 | Each calm step keeps the invariant and pays for itself: one unit of the budget if it was awaited, nothing otherwise |
| PageTurn.Converges | simulator/core/PageTurnCoordinator.h:92-100 | In particular one awaited step is always enabled, and such steps alone lead from every live state to agreement within the budget |
| PageTurn.IdleTickDoesNothingIff | simulator/model/ReaderModel.h:115-148 | An idle display tick does nothing exactly when all agrees or the first frame was lost to an abort: no diverged state is stuck |
| PageTurn.AliveWithoutAborts | simulator/core/PageTurnCoordinator.h:54-62 | Without aborts that dead end is never reached |
| PageTurn.SecondTapIsQuickIff | simulator/core/PageTurnCoordinator.h:67-82 | A tap is quick exactly when it comes less than 400 ms after the tap before, across the wrap of the clock too, or while the panel is busy; the first one is not |
| CommitBounds.AheadIsReached | simulator/model/ReaderModel.h:115-150 | From every state some run after the last tap makes exactly `Ahead` commits |
| CommitBounds.AheadIsExact | simulator/model/ReaderModel.h:115-150 | No run makes more than n commits if and only if `Ahead` is at most n |
| CommitBounds.AtMostTwoIff | simulator/model/ReaderModel.h:115-150 | At most two commits follow the last tap if and only if no other page than the target is on its way to the panel |
| PageTurnWitnesses.OneTapTwoRefreshes | simulator/model/ReaderModel.h:120-135 | One tap on a settled reader can refresh its page twice, when a tick falls in the page read |
| PageTurnWitnesses.ThreeCommitsAfterLastTap | simulator/model/ReaderModel.h:115-150 | A run from an opened book with three commits after the last tap |
| PageTurnWitnesses.NoCatchupLosesTheTap | simulator/core/PageTurnCoordinator.h:72-76 | With `bugNoCatchup` a run ends idle on the wrong page and no tick changes that |
| PageTurnWitnesses.LivePhysicalDiverges | simulator/core/PageTurnCoordinator.h:126-128 | With `bugLivePhysical` the same run records a page the panel does not show |
| PageTurnWitnesses.ProductionCatchesUp | simulator/core/PageTurnCoordinator.h:92-100 | In production the same run is caught up by the next tick |
| PageTurnWitnesses.AbortedFirstFrameIsStuck | simulator/hardware/SimPanel.h:119-130 | An abort of the very first refresh leaves the reader stuck |
| SdImage.WrittenReadsBack | simulator/hardware/SimSdCardImage.h:63-76 | A written sector reads back and every other sector is unchanged |
| SdImage.SimSdCardImage.Create | simulator/hardware/SimSdCardImage.h:20-27 | Creation is refused for zero or too many blocks, otherwise all blocks hold the fill byte |
| SdImage.SimSdCardImage.Load | simulator/hardware/SimSdCardImage.h:29-46 | Loading is refused for a missing, empty, misaligned or oversized file and then changes nothing |
| SdImage.SimSdCardImage.ReadBlock | simulator/hardware/SimSdCardImage.h:63-68 | The loop reads exactly the sector, or is refused out of range |
| SdImage.SimSdCardImage.WriteBlock | simulator/hardware/SimSdCardImage.h:70-76 | The loop writes exactly the sector, or is refused |
| Sdmmc.RunAnswersOnce | simulator/hardware/SimSdmmc.h:86-151 | Over any run every read or write call gets exactly one callback |
| Sdmmc.GenerationCountsDisturbances | simulator/hardware/SimSdmmc.h:38-75 | The generation counts removals, insertions, unmounts and reported power losses |
| Sdmmc.UndisturbedRunKeepsCard | simulator/hardware/SimSdmmc.h:38-75 | Without those the card stays mounted, inserted, and of the same size and write protection |
| Sdmmc.SucceedsIffUndisturbed | simulator/hardware/SimSdmmc.h:103-106 | An accepted operation succeeds exactly when it was not an injected fault, nothing disturbed the card since its call, and the rail is up |
| Sdmmc.CardHoldsLastPut | simulator/hardware/SimSdmmc.h:38-151 | After any run, cards removed and inserted included: every sector that exists holds the last block successfully written to it, or what the last insertion put there |
| Sdmmc.ReadDeliversLastPut | simulator/hardware/SimSdmmc.h:103-112 | A successful read, whenever it finishes in any run, delivers exactly that, to the call that asked |
| Sdmmc.ReadFromPowerOn | simulator/hardware/SimSdmmc.h:86-151 | The same for every run of a controller that starts without a card |
| Sdmmc.SimSdmmc.InsertBlank | simulator/hardware/SimSdmmc.h:38-43 | The new state of the controller is the specified step for insert |
| Sdmmc.SimSdmmc.InsertFile | simulator/hardware/SimSdmmc.h:45-52 | The new state of the controller is the specified step for insertImage |
| Sdmmc.SimSdmmc.RemoveCard | simulator/hardware/SimSdmmc.h:54-59 | The new state of the controller is the specified step for remove |
| Sdmmc.SimSdmmc.MountCard | simulator/hardware/SimSdmmc.h:61-69 | The new state of the controller is the specified step for mount |
| Sdmmc.SimSdmmc.UnmountCard | simulator/hardware/SimSdmmc.h:71-75 | The new state of the controller is the specified step for unmount |
| Sdmmc.SimSdmmc.NotifyPowerChanged | simulator/hardware/SimSdmmc.h:155-161 | The new state of the controller is the specified step for notifyPowerChanged |
| Sdmmc.SimSdmmc.ReadBlockData | simulator/hardware/SimSdmmc.h:86-116 | The new state of the controller is the specified step for readBlockData, refusals included |
| Sdmmc.SimSdmmc.WriteBlockData | simulator/hardware/SimSdmmc.h:118-151 | The new state of the controller is the specified step for writeBlockData, refusals included |
| Sdmmc.SimSdmmc.FinishOperation | simulator/hardware/SimSdmmc.h:103-112 | The new state of the controller is the specified step for a completion |
| SdmmcMeaning.MountedIff | simulator/hardware/SimSdmmc.h:38-75 | After any run the card is mounted exactly when a mount with four lines was taken, with the rail up and a card in, and nothing disturbed it since |
| SdmmcMeaning.CallOutcome | simulator/hardware/SimSdmmc.h:86-151 | A call that passes the tests waits and answers nothing; any other is answered at once with failure, a read with 512 zeros |
| SdmmcMeaning.InjectedIff | simulator/hardware/SimSdmmc.h:100-139 | From power-on, the injected fault hits exactly the accepted read, or write, whose number was asked for |
| SdmmcMeaning.CardIsWhole | simulator/hardware/SimSdmmc.h:38-151 | After any run the card is a whole number of 512-byte sectors, at most 512 MiB |
| SdmmcMeaning.InsertionIff | simulator/hardware/SimSdmmc.h:38-52 | Which insertions are taken, and that a card then holds the file or zeros, and a refused file changes nothing |
| Monitors.NeverMeansNever | simulator/core/SimKernel.h:234-241 | A never-check fails exactly when its predicate held at some check of the run |
| Monitors.EventuallyMeansByDeadline | simulator/core/SimKernel.h:245-253 | An eventually-check fails exactly when some check at or past the deadline came before the predicate ever held |
| Monitors.AfterMeansWithinDeadline | simulator/core/SimKernel.h:254-265 | An after-check fails exactly when some check at or past arming plus deadline came with the obligation false at every check since arming |
| Monitors.ReportedOnce | simulator/core/SimKernel.h:234-265 | Over any run each failed monitor is reported exactly once, and no other |
| Monitors.FinishReportsTwiceIff | simulator/core/SimKernel.h:271-279 | `finish` reports an eventually-monitor twice exactly when its deadline is reached with the predicate still false |
| Monitors.FinishReportsLateTruth | simulator/core/SimKernel.h:271-279 | `finish` reports a monitor whose predicate holds in time for the closing check |
| Monitors.SimAssertions.AddNever | simulator/core/SimKernel.h:221-223 | One more unfailed never-monitor, last in the list |
| Monitors.SimAssertions.AddEventually | simulator/core/SimKernel.h:218-220 | One more unfailed eventually-monitor, last in the list |
| Monitors.SimAssertions.AddAfter | simulator/core/SimKernel.h:224-227 | One more unarmed after-monitor, last in the list |
| Monitors.SimAssertions.CheckSafety | simulator/core/SimKernel.h:234-241 | The in-place loop updates every never-monitor and appends the new failures in order |
| Monitors.SimAssertions.CheckLiveness | simulator/core/SimKernel.h:245-265 | The in-place loops update every monitor and append the new failures in order |
| Monitors.SimAssertions.Finish | simulator/core/SimKernel.h:271-279 | The closing pass, with the failures it appends |
| Monitors.FinishOfOne | simulator/core/SimKernel.h:271-279 | The closing pass appends for one monitor as many failures, all of its tag, as its report count says |
| Scheduler.RunOrderIsUnique | simulator/core/SimKernel.h:72-78 | Two ordered runs of the same events are the same run |
| Scheduler.EverythingRunsOnce | simulator/core/SimKernel.h:25-59 | Over any mix of scheduling, by callbacks or from outside, for the future or the past, and running: every scheduled event has run exactly once or is queued exactly once |
| Scheduler.TimeRunsForwardIff | simulator/core/SimKernel.h:25-59 | Throughout a run events run in order of time, none is overdue and the clock never goes back if and only if nothing is scheduled before the clock and no run is asked to end before it |
| Scheduler.StepInTimeIff | simulator/core/SimKernel.h:25-59 | The same for one act |
| Scheduler.RunAccounts | simulator/core/SimKernel.h:25-59 | The invariant of queue and numbers behind that holds after every run |
| Scheduler.SimScheduler.ScheduleAt | simulator/core/SimKernel.h:25-27 | The event is queued with the next number and the seeded hash of its time and number, and recorded as issued |
| Scheduler.SimScheduler.ScheduleIn | simulator/core/SimKernel.h:28-30 | The same, relative to the clock |
| Scheduler.SimScheduler.Top | simulator/core/SimKernel.h:72-78 | The event found runs before every other queued one |
| Scheduler.SimScheduler.Pop | simulator/core/SimKernel.h:44-51 | The earliest event leaves and is recorded as run, before every other queued one, and the clock moves to its time |
| Scheduler.SimScheduler.RunUntil | simulator/core/SimKernel.h:43-59 | With callbacks that schedule nothing: exactly the events up to the limit run, each once, in order, and the clock ends at the limit |
| Scheduler.SimScheduler.RunReacting | simulator/core/SimKernel.h:43-61 | With callbacks that schedule: what is done is one valid run of the kernel, the event hook is called with the time of every event that ran, in turn, and when the loop ends only events past the limit are left |
| Scheduler.OrderMeans | simulator/core/SimKernel.h:72-78 | In an ordered run an earlier event has the earlier time, then the smaller tie hash, then the smaller number |
| Tilt.ActionFollowsHeldTilt | firmware/src/TiltPageTurnDetector.cpp:221-256 | Every action follows an unbroken same-direction tilt of at least the hold time and is the large-tilt action exactly when some sample of it was large |
| Tilt.HeldTiltFires | firmware/src/TiltPageTurnDetector.cpp:222-248 | Conversely a tilt begun on an idle machine and held fires, on the sample after it reaches the hold time |
| Tilt.ActionsAreApart | firmware/src/TiltPageTurnDetector.cpp:245-262 | Two actions are at least hold plus cooldown apart, with a sample within the release angle between |
| Tilt.StateRemembersTilt | firmware/src/TiltPageTurnDetector.cpp:221-243 | While tilting or triggered the state describes exactly the tilt under way |
| Tilt.TiltStaysUnderWay | firmware/src/TiltPageTurnDetector.cpp:231-243 | A held tilt stays under way until it reaches the hold time, and then triggers |
| Tilt.CooldownLasts | firmware/src/TiltPageTurnDetector.cpp:258-262 | After an action the machine cools down until a flat sample at least the cooldown later |
| Tilt.TiltPageTurnDetector.ProcessPageTurn | firmware/src/TiltPageTurnDetector.cpp:205-264 | One sample: the new state and the delivered action are the specified ones |
| Tilt.ActionFollowsAngles | firmware/src/TiltPageTurnDetector.cpp:205-288 | In angles: an action follows samples rolled past the trigger to one side for at least the hold time; it is the one set for that side, or the large-tilt one when some sample was past 70 degrees |
| Tilt.HeldAngleActs | firmware/src/TiltPageTurnDetector.cpp:205-288 | In angles, conversely: roll held past the trigger from an idle machine acts on the sample after the hold time, with that action |
| Tilt.CooldownEndsIff | firmware/src/TiltPageTurnDetector.cpp:258-262 | The cooldown ends exactly at a sample within the release angle and at least the cooldown after the action |
| RecentBooks.ShowsTheTenMostRecent | firmware/src/RecentBooksStore.cpp:22-47 | After any calls the list shows exactly the ten most recently opened distinct paths, newest first |
| RecentBooks.ListIsTopOfHistory | firmware/src/RecentBooksStore.cpp:22-47 | Throughout a run the bounded list is the top ten of the unbounded history, metadata included, if and only if no call reopens a fallen-off book leaving out metadata the history has |
| RecentBooks.HistoryKeepsMetadata | firmware/src/RecentBooksStore.cpp:26-36 | The unbounded history has every opened book once, with the last non-empty title, author and cover given for it |
| RecentBooks.AddRefinesHistory | firmware/src/RecentBooksStore.cpp:22-47 | One call keeps the list the top of the history exactly when it forgets nothing |
| RecentBooks.ReopeningLosesTheTitle | firmware/src/RecentBooksStore.cpp:22-47 | Eleven books opened, then the first again without its title: the failing input, whose title the list has lost |
| RecentBooksFile.SaveThenLoad | firmware/src/RecentBooksStore.cpp:72-183 | Saving then loading gives back the persisted fields if and only if no string exceeds 4096 bytes |
| RecentBooksFile.BooksReadBack | firmware/src/RecentBooksStore.cpp:163-178 | The same for the entries alone, at any position of a file |
| LengthPrefixed.FieldReadsBack | firmware/lib/Serialization/Serialization.h:30-62 | A length-prefixed string reads back where it stands, or is refused when over 4096 bytes |
| RecentBooksFile.SavedLoadsIff | firmware/src/RecentBooksStore.cpp:72-183 | The bytes a save leaves, when no write is checked, load as the complete list if and only if every write took all it was given and no string exceeds 4096 bytes |
| RecentBooksFile.KeptIsWholeIff | firmware/lib/Serialization/Serialization.h:14-44 | Unchecked writes leave the whole data exactly when none was short, and otherwise fewer bytes |
| RecentBooksFile.BooksFit | firmware/src/RecentBooksStore.cpp:163-178 | Whatever loads as a list takes up as many bytes as the list written out, and has no long string |
| RecentBooksFile.RecentBooksStore.AddBook | firmware/src/RecentBooksStore.cpp:22-47 | The list becomes the specified one and the file is rewritten, short writes included, when it opens |
| RecentBooksFile.RecentBooksStore.SaveToFile | firmware/src/RecentBooksStore.cpp:72-96 | True exactly when the file opened; the file then holds what each write took of its part of the serialized list |
| RecentBooksFile.SavedIsRead | firmware/src/RecentBooksStore.cpp:72-183 | The device reads a wholly written save back as the list, whatever its variables held, exactly when no string exceeds 4096 bytes |
| RecentBooksFile.CompleteIsRead | firmware/src/RecentBooksStore.cpp:158-178 | A complete file of the present version is read as what it says, whatever the variables held before |
| RecentBooksFile.FrontIsRead | firmware/src/RecentBooksStore.cpp:163-178 | Of a file that ends too early the complete books at its front are still read as they are |
| RecentBooksFile.OldFileComesBackIff | firmware/src/RecentBooksStore.cpp:135-153 | The books of given paths come back from a version 2 file, whatever titles and authors it gives them, if and only if the device knows none of them but perhaps the last: those of a known book are not skipped |
| RecentBooksFile.TitleReadAsPath | firmware/src/RecentBooksStore.cpp:140-153 | After the first known book of a version 2 file its stored title is read as the next path |
| RecentBooksFile.RecentBooksStore.LoadFromFile | firmware/src/RecentBooksStore.cpp:126-183 | True exactly when the file opens and its version is known; the list then is what the unchecked reads make of it, in all three versions, cut off or not; otherwise it stays |
| RecentBooksFile.RecentBooksStore.ReadString | firmware/lib/Serialization/Serialization.h:50-62 | A string as the reads find it: empty over 4096 bytes, ending in zeros when cut off, of unknown length when the length is cut off |
| RecentBooksFile.CutTextIsRead | firmware/lib/Serialization/Serialization.h:50-62 | A string whose text is cut off reads as what is there followed by zeros, to the length that was stored |
| RecentBooksFile.TinyFileIsRead | firmware/src/RecentBooksStore.cpp:126-135 | An empty or one-byte file loads as many books as the unset variable happens to say, or is refused by the version |
| RecentBooksFile.PathFileIsRead | firmware/src/RecentBooksStore.cpp:135-157 | A version 1 file loads as one book a path, with what the device knows of it |
| WifiCodec.XorTwice | firmware/src/WifiCredentialStore.cpp:27-32 | Exclusive or with the same byte twice restores the value |
| WifiCodec.ObfuscatedTwice | firmware/src/WifiCredentialStore.cpp:27-32 | Obfuscating twice restores every string |
| WifiCodec.Obfuscate | firmware/src/WifiCredentialStore.cpp:27-32 | The in-place loop is the specified obfuscation, whose every bit is given by `ObfuscatedBits` |
| WifiCodec.SavedListLoads | firmware/src/WifiCredentialStore.cpp:80-212 | A serialized list parses to itself if and only if it has at most eight entries and no string over 4096 bytes |
| WifiCodec.LoadedIsLoadable | firmware/src/WifiCredentialStore.cpp:163-212 | Whatever parses has at most eight entries and no long string |
| WifiCodec.EntriesReadBack | firmware/src/WifiCredentialStore.cpp:180-205 | Entries at any position parse back, or fail at the first long string |
| WifiCodec.XorIsBitwise | firmware/src/WifiCredentialStore.cpp:27-32 | Bit k of the exclusive or is set exactly when bit k of the two bytes differs |
| WifiCodec.ObfuscatedBits | firmware/src/WifiCredentialStore.cpp:27-32 | Bit k of byte i is flipped exactly when bit k of letter i modulo ten of the word CrossPoint is set |
| Bytes.LittleEndian | firmware/lib/Serialization/Serialization.h:14-30 | Two- and four-byte numbers stand with their lowest byte first |
| SdCard.SDCardManager.WriteExact | firmware/src/WifiCredentialStore.cpp:36-44 | The partial-write loop is the specified sequence of calls |
| WifiSave.ExactWrite | firmware/src/WifiCredentialStore.cpp:36-44 | Success means exactly the data was appended, whatever the partial writes, and no other file was touched at any point |
| WifiSave.AllWritten | firmware/src/WifiCredentialStore.cpp:99-114 | A sequence of such writes appends their concatenation, or stops at the first failure |
| WifiSave.ChunksJoinToFile | firmware/src/WifiCredentialStore.cpp:99-114 | The written chunks concatenate to the serialized list |
| WifiSave.PreparedKeepsTheRest | firmware/src/WifiCredentialStore.cpp:81-131 | Until the renames only the temporary file changes, and it is complete when they begin |
| WifiSave.SaveIsTransactional | firmware/src/WifiCredentialStore.cpp:80-159 | For every pattern of failures: after every call the main file is whole, old or new, or missing with the whole old file as backup; true means the new file is in place; false with its repairs successful means the main file is as it was |
| WifiSave.InstallEnds | firmware/src/WifiCredentialStore.cpp:133-158 | The same for the backup-rename-verify part |
| WifiSave.CopyIsKeptIff | firmware/src/WifiCredentialStore.cpp:133-158 | A copy that exists is never lost, whatever the card answers, if and only if it is not the backup alone |
| WifiReboot.PasswordsSurviveIff | firmware/src/WifiCredentialStore.cpp:80-233 | After one power loss at any call of any request and a reboot: the card still has the old or the new list, and the next network can be added without losing the other passwords if and only if the main file is there or the old list was empty |
| WifiReboot.OnePowerLossLosesOthers | firmware/src/WifiCredentialStore.cpp:133-233 | From every card with a main file: after a power loss between the renames and a reboot, adding any network succeeds and leaves it as the only one, the backup deleted |
| WifiReboot.AddAfterRebootIff | firmware/src/WifiCredentialStore.cpp:163-233 | On any card at all, whatever network is added after the reboot, the other passwords on the card stay if and only if the main file loads or there were none |
| WifiSave.WorkingCardSaves | firmware/src/WifiCredentialStore.cpp:80-159 | A card that answers every call takes every save and is left with the directory, the new file, no backup and no temporary file |
| WifiSave.TwoPowerLossesLoseAll | firmware/src/WifiCredentialStore.cpp:133-158 | From every card with a main file: a power loss between the renames leaves the backup alone, and in the next save every copy can be lost |
| WifiSave.SafeExactlyWithMainFile | firmware/src/WifiCredentialStore.cpp:133-158 | Some copy is left after every call, whatever the card answers, if and only if there was a main file to begin with |
| WifiFaults.OneFaultIsRepaired | firmware/src/WifiCredentialStore.cpp:80-159 | When at most one call of the card fails, wherever it is: the save is taken or the main file is as it was, no repair fails, and no temporary file is left |
| WifiStore.NextIsMapUpdate | firmware/src/WifiCredentialStore.cpp:214-267 | A request keeps names unique and at most eight, sets, removes or clears exactly what it says, and changes no other password |
| WifiStore.RequestKeepsAgreement | firmware/src/WifiCredentialStore.cpp:214-267 | From any loadable memory, whatever is on the card: a saved request leaves disk and memory in agreement if and only if its strings fit the format; a refused or undone one changes neither memory nor agreement |
| WifiStore.PowerLossLeavesOldOrNew | firmware/src/WifiCredentialStore.cpp:80-159 | After a power loss at any call the main file loads as the old or the new list, or is missing and its backup holds the old list |
| WifiStore.AgreesFromTheLastSave | firmware/src/WifiCredentialStore.cpp:163-267 | After any run of requests within the format, first boot and failed repairs included: memory stays loadable, names unique, and once a request was saved disk and memory agree until a later repair fails |
| WifiStore.DiskAndMemoryAgree | firmware/src/WifiCredentialStore.cpp:163-267 | In particular, from a loaded store, with failed saves undone, the file always parses to exactly the list in memory |
| WifiStore.WifiCredentialStore.SaveCredentials | firmware/src/WifiCredentialStore.cpp:80-159 | The calls made, the files left and the result are the specified save |
| WifiStore.WifiCredentialStore.Install | firmware/src/WifiCredentialStore.cpp:133-158 | The backup, rename and verify calls are the specified ones |
| WifiStore.WifiCredentialStore.AddCredential | firmware/src/WifiCredentialStore.cpp:214-233 | The specified request, memory changed only when saved |
| WifiStore.WifiCredentialStore.RemoveCredential | firmware/src/WifiCredentialStore.cpp:234-246 | The specified request, refused when the name is unknown |
| WifiStore.WifiCredentialStore.Clear | firmware/src/WifiCredentialStore.cpp:261-267 | The specified request |
| WifiStore.WifiCredentialStore.ReadExact | firmware/src/WifiCredentialStore.cpp:56-64 | Success means exactly the bytes asked for; failure without a card fault means the file ends too early |
| WifiStore.WifiCredentialStore.ReadStringExact | firmware/src/WifiCredentialStore.cpp:71-76 | Success means a complete string of at most 4096 bytes stands there |
| WifiStore.WifiCredentialStore.LoadFromFile | firmware/src/WifiCredentialStore.cpp:163-212 | Success makes memory agree with the main file; on a card without read faults it succeeds exactly when the file parses; failure leaves memory |
| WifiStore.RefusedIff | firmware/src/WifiCredentialStore.cpp:214-267 | A request is refused exactly when it adds a ninth network or removes one that is not there |
| SceneRoundTrip.SceneComesBack | firmware/tools/compile_home_theme.py:652-1105 | Whatever the compiler accepts: no 16-bit length wrapped at any depth, the decoder finds one command a node in order with its type, flags and payload, ends exactly at the last byte, and each command reads back into the accepted node |
| SceneRoundTrip.ItemReadsBack | firmware/tools/preview_home_theme.py:745-1150 | Every field of a node, prefixes included, and its children at every depth come back from its payload |
| SceneRoundTrip.ShortStreamFits | firmware/tools/compile_home_theme.py:1391-1394 | In a stream under 64 KiB, so under the 32 KiB limit, no payload length wraps, at any depth |
| SceneRoundTrip.WalkFindsItems | firmware/tools/compile_home_theme.py:1007-1104 | The decoder loop over a well-formed stream finds exactly its commands and its end |
| SceneRoundTrip.ChildWalkFindsItems | firmware/tools/preview_home_theme.py:1085-1118 | The lenient child loop finds exactly the children of a group |
| SceneRoundTrip.GroupReadsBack | firmware/tools/preview_home_theme.py:1085-1118 | A group payload reads back with all its children |
| SceneRoundTrip.RepeatReadsBack | firmware/tools/preview_home_theme.py:1119-1150 | A repeat payload reads back, its seven fields, direction and children |
| SceneRoundTrip.BoxedReadsBack | firmware/tools/preview_home_theme.py:776-1083 | The nine rectangle-like payloads read back field by field |
| SceneRoundTrip.BytesDetermineScene | firmware/tools/compile_home_theme.py:977-987 | Two node lists with the same bytes were accepted as the same items |
| SceneCompiler.EncodePrefix | firmware/tools/compile_home_theme.py:687-727 | The prefix bytes and flag bits are the specified ones, errors in order; byte by byte in `Layouts.CommandLayout` |
| SceneCompiler.EncodeSceneNode | firmware/tools/compile_home_theme.py:652-975 | The recursive encoder returns exactly the specified bytes or error; that they show the node is `SceneMeaning.SceneShowsNodes` |
| SceneCompiler.EncodeBody | firmware/tools/compile_home_theme.py:728-967 | The type-specific part, with the children of groups and repeats, is the specified one |
| SceneCompiler.EncodeLeaf | firmware/tools/compile_home_theme.py:729-915 | Each kind without children writes exactly the specified fields or fails with the first error in order |
| SceneCompiler.EncodeRepeatHead | firmware/tools/compile_home_theme.py:924-964 | The seven fields and the direction of a repeat, errors in order |
| SceneCompiler.EncodeAll | firmware/tools/compile_home_theme.py:916-923 | The loop over children joins their encodings, or stops at the first error |
| SceneCompiler.CompileScene | firmware/tools/compile_home_theme.py:977-987 | Compiling a scene is the specified section, node-count and size limits included |
| SceneCompiler.DecodeScene | firmware/tools/compile_home_theme.py:989-1105 | The decoding loop is the specified walk, on arbitrary bytes, with its two ways of aligning |
| SceneCompiler.ReadChildren | firmware/tools/preview_home_theme.py:1096-1118 | The child loop is the specified lenient walk, on arbitrary bytes |
| SceneMeaning.AcceptedShows | firmware/tools/compile_home_theme.py:652-975 | A node is accepted exactly when it is legal, and what is made of it shows its visibility, action, argument, every field of its kind and all its children |
| SceneMeaning.CompiledIff | firmware/tools/compile_home_theme.py:977-987 | A scene compiles exactly when it has 1 to 128 nodes, all legal, and their sizes, counted from the nodes themselves, stay within 32 KiB |
| SceneMeaning.SceneShowsNodes | firmware/tools/compile_home_theme.py:652-1105 | The bytes of a compiled scene decode to one command a node, in order, and each command reads back as something that shows the author's node: names looked up, rectangle, colour, stroke, fill, font, alignment, limits, direction and children |
| ThemeRoundTrip.EmittedPackIsValid | firmware/tools/compile_home_theme.py:1395-1551 | Every theme file the compiler emits is accepted by the validator |
| ThemeRoundTrip.EmittedPackDecodes | firmware/tools/preview_home_theme.py:220-395 | Every emitted theme file decodes to the same name, slots in the present layout, background and scene bytes |
| ThemeRoundTrip.EmittedSceneDecodes | firmware/tools/preview_home_theme.py:255-276 | The scene inside decodes to the commands of the accepted nodes |
| ThemeRoundTrip.EmittedFocusDiffers | firmware/tools/compile_home_theme.py:1341-1372 | No two focusable slots of an emitted pack, as read back, share a focus order |
| ThemeRoundTrip.NoFaultMeansDifferent | firmware/tools/compile_home_theme.py:1341-1367 | The slot loop finds no fault only if all names differ and so do the focus orders of focusable slots |
| ThemeRoundTrip.PartsComeBack | firmware/tools/preview_home_theme.py:220-395 | The same from the accepted parts |
| ThemeRoundTrip.SlotReadsBack | firmware/tools/preview_home_theme.py:299-326 | A packed slot reads in the present layout as itself exactly when it is on screen with a consistent focus order |
| ThemeRoundTrip.SlotsReadBack | firmware/tools/preview_home_theme.py:344-346 | A whole slot section reads in the present layout, so the old one is never tried |
| ThemeRoundTrip.DictionaryListsSections | firmware/tools/preview_home_theme.py:241-253 | The section dictionary has exactly the sections of the file, each with its bytes |
| ThemeRoundTrip.BackgroundReads | firmware/tools/preview_home_theme.py:357-380 | The background read through the asset record is the background |
| ThemeLayout.RecordPointsToBackground | firmware/tools/compile_home_theme.py:1399-1417 | The asset record holds the offset the background ends up at, though the layout is computed twice |
| ThemeLayout.OffsetsFromLengths | firmware/tools/compile_home_theme.py:1404-1427 | A layout depends on the lengths only |
| ThemeLayout.SectionsInOrder | firmware/tools/compile_home_theme.py:1418-1427 | An earlier section ends before a later one starts |
| ThemeLayout.SectionStands | firmware/tools/compile_home_theme.py:1436-1441 | Every section stands at its offset in the file |
| ThemeLayout.EntryStands | firmware/tools/compile_home_theme.py:1431-1435 | Every table line stands at its place |
| ThemeLayout.PacksAreSmall | firmware/tools/compile_home_theme.py:1447-1450 | No accepted theme comes near the 256 KiB limit |
| ThemeLayout.SizeNeverRefuses | firmware/tools/compile_home_theme.py:1447-1450 | So the final size check never refuses an accepted theme |
| ThemeValidity.PackIsValid | firmware/tools/compile_home_theme.py:1479-1551 | Any list of five to seven sound sections, laid out, passes the validator |
| ThemeValidity.OverlapTestMeans | firmware/tools/compile_home_theme.py:1524-1532 | On any table: the sorted neighbour test passes exactly when every two sections are apart, empty ones included, and the duplicate-offset branch never fires |
| ThemeValidity.ValidatorAccepts | firmware/tools/compile_home_theme.py:1479-1551 | On any bytes: valid exactly when the header is intact, every line and record is in order and the sections are apart |
| ThemeValidity.NeighboursSuffice | firmware/tools/compile_home_theme.py:1526-1532 | Comparing neighbours compares all |
| ThemeTools.Layout | firmware/tools/compile_home_theme.py:1404-1413 | The layout loop yields the specified offsets and end |
| ThemeTools.BuildTable | firmware/tools/compile_home_theme.py:1430-1435 | The table loop yields the specified table |
| ThemeTools.PlaceSections | firmware/tools/compile_home_theme.py:1436-1441 | Writing every section into the zeroed buffer gives the sections with zero gaps |
| ThemeTools.Assemble | firmware/tools/compile_home_theme.py:1428-1446 | The buffer, its header written twice, is the specified file with the checksum of its payload |
| ThemeTools.CheckSlots | firmware/tools/compile_home_theme.py:1341-1367 | The loop with its sets of seen names and focus orders answers the first fault in order |
| ThemeTools.AcceptTheme | firmware/tools/compile_home_theme.py:1244-1394 | The parts that the checks accept, or the first error in order; that they are those of the theme is `ThemeMeaning.EmittedShowsTheme` |
| ThemeTools.CompileTheme | firmware/tools/compile_home_theme.py:1230-1450 | Compilation of a parsed theme is the specified file or error, by `ThemeMeaning.CompiledIff` exactly when the theme is legal |
| ThemeTools.ValidateM4Theme | firmware/tools/compile_home_theme.py:1479-1551 | The validator answers the first fault of the specification, on arbitrary bytes |
| ThemeTools.TryParseSlots | firmware/tools/preview_home_theme.py:299-342 | The slot loop parses all records in the present layout or none |
| ThemeTools.ViewScene | firmware/tools/preview_home_theme.py:256-277 | The commands of the scene, or when they do not decode the count its header claims, or nothing |
| ThemeTools.DecodeM4Theme | firmware/tools/preview_home_theme.py:220-395 | The decoder is the specified reading, on arbitrary bytes, the fallback for a damaged scene included |
| ThemeMeaning.SlotAccepted | firmware/tools/compile_home_theme.py:503-584 | A slot is accepted exactly when it is legal, and what is packed shows every field that the author gave |
| ThemeMeaning.CompiledIff | firmware/tools/compile_home_theme.py:1230-1450 | A theme compiles exactly when it is legal, stated over the author's theme alone |
| ThemeMeaning.EmittedShowsTheme | firmware/tools/compile_home_theme.py:1230-1450 | The file of every legal theme decodes to the theme itself: its name, its background or zeros when none is given, one slot a slot with rectangle, radius, stroke, inset, font, target, focus order and asset, and one command a node that shows it |
| ThemeDecoding.DecodesIff | firmware/tools/preview_home_theme.py:220-395 | On arbitrary bytes: the previewer decodes a file exactly when the header, every line of the table and the five sections are right, the last line of each type counting |
| ThemeReaders.NewSlotIff | firmware/tools/preview_home_theme.py:299-342 | A record reads in the present layout exactly when its reserved bytes are zero, its rectangle is on the screen and its focus order goes with its flag |
| ThemeReaders.OldSlotReads | firmware/tools/preview_home_theme.py:328-342 | A record written in the former layout reads back, field by field |
| ThemeReaders.FormerLayoutIsRead | firmware/tools/preview_home_theme.py:344-356 | One record that the present layout refuses makes all of them read in the former one |
| ThemeReaders.DamagedSceneIsShown | firmware/tools/preview_home_theme.py:255-277 | A scene that does not decode is shown by its claimed number of nodes, or not at all under eight bytes |
| Layouts.KernelHeader | firmware/scripts/generate_m4_center_kernel.py:613-638 | The 48 header bytes of a kernel blob, field by field at their offsets |
| Layouts.GridHeader | firmware/scripts/generate_m4_native_grid.py:264-311 | The 48 header bytes of a native grid blob, field by field at their offsets |
| Layouts.IndexLayout | firmware/scripts/generate_m4_center_kernel.py:562-585 | The index byte by byte: for each page the number of its leaf or 0xFFFF, and in a leaf of 34 bytes the number of smaller members and one bit for each code point, eight to a byte, the lowest first |
| Layouts.PixelIs | firmware/lib/EpdFont/CenterKernelEpdFont.h:222-226 | Pixel i is bit 7 - i % 8 of byte i / 8 |
| Layouts.FieldIs | firmware/lib/EpdFont/CenterKernelEpdFont.h:460-467 | Two-bit field i of a byte is its value divided by four to the i, modulo four |
| Layouts.NetworkFileOf | firmware/src/WifiCredentialStore.cpp:99-114 | wifi.bin byte by byte |
| Layouts.BookFileOf | firmware/src/RecentBooksStore.cpp:72-96 | recent.bin byte by byte |
| Layouts.SceneHeader | firmware/tools/compile_home_theme.py:977-987 | The section header of a scene byte by byte |
| Layouts.CommandLayout | firmware/tools/compile_home_theme.py:687-975 | A command byte by byte: type, flags, length, prefixes, fields, zeros up to a multiple of four |
| Layouts.BoxLayout | firmware/tools/compile_home_theme.py:729-910 | The fields of the kinds with a rectangle and fixed bytes, at their offsets |
| Layouts.LabelledLayout | firmware/tools/compile_home_theme.py:729-915 | The fields of the kinds with texts and bindings, at their offsets |
| Layouts.ParentLayout | firmware/tools/compile_home_theme.py:916-967 | The fields of groups and repeats, at their offsets, and the children behind them |
| Layouts.PackHeader | firmware/tools/compile_home_theme.py:1428-1446 | The 32 header bytes of a theme file |
| Layouts.PackDescriptor | firmware/tools/compile_home_theme.py:1430-1435 | The 24 bytes of a table line |
| Layouts.PackMeta | firmware/tools/compile_home_theme.py:1380-1400 | The 16 bytes of the meta section |
| Layouts.PackSlot | firmware/tools/compile_home_theme.py:560-584 | The 32 bytes of a slot record |
| Layouts.PackAsset | firmware/tools/compile_home_theme.py:587-591 | The 24 bytes of the asset record |

## Left out

- Scheduler.SimScheduler.RunUntil: its callbacks schedule nothing; `RunReacting` has callbacks that do, and since those may go on for ever it takes a bound on the turns and promises that nothing up to the limit is left only when it ends by itself. `every` is such a callback.
- Scheduler.SimScheduler.RunReacting: stops after a given number of turns, since callbacks may schedule for ever.
- ThemeTools.AcceptTheme: the alphanumeric test of the name is only that it is not empty and has no zero byte; JSON and default values as for `CompileTheme`.
- Candidates.SourceCenters: the quantisation of kept centers to the 16 by 16 grid, the joint-class fitting and the clipping statistics are not modelled.
- KernelBlob.BuildBlob: takes one 32-byte bitmap and one class for each sorted code point, as the corpus collection hands them over.
- RecentBooksFile.RecentBooksStore.LoadFromFile: reads of the open file do not fail before its end; opening a book again is a function from its path to what is known of it.
- SceneCompiler.DecodeScene: the per-type summaries added for display are not modelled; the field reading of the previewer is.
- ThemeTools.CompileTheme: JSON parsing, key and type checks, default values, case folding and the manifest of extra bindings and actions are not modelled; a theme is the parsed value with the names inside its slots looked up, and its name is only required to be non-empty without a zero byte.
- ThemeTools.DecodeM4Theme: the name is returned as the bytes before the first zero; UTF-8 decoding, and its fallback on invalid text, is not modelled.
- Sdmmc.SimSdmmc.FinishOperation: completions run in any order rather than by their latency; power changes that nobody reports are separate rail events.
- WifiStore.WifiCredentialStore.LoadFromFile: closing the file and log output are not modelled.
- Tilt.TiltPageTurnDetector.ProcessPageTurn: angles are real numbers given by the caller; tap detection, auto-rotate and suspension are not modelled.
- fontTools, Pillow, the background image packing and every drawing routine: foreign calls and user interface.
- MD5, SHA-256, CRC-32 and Base64, and the HTTP flow of the WeRead probe.
- Latin glyph extraction, metrics, fallback fonts and pixel-size snapping of the font readers.
- Test-only setters and shadow comparison of the coordinator; latency, waveform phases and traces of the panel.
- The error log and trace of the SD controller, and saving its image to a host file.
- `updateBook`, `updateProviderBook` and `findCredential`: single lookups over the same lists.
- Writes that report more than they stored.
