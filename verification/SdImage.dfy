/** The sector store of simulator/hardware/SimSdCardImage.h. */
module SdImage {

  import opened Wrappers
  import opened Bytes

  const BLOCK_BYTES := 512
  const MAX_BLOCKS := 1_048_576  // 512 MiB of sectors

  datatype Image = Image(bytes: seq<byte>, writable: bool, dirty: bool)

  const EMPTY := Image([], true, false)

  function Blocks(i: Image): nat { |i.bytes| / BLOCK_BYTES }

  function BlockAt(bytes: seq<byte>, lba: nat): (b: seq<byte>)
    requires (lba + 1) * BLOCK_BYTES <= |bytes|
    ensures |b| == BLOCK_BYTES
  {
    bytes[lba * BLOCK_BYTES..lba * BLOCK_BYTES + BLOCK_BYTES]
  }

  /** `create`: fails, changing nothing, for no blocks or too many. */
  predicate CanCreate(blocks: nat) { 0 < blocks <= MAX_BLOCKS }

  function Created(blocks: nat, fill: byte): Image {
    Image(seq(blocks * BLOCK_BYTES, _ => fill), true, false)
  }

  /** `load`: the file must be readable, not empty, a whole number of sectors and not too large. */
  predicate CanLoad(file: Option<seq<byte>>) {
    file.Some? && |file.value| > 0 && |file.value| % BLOCK_BYTES == 0 && |file.value| / BLOCK_BYTES <= MAX_BLOCKS
  }

  function Loaded(file: seq<byte>, writable: bool): Image { Image(file, writable, false) }

  predicate CanWrite(i: Image, lba: nat) { i.writable && lba < Blocks(i) }

  function Written(i: Image, lba: nat, block: seq<byte>): (r: Image)
    requires lba < Blocks(i) && |block| == BLOCK_BYTES
    ensures Blocks(r) == Blocks(i) && r.writable == i.writable
  {
    i.(bytes := Splice(i.bytes, lba * BLOCK_BYTES, block), dirty := true)
  }

  /** A written sector reads back; every other sector keeps its content. */
  lemma WrittenReadsBack(i: Image, lba: nat, block: seq<byte>, other: nat)
    requires lba < Blocks(i) && other < Blocks(i) && |block| == BLOCK_BYTES
    ensures BlockAt(Written(i, lba, block).bytes, other) == if other == lba then block else BlockAt(i.bytes, other)
  {
    var off := lba * BLOCK_BYTES;
    var after := Written(i, lba, block).bytes;
    if other < lba {
      assert (other + 1) * BLOCK_BYTES <= off;
      assert after[..off][other * BLOCK_BYTES..other * BLOCK_BYTES + BLOCK_BYTES] == BlockAt(after, other);
      assert i.bytes[..off][other * BLOCK_BYTES..other * BLOCK_BYTES + BLOCK_BYTES] == BlockAt(i.bytes, other);
    } else if other > lba {
      var rest := off + BLOCK_BYTES;
      var at := other * BLOCK_BYTES - rest;
      assert after[rest..][at..at + BLOCK_BYTES] == BlockAt(after, other);
      assert i.bytes[rest..][at..at + BLOCK_BYTES] == BlockAt(i.bytes, other);
    }
  }

  class SimSdCardImage {
    var bytes: seq<byte>
    var writable: bool
    var dirty: bool

    function State(): Image
      reads this
    {
      Image(bytes, writable, dirty)
    }

    constructor ()
      ensures State() == EMPTY
    {
      bytes, writable, dirty := [], true, false;
    }

    method Create(blocks: nat, fill: byte) returns (ok: bool)
      modifies this
      ensures ok == CanCreate(blocks)
      ensures State() == if ok then Created(blocks, fill) else old(State())
    {
      if blocks == 0 || blocks > MAX_BLOCKS { return false; }
      bytes := seq(blocks * BLOCK_BYTES, _ => fill);
      writable := true;
      dirty := false;
      return true;
    }

    method Load(file: Option<seq<byte>>, asWritable: bool) returns (ok: bool)
      modifies this
      ensures ok == CanLoad(file)
      ensures State() == if ok then Loaded(file.value, asWritable) else old(State())
    {
      if file.None? { return false; }
      var size := |file.value|;
      if size <= 0 || size % BLOCK_BYTES != 0 || size / BLOCK_BYTES > MAX_BLOCKS { return false; }
      bytes := file.value;
      writable := asWritable;
      dirty := false;
      return true;
    }

    /** Copies a sector out, byte by byte; zeros when the sector does not exist. */
    method ReadBlock(lba: nat) returns (ok: bool, out: seq<byte>)
      ensures ok == (lba < Blocks(State()))
      ensures out == if ok then BlockAt(bytes, lba) else Zeros(BLOCK_BYTES)
    {
      out := Zeros(BLOCK_BYTES);
      if lba >= |bytes| / BLOCK_BYTES { return false, out; }
      var off := lba * BLOCK_BYTES;
      var i := 0;
      while i < BLOCK_BYTES
        invariant i <= BLOCK_BYTES && |out| == BLOCK_BYTES
        invariant out[..i] == bytes[off..off + i]
      {
        ghost var prev := out;
        out := out[i := bytes[off + i]];
        assert out[..i + 1] == prev[..i] + [bytes[off + i]];
        assert bytes[off..off + i + 1] == bytes[off..off + i] + [bytes[off + i]];
        i := i + 1;
      }
      assert out[..i] == out;
      ok := true;
    }

    /** Copies a sector in, byte by byte. */
    method WriteBlock(lba: nat, block: seq<byte>) returns (ok: bool)
      requires |block| == BLOCK_BYTES
      modifies this
      ensures ok == CanWrite(old(State()), lba) && (ok <==> old(writable) && lba < |old(bytes)| / 512)
      ensures State() == if ok then Written(old(State()), lba, block) else old(State())
    {
      if !writable || lba >= |bytes| / BLOCK_BYTES { return false; }
      var off := lba * BLOCK_BYTES;
      ghost var before := bytes;
      var i := 0;
      while i < BLOCK_BYTES
        invariant i <= BLOCK_BYTES && |bytes| == |before| && writable && dirty == old(dirty)
        invariant bytes[..off] == before[..off] && bytes[off..off + i] == block[..i]
        invariant bytes[off + i..] == before[off + i..]
      {
        ghost var prev := bytes;
        bytes := bytes[off + i := block[i]];
        assert bytes[off..off + i + 1] == prev[off..off + i] + [block[i]];
        assert block[..i + 1] == block[..i] + [block[i]];
        i := i + 1;
      }
      assert block[..i] == block;
      assert bytes == bytes[..off] + bytes[off..off + i] + bytes[off + i..];
      dirty := true;
      return true;
    }
  }
}
