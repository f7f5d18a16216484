/** The library shared by mkfs and fsck (lib.c): block I/O, the superblock,
    the block allocator, inode access, the direct block map and empty
    directories, over a device held in memory as a sequence of blocks. */
module Lib {
  import opened Utils
  import opened DiskLayout
  import opened Internal

  const EIO: int := 5
  const E2BIG: int := 7
  const EINVAL: int := 22
  const ENOTSUP: int := 95
  /** S_IFDIR of <sys/stat.h> (0o040000). */
  const S_IFDIR: int := 0x4000

  // =====================================================================
  // The device
  // =====================================================================

  /** The block device behind the file descriptor: a fixed number of
      whole 512-byte blocks. */
  class Device {
    var blocks: seq<Block>

    constructor(blocks: seq<Block>)
      ensures this.blocks == blocks
    {
      this.blocks := blocks;
    }

    /** numbfs_read_block: reading a block off the device is a short read
        and fails with -EIO. */
    method ReadBlock(blkno: int) returns (err: int, buf: Block)
      ensures err == 0 <==> 0 <= blkno < |blocks|
      ensures err != 0 ==> err == -EIO
      ensures err == 0 ==> buf == blocks[blkno]
    {
      if 0 <= blkno < |blocks| {
        err, buf := 0, blocks[blkno];
      } else {
        err, buf := -EIO, ZeroBlock();
      }
    }

    /** numbfs_write_block: replaces exactly one block, or fails with -EIO
        and changes nothing. */
    method WriteBlock(buf: Block, blkno: int) returns (err: int)
      modifies this
      ensures err == 0 <==> 0 <= blkno < |old(blocks)|
      ensures err != 0 ==> err == -EIO && blocks == old(blocks)
      ensures err == 0 ==> blocks == old(blocks)[blkno := buf]
    {
      if 0 <= blkno < |blocks| {
        blocks := blocks[blkno := buf];
        err := 0;
      } else {
        err := -EIO;
      }
    }
  }

  /** What a write leaves: the device image after it and the error. */
  datatype DeviceOutcome = DeviceOutcome(err: int, blocks: seq<Block>)

  /** numbfs_write_block on a device image, for code that reasons about
      images rather than a Device object. */
  function WriteSpec(blocks: seq<Block>, buf: Block, blkno: int): (o: DeviceOutcome)
    ensures o.err == 0 <==> 0 <= blkno < |blocks|
    ensures |o.blocks| == |blocks|
    ensures o.err == 0 ==> o.blocks[blkno] == buf
    ensures o.err != 0 ==> o.err == -EIO && o.blocks == blocks
    ensures forall b | 0 <= b < |blocks| && b != blkno :: o.blocks[b] == blocks[b]
  {
    if 0 <= blkno < |blocks| then DeviceOutcome(0, blocks[blkno := buf]) else DeviceOutcome(-EIO, blocks)
  }

  // =====================================================================
  // The superblock
  // =====================================================================

  /** The layout fields of struct numbfs_superblock_info. */
  datatype SbState = SbState(
    feature: int, totalInodes: int, freeInodes: int, dataBlocks: int, freeBlocks: int,
    ibitmapStart: int, inodeStart: int, bbitmapStart: int, dataStart: int)

  predicate Int32(x: int)
  {
    -0x8000_0000 <= x < 0x8000_0000
  }

  predicate Int32State(st: SbState)
  {
    && Int32(st.feature) && Int32(st.totalInodes) && Int32(st.freeInodes)
    && Int32(st.dataBlocks) && Int32(st.freeBlocks) && Int32(st.ibitmapStart)
    && Int32(st.inodeStart) && Int32(st.bbitmapStart) && Int32(st.dataStart)
  }

  /** What get_superblock keeps of a record: each __le32 read into an int. */
  function StateOf(sb: SuperBlock): (st: SbState)
    requires sb.Valid()
    ensures Int32State(st)
  {
    assert Pow256(4) == 0x1_0000_0000;
    assert sb.Fields()[1] < Pow256(4) && sb.Fields()[2] < Pow256(4) && sb.Fields()[3] < Pow256(4);
    assert sb.Fields()[4] < Pow256(4) && sb.Fields()[5] < Pow256(4) && sb.Fields()[6] < Pow256(4);
    assert sb.Fields()[7] < Pow256(4) && sb.Fields()[8] < Pow256(4) && sb.Fields()[9] < Pow256(4);
    SbState(ToInt32(sb.feature), ToInt32(sb.totalInodes), ToInt32(sb.freeInodes),
            ToInt32(sb.dataBlocks), ToInt32(sb.freeBlocks), ToInt32(sb.ibitmapStart),
            ToInt32(sb.inodeStart), ToInt32(sb.bbitmapStart), ToInt32(sb.dataStart))
  }

  /** The record mkfs builds in a zeroed buffer: the magic and every layout
      field cast to __u32. */
  function RecordOf(st: SbState): (sb: SuperBlock)
    ensures sb.Valid() && sb.magic == NUMBFS_MAGIC
  {
    assert Pow256(4) == 0x1_0000_0000;
    SuperBlock(NUMBFS_MAGIC, Trunc(st.feature, 4),
               Trunc(st.ibitmapStart, 4), Trunc(st.inodeStart, 4),
               Trunc(st.bbitmapStart, 4), Trunc(st.dataStart, 4),
               Trunc(st.totalInodes, 4), Trunc(st.freeInodes, 4),
               Trunc(st.dataBlocks, 4), Trunc(st.freeBlocks, 4),
               seq(88, _ => 0 as bv8))
  }

  /** Block 1 holding the encoded superblock, the rest of it zero. */
  function SuperBlockImage(st: SbState): (b: Block)
  {
    RecordSizes();
    EncodeSuperBlock(RecordOf(st)) + seq(BYTES_PER_BLOCK - SUPER_BLOCK_SIZE, _ => 0 as bv8)
  }

  datatype SbRead = SbError(err: int) | SbOk(st: SbState)

  /** What numbfs_get_superblock makes of an image: -EIO when block 1 is
      missing, -EINVAL when the magic is wrong, otherwise the fields. */
  function ReadSuperblock(blocks: seq<Block>): SbRead
  {
    var n := SUPER_OFFSET / BYTES_PER_BLOCK;
    if !(0 <= n < |blocks|) then SbError(-EIO)
    else
      var sb := DecodeSuperBlock(blocks[n][..SUPER_BLOCK_SIZE]);
      if sb.magic != NUMBFS_MAGIC then SbError(-EINVAL) else SbOk(StateOf(sb))
  }

  /** A superblock written the way mkfs writes it reads back as the same
      layout, for every state that fits the source's int fields. */
  lemma SuperblockRoundTrip(blocks: seq<Block>, st: SbState)
    requires |blocks| > 1 && blocks[1] == SuperBlockImage(st) && Int32State(st)
    ensures ReadSuperblock(blocks) == SbOk(st)
  {
    SuperBlockImagePrefix(st);
    SuperBlockRoundTrip(RecordOf(st));
    StateOfRecordOf(st);
  }

  lemma SuperBlockImagePrefix(st: SbState)
    ensures SuperBlockImage(st)[..SUPER_BLOCK_SIZE] == EncodeSuperBlock(RecordOf(st))
  {
    RecordSizes();
  }

  lemma StateOfRecordOf(st: SbState)
    requires Int32State(st)
    ensures StateOf(RecordOf(st)) == st
  {
    ToInt32Trunc(st.feature);
    ToInt32Trunc(st.totalInodes);
    ToInt32Trunc(st.freeInodes);
    ToInt32Trunc(st.dataBlocks);
    ToInt32Trunc(st.freeBlocks);
    ToInt32Trunc(st.ibitmapStart);
    ToInt32Trunc(st.inodeStart);
    ToInt32Trunc(st.bbitmapStart);
    ToInt32Trunc(st.dataStart);
  }

  /** A wrong magic is refused whatever the other 124 bytes hold. */
  lemma BadMagicRefused(blocks: seq<Block>)
    requires |blocks| > 1
    requires DecodeLE(blocks[1][..4]) != NUMBFS_MAGIC
    ensures ReadSuperblock(blocks) == SbError(-EINVAL)
  {
    RecordSizes();
    var s := blocks[1][..SUPER_BLOCK_SIZE];
    SuperBlockFieldOffsets(0);
    assert SUPER_BLOCK_LAYOUT[0] == LeUint(4);
    var v := Decode(SUPER_BLOCK_LAYOUT, s);
    EncodeDecode(SUPER_BLOCK_LAYOUT, s);
    FirstFieldAt(SUPER_BLOCK_LAYOUT, v);
    assert s[..4] == blocks[1][..4];
    DecodeEncodeLE(v[0].n, 4);
  }

  // =====================================================================
  // The block allocator
  // =====================================================================

  datatype Scan = Found(index: nat) | NoneFree | ReadFailed

  /** The scan of numbfs_alloc_block from item i: the first clear bit below
      limit, unless a bitmap block it needs is off the device first. */
  function FirstClear(blocks: seq<Block>, start: int, limit: int, i: nat): (r: Scan)
    ensures r.Found? ==> i <= r.index < limit && 0 <= BmapBlk(start, r.index) < |blocks|
    decreases limit - i
  {
    if i >= limit then NoneFree
    else if !(0 <= BmapBlk(start, i) < |blocks|) then ReadFailed
    else if !BitmapBit(blocks, start, i) then Found(i)
    else FirstClear(blocks, start, limit, i + 1)
  }

  /** Found is the first clear bit at or after i; NoneFree means every bit
      in [i, limit) is set; ReadFailed means a needed block is missing. */
  lemma {:induction false} FirstClearFacts(blocks: seq<Block>, start: int, limit: int, i: nat)
    ensures FirstClear(blocks, start, limit, i).Found? ==>
              var k := FirstClear(blocks, start, limit, i).index;
              && i <= k < limit && 0 <= BmapBlk(start, k) < |blocks| && !BitmapBit(blocks, start, k)
              && forall j | i <= j < k :: 0 <= BmapBlk(start, j) < |blocks| && BitmapBit(blocks, start, j)
    ensures FirstClear(blocks, start, limit, i) == NoneFree ==>
              forall j | i <= j < limit :: 0 <= BmapBlk(start, j) < |blocks| && BitmapBit(blocks, start, j)
    ensures FirstClear(blocks, start, limit, i) == ReadFailed ==>
              exists j | i <= j < limit :: !(0 <= BmapBlk(start, j) < |blocks|)
    decreases limit - i
  {
    if i < limit && 0 <= BmapBlk(start, i) < |blocks| && BitmapBit(blocks, start, i) {
      FirstClearFacts(blocks, start, limit, i + 1);
    }
  }

  datatype AllocOutcome = AllocOutcome(ret: int, blocks: seq<Block>)

  /** What numbfs_alloc_block returns and leaves on the device: data_start
      plus the first clear item, whose bit it sets; data_start - 1 and no
      change when none of the first free_blocks items is clear; -EIO when a
      bitmap block is missing. */
  function AllocSpec(blocks: seq<Block>, st: SbState): (a: AllocOutcome)
    ensures |a.blocks| == |blocks|
    ensures a.ret == -EIO || a.ret == st.dataStart - 1 || st.dataStart <= a.ret < st.dataStart + st.freeBlocks
  {
    match FirstClear(blocks, st.bbitmapStart, st.freeBlocks, 0)
    case Found(i) => AllocOutcome(st.dataStart + i, SetBitmapBit(blocks, st.bbitmapStart, i))
    case NoneFree => AllocOutcome(st.dataStart - 1, blocks)
    case ReadFailed => AllocOutcome(-EIO, blocks)
  }

  /** An allocation takes the lowest free block, sets exactly its bit and
      raises the population of the bitmap by one (test.c's expectation of
      the allocator); when it finds nothing it returns data_start - 1 and
      changes nothing. */
  lemma AllocTakesFirstFree(blocks: seq<Block>, st: SbState, n: int)
    requires Covered(blocks, st.bbitmapStart, n) && st.freeBlocks <= n
    ensures var a := AllocSpec(blocks, st);
            var i := a.ret - st.dataStart;
            (0 <= i < st.freeBlocks ==>
               && !BitmapBit(blocks, st.bbitmapStart, i)
               && (forall j | 0 <= j < i :: BitmapBit(blocks, st.bbitmapStart, j))
               && (forall j | 0 <= j < n :: BitmapBit(a.blocks, st.bbitmapStart, j) <==> (j == i || BitmapBit(blocks, st.bbitmapStart, j)))
               && Population(a.blocks, st.bbitmapStart, n) == Population(blocks, st.bbitmapStart, n) + 1)
    ensures var a := AllocSpec(blocks, st);
            a.ret == st.dataStart - 1 ==>
              a.blocks == blocks && forall j | 0 <= j < st.freeBlocks :: BitmapBit(blocks, st.bbitmapStart, j)
    ensures FirstClear(blocks, st.bbitmapStart, st.freeBlocks, 0) != ReadFailed
    ensures var a := AllocSpec(blocks, st);
            a.ret == st.dataStart - 1 || st.dataStart <= a.ret < st.dataStart + st.freeBlocks
  {
    var s := st.bbitmapStart;
    FirstClearFacts(blocks, s, st.freeBlocks, 0);
    match FirstClear(blocks, s, st.freeBlocks, 0)
    case Found(i) =>
      PopulationSetBit(blocks, s, n, i);
      forall j | 0 <= j < n
        ensures BitmapBit(SetBitmapBit(blocks, s, i), s, j) <==> (j == i || BitmapBit(blocks, s, j))
      {
        SetBitmapBitEffect(blocks, s, i, j);
      }
    case NoneFree =>
    case ReadFailed =>
      assert false;
  }

  /** Freeing what was just allocated restores the device image. */
  lemma AllocThenFreeRestores(blocks: seq<Block>, st: SbState)
    requires AllocSpec(blocks, st).ret - st.dataStart >= 0
    requires FirstClear(blocks, st.bbitmapStart, st.freeBlocks, 0).Found?
    ensures var a := AllocSpec(blocks, st);
            var i := a.ret - st.dataStart;
            && 0 <= BmapBlk(st.bbitmapStart, i) < |a.blocks|
            && BitmapBit(a.blocks, st.bbitmapStart, i)
            && ClearBitmapBit(a.blocks, st.bbitmapStart, i) == blocks
  {
    var s := st.bbitmapStart;
    FirstClearFacts(blocks, s, st.freeBlocks, 0);
    var i := FirstClear(blocks, s, st.freeBlocks, 0).index;
    SetBitmapBitEffect(blocks, s, i, i);
    ClearAfterSetRestores(blocks, s, i);
  }

  // =====================================================================
  // Inode records in the table
  // =====================================================================

  /** The 64 bytes of slot k of an inode table block. */
  function SlotOf(buf: Block, k: int): (s: seq<byte>)
    requires 0 <= k < NODES_PER_BLOCK
    ensures |s| == INODE_SIZE
  {
    buf[INODE_SIZE * k..INODE_SIZE * k + INODE_SIZE]
  }

  /** A table block with slot k replaced: that slot holds rec and the other
      seven slots are byte-identical. */
  function WithSlot(buf: Block, k: int, rec: seq<byte>): (r: Block)
    requires 0 <= k < NODES_PER_BLOCK && |rec| == INODE_SIZE
    ensures SlotOf(r, k) == rec
    ensures forall j | 0 <= j < NODES_PER_BLOCK && j != k :: SlotOf(r, j) == SlotOf(buf, j)
  {
    var r := buf[..INODE_SIZE * k] + rec + buf[INODE_SIZE * k + INODE_SIZE..];
    assert forall j | 0 <= j < NODES_PER_BLOCK && j != k :: SlotOf(r, j) == SlotOf(buf, j) by {
      forall j | 0 <= j < NODES_PER_BLOCK && j != k
        ensures SlotOf(r, j) == SlotOf(buf, j)
      {
        assert forall t | INODE_SIZE * j <= t < INODE_SIZE * j + INODE_SIZE :: r[t] == buf[t];
      }
    }
    r
  }

  /** The record of inode nid, or None when its table block is off the
      device. */
  function InodeRecordAt(blocks: seq<Block>, inodeStart: int, nid: int): (r: Option<InodeRecord>)
    requires nid >= 0
    ensures r.Some? ==> r.value.Valid()
  {
    var blk := InodeBlk(inodeStart, nid);
    if 0 <= blk < |blocks| then Some(DecodeInode(SlotOf(blocks[blk], InodeSlot(nid)))) else None
  }

  /** The fields of struct numbfs_inode_info, including the xattr location
      the checker reads. */
  datatype InodeFields = InodeFields(
    mode: int, nlink: int, uid: int, gid: int, size: int, data: seq<int>,
    xattrStart: int, xattrCount: int)

  /** The fields as dump_inode can store them without loss: 16-bit mode,
      link count and ids, 32-bit size and block numbers. */
  predicate Storable(f: InodeFields)
  {
    && 0 <= f.mode < 0x1_0000 && 0 <= f.nlink < 0x1_0000
    && 0 <= f.uid < 0x1_0000 && 0 <= f.gid < 0x1_0000
    && Int32(f.size) && |f.data| == NUM_DATA_ENTRY
    && forall i | 0 <= i < |f.data| :: Int32(f.data[i])
  }

  /** What get_inode keeps of a record: i_mode through le16_to_cpu (its low
      16 bits), the __le16 fields as they are, i_size and i_data read into
      ints, and the xattr location. */
  function Load(r: InodeRecord): (f: InodeFields)
    requires r.Valid()
    ensures Storable(f) && Int32(f.xattrStart) && 0 <= f.xattrCount < 256
  {
    InodeFields(r.mode % 0x1_0000, r.nlink, r.uid, r.gid, ToInt32(r.size),
                seq(NUM_DATA_ENTRY, i requires 0 <= i < NUM_DATA_ENTRY => ToInt32(r.data[i])),
                ToInt32(r.xattrStart), r.xattrCount)
  }

  /** What dump_inode makes of the record in slot nid % 8: i_ino becomes
      nid, the other fields it converts are cast to their widths, and
      i_xattr_start, i_xattr_count and the padding are kept. */
  function Store(r: InodeRecord, nid: int, f: InodeFields): (s: InodeRecord)
    requires r.Valid() && |f.data| == NUM_DATA_ENTRY
    ensures s.Valid()
    ensures s.xattrStart == r.xattrStart && s.xattrCount == r.xattrCount && s.reserved == r.reserved
  {
    r.(ino := Trunc(nid, 2), mode := Trunc(f.mode, 2), nlink := Trunc(f.nlink, 2),
       uid := Trunc(f.uid, 2), gid := Trunc(f.gid, 2), size := Trunc(f.size, 4),
       data := seq(NUM_DATA_ENTRY, i requires 0 <= i < NUM_DATA_ENTRY => Trunc(f.data[i], 4)))
  }

  /** Storing fields that fit and loading them again gives them back; the
      xattr location is the one already on disk. */
  lemma LoadStore(r: InodeRecord, nid: int, f: InodeFields)
    requires r.Valid() && Storable(f)
    ensures Load(Store(r, nid, f)) == f.(xattrStart := Load(r).xattrStart, xattrCount := Load(r).xattrCount)
  {
    var g := Load(Store(r, nid, f));
    assert Pow256(2) == 0x1_0000;
    forall i | 0 <= i < NUM_DATA_ENTRY
      ensures g.data[i] == f.data[i]
    {
      ToInt32Trunc(f.data[i]);
    }
    ToInt32Trunc(f.size);
  }

  /** What numbfs_dump_inode leaves on the device: the table block of nid
      with only slot nid % 8 re-encoded. */
  function DumpSpec(blocks: seq<Block>, inodeStart: int, nid: int, f: InodeFields): (o: DeviceOutcome)
    requires nid >= 0 && |f.data| == NUM_DATA_ENTRY
    ensures |o.blocks| == |blocks|
  {
    var blk := InodeBlk(inodeStart, nid);
    if !(0 <= blk < |blocks|) then DeviceOutcome(-EIO, blocks)
    else
      var slot := InodeSlot(nid);
      var rec := DecodeInode(SlotOf(blocks[blk], slot));
      DeviceOutcome(0, blocks[blk := WithSlot(blocks[blk], slot, EncodeInode(Store(rec, nid, f)))])
  }

  /** After a dump, re-reading inode nid gives the stored record, and the
      fields come back as they were (the checks lib.c makes in debug
      builds); every other block is unchanged. */
  lemma DumpThenLoad(blocks: seq<Block>, inodeStart: int, nid: int, f: InodeFields)
    requires nid >= 0 && |f.data| == NUM_DATA_ENTRY
    requires 0 <= InodeBlk(inodeStart, nid) < |blocks|
    ensures var o := DumpSpec(blocks, inodeStart, nid, f);
            var r := InodeRecordAt(blocks, inodeStart, nid).value;
            && o.err == 0
            && InodeRecordAt(o.blocks, inodeStart, nid) == Some(Store(r, nid, f))
            && (Storable(f) ==> Load(Store(r, nid, f))
                                == f.(xattrStart := Load(r).xattrStart, xattrCount := Load(r).xattrCount))
            && forall b | 0 <= b < |blocks| && b != InodeBlk(inodeStart, nid) :: o.blocks[b] == blocks[b]
  {
    var r := InodeRecordAt(blocks, inodeStart, nid).value;
    RecordSizes();
    InodeRoundTrip(Store(r, nid, f));
    if Storable(f) {
      LoadStore(r, nid, f);
    }
  }

  /** A dump of inode nid leaves every other inode as it was. */
  lemma DumpKeepsOthers(blocks: seq<Block>, inodeStart: int, nid: int, f: InodeFields, other: int)
    requires nid >= 0 && |f.data| == NUM_DATA_ENTRY && other >= 0 && other != nid
    ensures InodeRecordAt(DumpSpec(blocks, inodeStart, nid, f).blocks, inodeStart, other)
            == InodeRecordAt(blocks, inodeStart, other)
  {
    InodeLocationExact(inodeStart, nid);
    InodeLocationExact(inodeStart, other);
  }

  // =====================================================================
  // The direct block map
  // =====================================================================

  /** numbfs_inode_blkaddr without allocation: -ENOTSUP for extents,
      -E2BIG past the ten direct entries, otherwise the entry (a block
      number, or HOLE). */
  function BlkaddrLookup(data: seq<int>, pos: int, extent: bool): int
    requires |data| == NUM_DATA_ENTRY && pos > -BYTES_PER_BLOCK
  {
    if extent then -ENOTSUP
    else if CDiv(pos, BYTES_PER_BLOCK) >= NUM_DATA_ENTRY then -E2BIG
    else data[CDiv(pos, BYTES_PER_BLOCK)]
  }

  datatype BlkaddrOutcome = BlkaddrOutcome(ret: int, data: seq<int>, blocks: seq<Block>)

  /** numbfs_inode_blkaddr: as the lookup, except that with alloc set a
      HOLE entry is replaced by a newly allocated block; an allocation
      error is passed on and leaves the entry alone. */
  function BlkaddrSpec(blocks: seq<Block>, st: SbState, data: seq<int>, pos: int, alloc: bool, extent: bool)
    : (o: BlkaddrOutcome)
    requires |data| == NUM_DATA_ENTRY && pos > -BYTES_PER_BLOCK
    ensures |o.data| == NUM_DATA_ENTRY && |o.blocks| == |blocks|
  {
    if extent then BlkaddrOutcome(-ENOTSUP, data, blocks)
    else
      var q := CDiv(pos, BYTES_PER_BLOCK);
      if q >= NUM_DATA_ENTRY then BlkaddrOutcome(-E2BIG, data, blocks)
      else if alloc && data[q] == HOLE then
        var a := AllocSpec(blocks, st);
        if a.ret < 0 then BlkaddrOutcome(a.ret, data, a.blocks)
        else BlkaddrOutcome(a.ret, data[q := a.ret], a.blocks)
      else BlkaddrOutcome(data[q], data, blocks)
  }

  /** Without alloc the mapping is the plain lookup and changes nothing. */
  lemma BlkaddrWithoutAlloc(blocks: seq<Block>, st: SbState, data: seq<int>, pos: int, extent: bool)
    requires |data| == NUM_DATA_ENTRY && pos > -BYTES_PER_BLOCK
    ensures BlkaddrSpec(blocks, st, data, pos, false, extent)
            == BlkaddrOutcome(BlkaddrLookup(data, pos, extent), data, blocks)
  {
  }

  /** Only the entry for pos can change, only from HOLE and only with
      alloc set, and then it is the block returned; a successful call
      returns the final entry. */
  lemma BlkaddrChangesOneEntry(blocks: seq<Block>, st: SbState, data: seq<int>, pos: int, alloc: bool, extent: bool)
    requires |data| == NUM_DATA_ENTRY && pos > -BYTES_PER_BLOCK
    ensures var o := BlkaddrSpec(blocks, st, data, pos, alloc, extent);
            var q := CDiv(pos, BYTES_PER_BLOCK);
            && (forall j | 0 <= j < NUM_DATA_ENTRY && j != q :: o.data[j] == data[j])
            && (0 <= q < NUM_DATA_ENTRY && o.data[q] != data[q] ==>
                  alloc && !extent && data[q] == HOLE && o.data[q] == o.ret && o.ret >= 0)
            && (o.ret >= 0 ==> !extent && 0 <= q < NUM_DATA_ENTRY && o.ret == o.data[q])
            && (o.blocks != blocks ==> alloc && !extent && data[q] == HOLE)
            && (o.ret >= 0 && alloc && !extent && 0 <= q < NUM_DATA_ENTRY && data[q] == HOLE ==>
                  o.ret == AllocSpec(blocks, st).ret)
  {
  }

  // =====================================================================
  // Reading and writing an inode's logical blocks
  // =====================================================================

  lemma BlockIndex(blkaddr: int)
    requires blkaddr >= 0
    ensures CDiv(blkaddr * BYTES_PER_BLOCK, BYTES_PER_BLOCK) == blkaddr
  {
    DivUnique(blkaddr * BYTES_PER_BLOCK, BYTES_PER_BLOCK, blkaddr, 0);
  }

  datatype ReadOutcome = ReadOutcome(err: int, buf: Block)

  /** numbfs_pread_inode: a mapping error other than HOLE is returned; a
      HOLE, or a block past the size rounded up to a whole block, reads as
      512 zero bytes; otherwise the mapped block is read. */
  function PreadSpec(blocks: seq<Block>, f: InodeFields, blkaddr: int): ReadOutcome
    requires |f.data| == NUM_DATA_ENTRY && blkaddr >= 0
  {
    BlockSizeIsPow2();
    var target := BlkaddrLookup(f.data, blkaddr * BYTES_PER_BLOCK, false);
    if target < 0 && target != HOLE then ReadOutcome(target, ZeroBlock())
    else if RoundUp(f.size, BYTES_PER_BLOCK) < blkaddr * BYTES_PER_BLOCK || target == HOLE then
      ReadOutcome(0, ZeroBlock())
    else if target < |blocks| then ReadOutcome(0, blocks[target])
    else ReadOutcome(-EIO, ZeroBlock())
  }

  /** A HOLE entry reads as zeros, and so does any block past the rounded
      size whose entry is a block number. */
  lemma HoleReadsZero(blocks: seq<Block>, f: InodeFields, blkaddr: int)
    requires |f.data| == NUM_DATA_ENTRY && 0 <= blkaddr < NUM_DATA_ENTRY
    requires f.data[blkaddr] == HOLE || (f.data[blkaddr] >= 0 && f.size <= (blkaddr - 1) * BYTES_PER_BLOCK)
    ensures PreadSpec(blocks, f, blkaddr) == ReadOutcome(0, ZeroBlock())
  {
    BlockIndex(blkaddr);
    BlockSizeIsPow2();
    RoundUpIsLeastMultiple(f.size, BYTES_PER_BLOCK);
  }

  datatype WriteOutcome = WriteOutcome(err: int, fields: InodeFields, blocks: seq<Block>)

  /** numbfs_pwrite_inode: grow the size to cover the block, map it with
      allocation, write the buffer there and dump the inode. The size is
      grown even when a later step fails. */
  function PwriteSpec(blocks: seq<Block>, st: SbState, nid: int, f: InodeFields, buf: Block, blkaddr: int)
    : (o: WriteOutcome)
    requires nid >= 0 && |f.data| == NUM_DATA_ENTRY && blkaddr >= 0
    ensures |o.blocks| == |blocks| && |o.fields.data| == NUM_DATA_ENTRY
    ensures o.fields.size >= f.size && o.fields.size >= (blkaddr + 1) * BYTES_PER_BLOCK
    ensures o.fields == f.(size := o.fields.size, data := o.fields.data)
    ensures o.err == 0 ==> 0 <= InodeBlk(st.inodeStart, nid) < |o.blocks|
  {
    var f1 := f.(size := Max(f.size, (blkaddr + 1) * BYTES_PER_BLOCK));
    var b := BlkaddrSpec(blocks, st, f1.data, blkaddr * BYTES_PER_BLOCK, true, false);
    var f2 := f1.(data := b.data);
    if b.ret < 0 then WriteOutcome(b.ret, f2, b.blocks)
    else if b.ret >= |b.blocks| then WriteOutcome(-EIO, f2, b.blocks)
    else
      var d := DumpSpec(b.blocks[b.ret := buf], st.inodeStart, nid, f2);
      WriteOutcome(d.err, f2, d.blocks)
  }

  /** A block written and then read returns the written bytes, unless the
      entry it was written through names the inode's own table block,
      which the final dump overwrites. */
  lemma WriteThenRead(blocks: seq<Block>, st: SbState, nid: int, f: InodeFields, buf: Block, blkaddr: int)
    requires nid >= 0 && |f.data| == NUM_DATA_ENTRY && blkaddr >= 0
    requires PwriteSpec(blocks, st, nid, f, buf, blkaddr).err == 0
    ensures var o := PwriteSpec(blocks, st, nid, f, buf, blkaddr);
            blkaddr < NUM_DATA_ENTRY && o.fields.data[blkaddr] >= 0
    ensures var o := PwriteSpec(blocks, st, nid, f, buf, blkaddr);
            var t := o.fields.data[blkaddr];
            t != InodeBlk(st.inodeStart, nid) ==>
              && t < |o.blocks| && o.blocks[t] == buf
              && PreadSpec(o.blocks, o.fields, blkaddr) == ReadOutcome(0, buf)
  {
    BlockIndex(blkaddr);
    BlockSizeIsPow2();
    var f1 := f.(size := Max(f.size, (blkaddr + 1) * BYTES_PER_BLOCK));
    RoundUpIsLeastMultiple(f1.size, BYTES_PER_BLOCK);
    BlkaddrChangesOneEntry(blocks, st, f1.data, blkaddr * BYTES_PER_BLOCK, true, false);
    var b := BlkaddrSpec(blocks, st, f1.data, blkaddr * BYTES_PER_BLOCK, true, false);
    var img := b.blocks[b.ret := buf];
    var f2 := f1.(data := b.data);
    if InodeBlk(st.inodeStart, nid) < |img| && b.ret != InodeBlk(st.inodeStart, nid) {
      DumpThenLoad(img, st.inodeStart, nid, f2);
    }
  }

  /** Writing one block leaves every other HOLE entry a HOLE, so blocks
      never written still read as zeros. */
  lemma WriteKeepsOtherHoles(blocks: seq<Block>, st: SbState, nid: int, f: InodeFields, buf: Block, blkaddr: int, j: int)
    requires nid >= 0 && |f.data| == NUM_DATA_ENTRY && blkaddr >= 0
    requires 0 <= j < NUM_DATA_ENTRY && j != blkaddr && f.data[j] == HOLE
    ensures var o := PwriteSpec(blocks, st, nid, f, buf, blkaddr);
            PreadSpec(o.blocks, o.fields, j) == ReadOutcome(0, ZeroBlock())
  {
    BlockIndex(blkaddr);
    var f1 := f.(size := Max(f.size, (blkaddr + 1) * BYTES_PER_BLOCK));
    BlkaddrChangesOneEntry(blocks, st, f1.data, blkaddr * BYTES_PER_BLOCK, true, false);
    var o := PwriteSpec(blocks, st, nid, f, buf, blkaddr);
    HoleReadsZero(o.blocks, o.fields, j);
  }

  /** A successful write leaves the inode on disk holding the new size and
      block map. */
  lemma WriteThenLoad(blocks: seq<Block>, st: SbState, nid: int, f: InodeFields, buf: Block, blkaddr: int)
    requires nid >= 0 && Storable(f) && blkaddr >= 0
    requires PwriteSpec(blocks, st, nid, f, buf, blkaddr).err == 0
    ensures var o := PwriteSpec(blocks, st, nid, f, buf, blkaddr);
            InodeRecordAt(o.blocks, st.inodeStart, nid).Some? &&
            (Storable(o.fields) ==>
              var g := Load(InodeRecordAt(o.blocks, st.inodeStart, nid).value);
              g.size == o.fields.size && g.data == o.fields.data && g.mode == f.mode && g.nlink == f.nlink)
  {
    BlockIndex(blkaddr);
    var f1 := f.(size := Max(f.size, (blkaddr + 1) * BYTES_PER_BLOCK));
    var b := BlkaddrSpec(blocks, st, f1.data, blkaddr * BYTES_PER_BLOCK, true, false);
    var img := b.blocks[b.ret := buf];
    var f2 := f1.(data := b.data);
    DumpThenLoad(img, st.inodeStart, nid, f2);
  }

  // =====================================================================
  // Empty directories
  // =====================================================================

  /** ".." NUL-terminated in a zeroed 60-byte name. */
  function DotDotName(): (n: seq<byte>)
    ensures |n| == MAX_PATH_LEN && n[0] == 46 && n[1] == 46 && n[2] == 0
  {
    [46 as bv8, 46] + seq(58, _ => 0 as bv8)
  }

  /** "." NUL-terminated in a zeroed 60-byte name. */
  function DotName(): (n: seq<byte>)
    ensures |n| == MAX_PATH_LEN && n[0] == 46 && n[1] == 0
  {
    [46 as bv8] + seq(59, _ => 0 as bv8)
  }

  /** The block numbfs_empty_dir builds: a zeroed block whose first dirent
      is ".." naming pnid and whose second is "." naming nid; name_len and
      type stay zero as the memset leaves them. */
  function DirBlock(pnid: int, nid: int): (b: Block)
  {
    RecordSizes();
    EncodeDirent(Dirent(0, 0, DotDotName(), Trunc(pnid, 2)))
      + EncodeDirent(Dirent(0, 0, DotName(), Trunc(nid, 2)))
      + seq(BYTES_PER_BLOCK - 2 * DIRENT_SIZE, _ => 0 as bv8)
  }

  /** Decoding the directory block gives back ".." -> pnid and "." -> nid. */
  lemma DirBlockEntries(pnid: int, nid: int)
    ensures DecodeDirent(DirBlock(pnid, nid)[..DIRENT_SIZE]) == Dirent(0, 0, DotDotName(), Trunc(pnid, 2))
    ensures DecodeDirent(DirBlock(pnid, nid)[DIRENT_SIZE..2 * DIRENT_SIZE]) == Dirent(0, 0, DotName(), Trunc(nid, 2))
    ensures forall k | 2 * DIRENT_SIZE <= k < BYTES_PER_BLOCK :: DirBlock(pnid, nid)[k] == 0
  {
    RecordSizes();
    var d0 := Dirent(0, 0, DotDotName(), Trunc(pnid, 2));
    var d1 := Dirent(0, 0, DotName(), Trunc(nid, 2));
    assert Pow256(2) == 0x1_0000;
    DirentRoundTrip(d0);
    DirentRoundTrip(d1);
    var b := DirBlock(pnid, nid);
    assert b[..DIRENT_SIZE] == EncodeDirent(d0);
    assert b[DIRENT_SIZE..2 * DIRENT_SIZE] == EncodeDirent(d1);
  }

  /** BUG_ON of empty_dir: the inode about to become a directory maps no
      block yet. */
  predicate AllHoles(blocks: seq<Block>, inodeStart: int, nid: int)
    requires nid >= 0
  {
    match InodeRecordAt(blocks, inodeStart, nid)
    case None => true
    case Some(r) => forall i | 0 <= i < NUM_DATA_ENTRY :: Load(r).data[i] == HOLE
  }

  /** The directory inode fields empty_dir sets before its final dump. */
  function DirFields(f: InodeFields): InodeFields
  {
    f.(mode := S_IFDIR, nlink := 2, uid := 0, gid := 0, size := 2 * DIRENT_SIZE)
  }

  /** numbfs_empty_dir: load inode nid, write the directory block as its
      logical block 0, then set the directory fields and dump it. */
  function EmptyDirSpec(blocks: seq<Block>, st: SbState, pnid: int, nid: int): DeviceOutcome
    requires nid >= 0
  {
    match InodeRecordAt(blocks, st.inodeStart, nid)
    case None => DeviceOutcome(-EIO, blocks)
    case Some(r) =>
      var w := PwriteSpec(blocks, st, nid, Load(r), DirBlock(pnid, nid), 0);
      if w.err != 0 then DeviceOutcome(w.err, w.blocks)
      else DumpSpec(w.blocks, st.inodeStart, nid, DirFields(w.fields))
  }

  /** Writing block 0 of an inode that maps nothing: entry 0 becomes the
      allocated block (an int that fits), the other entries stay HOLE,
      and that block holds the buffer. */
  lemma WriteFirstBlock(blocks: seq<Block>, st: SbState, nid: int, f: InodeFields, buf: Block)
    requires nid >= 0 && |f.data| == NUM_DATA_ENTRY
    requires forall i | 0 <= i < NUM_DATA_ENTRY :: f.data[i] == HOLE
    requires Int32(st.dataStart) && st.dataStart + st.freeBlocks <= 0x8000_0000
    requires PwriteSpec(blocks, st, nid, f, buf, 0).err == 0
    ensures var w := PwriteSpec(blocks, st, nid, f, buf, 0);
            && 0 <= w.fields.data[0] < 0x8000_0000
            && (forall i | 1 <= i < NUM_DATA_ENTRY :: w.fields.data[i] == HOLE)
            && 0 <= InodeBlk(st.inodeStart, nid) < |w.blocks|
            && (w.fields.data[0] != InodeBlk(st.inodeStart, nid) ==>
                  w.fields.data[0] < |w.blocks| && w.blocks[w.fields.data[0]] == buf)
    ensures PwriteSpec(blocks, st, nid, f, buf, 0).fields.data[0] == AllocSpec(blocks, st).ret
  {
    var w := PwriteSpec(blocks, st, nid, f, buf, 0);
    BlockIndex(0);
    var f1 := f.(size := Max(f.size, BYTES_PER_BLOCK));
    var b := BlkaddrSpec(blocks, st, f1.data, 0, true, false);
    assert w.fields.data == b.data;
    assert b.ret >= 0;
    BlkaddrChangesOneEntry(blocks, st, f1.data, 0, true, false);
    WriteThenRead(blocks, st, nid, f, buf, 0);
  }

  /** EmptyDirSpec step by step, for the method that follows it. */
  lemma EmptyDirSteps(blocks: seq<Block>, st: SbState, pnid: int, nid: int, r: InodeRecord)
    requires nid >= 0 && InodeRecordAt(blocks, st.inodeStart, nid) == Some(r)
    ensures var w := PwriteSpec(blocks, st, nid, Load(r), DirBlock(pnid, nid), 0);
            EmptyDirSpec(blocks, st, pnid, nid)
            == if w.err != 0 then DeviceOutcome(w.err, w.blocks)
               else DumpSpec(w.blocks, st.inodeStart, nid, DirFields(w.fields))
  {
  }

  /** The final dump of empty_dir: the inode reads back with the
      directory fields and the block map it was given, and no other block
      changes. */
  lemma DumpDirFields(blocks: seq<Block>, inodeStart: int, nid: int, f: InodeFields)
    requires nid >= 0 && |f.data| == NUM_DATA_ENTRY && 0 <= InodeBlk(inodeStart, nid) < |blocks|
    requires 0 <= f.data[0] < 0x8000_0000
    requires forall i | 1 <= i < NUM_DATA_ENTRY :: f.data[i] == HOLE
    ensures var o := DumpSpec(blocks, inodeStart, nid, DirFields(f));
            && o.err == 0
            && InodeRecordAt(o.blocks, inodeStart, nid).Some?
            && var h := Load(InodeRecordAt(o.blocks, inodeStart, nid).value);
            && h.mode == S_IFDIR && h.nlink == 2 && h.uid == 0 && h.gid == 0
            && h.size == 2 * DIRENT_SIZE && h.data == f.data
            && forall b | 0 <= b < |blocks| && b != InodeBlk(inodeStart, nid) :: o.blocks[b] == blocks[b]
  {
    var g := DirFields(f);
    assert Storable(g);
    DumpThenLoad(blocks, inodeStart, nid, g);
  }

  /** A block mapped by entry 0 of an inode with a non-negative size reads
      back as that device block. */
  lemma ReadFirstBlock(blocks: seq<Block>, f: InodeFields)
    requires |f.data| == NUM_DATA_ENTRY && 0 <= f.data[0] < |blocks| && f.size >= 0
    ensures PreadSpec(blocks, f, 0) == ReadOutcome(0, blocks[f.data[0]])
  {
    BlockIndex(0);
    BlockSizeIsPow2();
    RoundUpIsLeastMultiple(f.size, BYTES_PER_BLOCK);
  }

  /** After a successful empty_dir, inode nid is a directory with two
      links, owner 0, size 128 and one mapped block, and that block reads
      back as the ".." / "." pair (unless the allocator handed out the
      inode's own table block). */
  lemma EmptyDirResult(blocks: seq<Block>, st: SbState, pnid: int, nid: int)
    requires nid >= 0 && AllHoles(blocks, st.inodeStart, nid)
    requires Int32(st.dataStart) && st.dataStart + st.freeBlocks <= 0x8000_0000
    requires EmptyDirSpec(blocks, st, pnid, nid).err == 0
    ensures var o := EmptyDirSpec(blocks, st, pnid, nid);
            && InodeRecordAt(o.blocks, st.inodeStart, nid).Some?
            && var f := Load(InodeRecordAt(o.blocks, st.inodeStart, nid).value);
            && f.mode == S_IFDIR && f.nlink == 2 && f.uid == 0 && f.gid == 0
            && f.size == 2 * DIRENT_SIZE
            && f.data[0] >= 0
            && (forall i | 1 <= i < NUM_DATA_ENTRY :: f.data[i] == HOLE)
            && (f.data[0] != InodeBlk(st.inodeStart, nid) ==>
                  PreadSpec(o.blocks, f, 0) == ReadOutcome(0, DirBlock(pnid, nid)))
  {
    var r := InodeRecordAt(blocks, st.inodeStart, nid).value;
    var w := PwriteSpec(blocks, st, nid, Load(r), DirBlock(pnid, nid), 0);
    WriteFirstBlock(blocks, st, nid, Load(r), DirBlock(pnid, nid));
    DumpDirFields(w.blocks, st.inodeStart, nid, w.fields);
    var o := EmptyDirSpec(blocks, st, pnid, nid);
    assert o == DumpSpec(w.blocks, st.inodeStart, nid, DirFields(w.fields));
    var h := Load(InodeRecordAt(o.blocks, st.inodeStart, nid).value);
    if h.data[0] != InodeBlk(st.inodeStart, nid) {
      ReadFirstBlock(o.blocks, h);
    }
  }

  // =====================================================================
  // The objects of lib.c
  // =====================================================================

  /** struct numbfs_superblock_info, bound to its device. */
  class SuperblockInfo {
    const dev: Device
    var feature: int
    var totalInodes: int
    var freeInodes: int
    var dataBlocks: int
    var freeBlocks: int
    var ibitmapStart: int
    var inodeStart: int
    var bbitmapStart: int
    var dataStart: int
    /** The image size in bytes (mkfs only). */
    var size: int

    constructor(dev: Device)
      ensures this.dev == dev && State() == SbState(0, 0, 0, 0, 0, 0, 0, 0, 0) && size == 0
    {
      this.dev := dev;
      feature, totalInodes, freeInodes, dataBlocks, freeBlocks := 0, 0, 0, 0, 0;
      ibitmapStart, inodeStart, bbitmapStart, dataStart := 0, 0, 0, 0;
      size := 0;
    }

    function State(): SbState
      reads this
    {
      SbState(feature, totalInodes, freeInodes, dataBlocks, freeBlocks,
              ibitmapStart, inodeStart, bbitmapStart, dataStart)
    }

    /** numbfs_get_superblock: reads block 1 and, when the magic matches,
        fills in every layout field; on an error nothing changes. */
    method GetSuperblock() returns (err: int)
      modifies this
      ensures size == old(size)
      ensures match ReadSuperblock(dev.blocks)
              case SbError(e) => err == e && State() == old(State())
              case SbOk(st) => err == 0 && State() == st
    {
      var buf;
      err, buf := dev.ReadBlock(SUPER_OFFSET / BYTES_PER_BLOCK);
      if err != 0 {
        return;
      }
      var sb := DecodeSuperBlock(buf[..SUPER_BLOCK_SIZE]);
      if sb.magic != NUMBFS_MAGIC {
        return -EINVAL;
      }
      FillFrom(sb);
      return 0;
    }

    /** The field copies of numbfs_get_superblock: each little-endian
        field of the on-disk superblock, read as the source's int. */
    method FillFrom(sb: SuperBlock)
      requires sb.Valid()
      modifies this
      ensures State() == StateOf(sb) && size == old(size)
    {
      ibitmapStart := ToInt32(sb.ibitmapStart);
      inodeStart := ToInt32(sb.inodeStart);
      bbitmapStart := ToInt32(sb.bbitmapStart);
      dataStart := ToInt32(sb.dataStart);
      totalInodes := ToInt32(sb.totalInodes);
      freeInodes := ToInt32(sb.freeInodes);
      dataBlocks := ToInt32(sb.dataBlocks);
      freeBlocks := ToInt32(sb.freeBlocks);
      feature := ToInt32(sb.feature);
    }

    /** numbfs_alloc_block: first-fit over the first free_blocks items of
        the block bitmap, reading a bitmap block every 4096 items. */
    method AllocBlock() returns (r: int)
      modifies dev
      ensures var a := AllocSpec(old(dev.blocks), State());
              r == a.ret && dev.blocks == a.blocks
    {
      ghost var blocks := dev.blocks;
      ghost var s := bbitmapStart;
      var buf: Block := ZeroBlock();
      var i := 0;
      while i < freeBlocks
        invariant 0 <= i
        invariant dev.blocks == blocks
        invariant FirstClear(blocks, s, freeBlocks, 0) == FirstClear(blocks, s, freeBlocks, i)
        invariant i % BLOCKS_PER_BLOCK != 0 ==>
                    0 <= BmapBlk(s, i - 1) < |blocks| && buf == blocks[BmapBlk(s, i - 1)]
        decreases freeBlocks - i
      {
        var blk := BmapBlk(bbitmapStart, i);
        if i % BLOCKS_PER_BLOCK == 0 {
          var err;
          err, buf := dev.ReadBlock(blk);
          if err != 0 {
            return err;
          }
        } else {
          BmapBlkStep(s, i - 1);
        }
        BmapRanges(s, i);
        var byt := BmapByte(i);
        var bit := BmapBit(i);
        if !IsSet(buf[byt], bit) {
          buf := buf[byt := SetBit(buf[byt], bit)];
          r := dev.WriteBlock(buf, blk);
          if r == 0 {
            r := i + dataStart;
          }
          return;
        }
        i := i + 1;
      }
      return -1 + dataStart;
    }

    /** numbfs_free_block: clears the bit of blkno - data_start, which must
        be set (BUG_ON), and nothing else. */
    method FreeBlock(blkno: int) returns (err: int)
      requires blkno - dataStart >= 0
      requires 0 <= BmapBlk(bbitmapStart, blkno - dataStart) < |dev.blocks| ==>
                 BitmapBit(dev.blocks, bbitmapStart, blkno - dataStart)
      modifies dev
      ensures var i := blkno - dataStart;
              if 0 <= BmapBlk(bbitmapStart, i) < |old(dev.blocks)|
              then err == 0 && dev.blocks == ClearBitmapBit(old(dev.blocks), bbitmapStart, i)
              else err == -EIO && dev.blocks == old(dev.blocks)
    {
      var i := blkno - dataStart;
      var blk := BmapBlk(bbitmapStart, i);
      var buf;
      err, buf := dev.ReadBlock(blk);
      if err != 0 {
        return;
      }
      BmapRanges(bbitmapStart, i);
      var byt := BmapByte(i);
      var bit := BmapBit(i);
      buf := buf[byt := ClearBit(buf[byt], bit)];
      err := dev.WriteBlock(buf, blk);
    }

    /** numbfs_empty_dir(sbi, pnid, nid). */
    method EmptyDir(pnid: int, nid: int) returns (err: int)
      requires nid >= 0 && AllHoles(dev.blocks, inodeStart, nid)
      modifies dev
      ensures var o := EmptyDirSpec(old(dev.blocks), State(), pnid, nid);
              err == o.err && dev.blocks == o.blocks
    {
      ghost var blocks := dev.blocks;
      var ii := new InodeInfo(this, nid);
      err := ii.GetInode();
      if err != 0 {
        return;
      }
      ghost var r := InodeRecordAt(blocks, inodeStart, nid).value;
      EmptyDirSteps(blocks, State(), pnid, nid, r);
      var buf := DirBlock(pnid, nid);
      err := ii.PwriteInode(buf, 0);
      if err != 0 {
        return;
      }
      ii.SetDirFields();
      err := ii.DumpInode();
    }
  }

  /** struct numbfs_inode_info: an inode number and the fields loaded
      from its record. */
  class InodeInfo {
    const sbi: SuperblockInfo
    const nid: int
    var mode: int
    var nlink: int
    var uid: int
    var gid: int
    var size: int
    var data: seq<int>
    var xattrStart: int
    var xattrCount: int

    predicate Valid()
      reads this
    {
      nid >= 0 && |data| == NUM_DATA_ENTRY
    }

    function Fields(): InodeFields
      reads this
    {
      InodeFields(mode, nlink, uid, gid, size, data, xattrStart, xattrCount)
    }

    constructor(sbi: SuperblockInfo, nid: int)
      requires nid >= 0
      ensures this.sbi == sbi && this.nid == nid && Valid()
      ensures Fields() == InodeFields(0, 0, 0, 0, 0, seq(NUM_DATA_ENTRY, _ => 0), 0, 0)
    {
      this.sbi := sbi;
      this.nid := nid;
      mode, nlink, uid, gid, size := 0, 0, 0, 0, 0;
      data := seq(NUM_DATA_ENTRY, _ => 0);
      xattrStart, xattrCount := 0, 0;
    }

    /** numbfs_get_inode: decodes slot nid % 8 of block inode_start + nid / 8
        into the fields; the device is not touched. */
    method GetInode() returns (err: int)
      requires Valid()
      modifies this
      ensures Valid()
      ensures match InodeRecordAt(sbi.dev.blocks, sbi.inodeStart, nid)
              case None => err == -EIO && Fields() == old(Fields())
              case Some(r) => err == 0 && Fields() == Load(r)
    {
      var buf;
      err, buf := sbi.dev.ReadBlock(InodeBlk(sbi.inodeStart, nid));
      if err != 0 {
        return;
      }
      var r := DecodeInode(SlotOf(buf, InodeSlot(nid)));
      var entries := data;
      var i := 0;
      while i < NUM_DATA_ENTRY
        invariant 0 <= i <= NUM_DATA_ENTRY && |entries| == NUM_DATA_ENTRY
        invariant forall j | 0 <= j < i :: entries[j] == ToInt32(r.data[j])
      {
        entries := entries[i := ToInt32(r.data[i])];
        i := i + 1;
      }
      mode := r.mode % 0x1_0000;
      nlink := r.nlink;
      uid := r.uid;
      gid := r.gid;
      size := ToInt32(r.size);
      data := entries;
      xattrStart := ToInt32(r.xattrStart);
      xattrCount := r.xattrCount;
      assert data == Load(r).data;
    }

    /** The metadata update of numbfs_empty_dir: a directory with two
        links, owned by root, holding two dirents. */
    method SetDirFields()
      requires Valid()
      modifies this
      ensures Valid() && Fields() == DirFields(old(Fields()))
    {
      mode := S_IFDIR;
      nlink := 2;
      uid, gid := 0, 0;
      size := 2 * DIRENT_SIZE;
    }

    /** numbfs_dump_inode: re-encodes slot nid % 8 of its table block. */
    method DumpInode() returns (err: int)
      requires Valid()
      modifies sbi.dev
      ensures var o := DumpSpec(old(sbi.dev.blocks), sbi.inodeStart, nid, Fields());
              err == o.err && sbi.dev.blocks == o.blocks
    {
      var blk := InodeBlk(sbi.inodeStart, nid);
      var buf;
      err, buf := sbi.dev.ReadBlock(blk);
      if err != 0 {
        return;
      }
      var slot := InodeSlot(nid);
      var rec := DecodeInode(SlotOf(buf, slot));
      var newData := rec.data;
      for i := 0 to NUM_DATA_ENTRY
        invariant |newData| == NUM_DATA_ENTRY && sbi.dev.blocks == old(sbi.dev.blocks)
        invariant forall j | 0 <= j < i :: newData[j] == Trunc(data[j], 4)
      {
        newData := newData[i := Trunc(data[i], 4)];
      }
      var stored := rec.(ino := Trunc(nid, 2), mode := Trunc(mode, 2), nlink := Trunc(nlink, 2),
                         uid := Trunc(uid, 2), gid := Trunc(gid, 2), size := Trunc(size, 4),
                         data := newData);
      assert stored == Store(rec, nid, Fields());
      err := sbi.dev.WriteBlock(WithSlot(buf, slot, EncodeInode(stored)), blk);
      if err != 0 {
        err := -EIO;
      }
    }

    /** numbfs_inode_blkaddr. */
    method InodeBlkaddr(pos: int, alloc: bool, extent: bool) returns (r: int)
      requires Valid() && pos > -BYTES_PER_BLOCK
      modifies this, sbi.dev
      ensures Valid()
      ensures var o := BlkaddrSpec(old(sbi.dev.blocks), sbi.State(), old(data), pos, alloc, extent);
              r == o.ret && data == o.data && sbi.dev.blocks == o.blocks
      ensures Fields() == old(Fields()).(data := data)
    {
      if extent {
        return -ENOTSUP;
      }
      var q := CDiv(pos, BYTES_PER_BLOCK);
      if q >= NUM_DATA_ENTRY {
        return -E2BIG;
      }
      if alloc && data[q] == HOLE {
        var blkno := sbi.AllocBlock();
        if blkno < 0 {
          return blkno;
        }
        data := data[q := blkno];
      }
      return data[q];
    }

    /** numbfs_pwrite_inode(inode_i, buf, blkaddr). */
    method PwriteInode(buf: Block, blkaddr: int) returns (err: int)
      requires Valid() && blkaddr >= 0
      modifies this, sbi.dev
      ensures Valid()
      ensures var o := PwriteSpec(old(sbi.dev.blocks), sbi.State(), nid, old(Fields()), buf, blkaddr);
              err == o.err && Fields() == o.fields && sbi.dev.blocks == o.blocks
    {
      size := Max(size, (blkaddr + 1) * BYTES_PER_BLOCK);
      BlockIndex(blkaddr);
      var target := InodeBlkaddr(blkaddr * BYTES_PER_BLOCK, true, false);
      if target < 0 {
        return target;
      }
      err := sbi.dev.WriteBlock(buf, target);
      if err != 0 {
        return;
      }
      err := DumpInode();
    }

    /** numbfs_pread_inode(inode_i, buf, blkaddr); it only looks the block
        up, so it changes nothing. The buffer is meaningful on success. */
    method PreadInode(blkaddr: int) returns (err: int, buf: Block)
      requires Valid() && blkaddr >= 0
      ensures var o := PreadSpec(sbi.dev.blocks, Fields(), blkaddr);
              err == o.err && (err == 0 ==> buf == o.buf)
    {
      BlockSizeIsPow2();
      var target := BlkaddrLookup(data, blkaddr * BYTES_PER_BLOCK, false);
      if target < 0 && target != HOLE {
        return target, ZeroBlock();
      }
      if RoundUp(size, BYTES_PER_BLOCK) < blkaddr * BYTES_PER_BLOCK || target == HOLE {
        return 0, ZeroBlock();
      }
      err, buf := sbi.dev.ReadBlock(target);
    }
  }
}
