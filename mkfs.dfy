/** mkfs.c: the option arithmetic and numbfs_mkfs, which lays out a fresh
    image, zeroes its metadata, marks every block map entry of the inode
    table as a hole, makes the root directory and writes the superblock. */
module Mkfs {
  import opened Utils
  import opened DiskLayout
  import opened Internal
  import opened Lib
  import opened Fsck

  const DEFAULT_INODES: int := 4096

  // =====================================================================
  // Options
  // =====================================================================

  /** The settings option parsing leaves in sbi: the inode counts and the
      requested image size in bytes (-1 when none was given). */
  datatype Config = Config(totalInodes: int, freeInodes: int, size: int)

  lemma EightIsPow2()
    ensures IsPow2(BITS_PER_BYTE)
  {
    assert IsPow2(2) && IsPow2(4);
  }

  /** The test on --num_inodes: refused when val <= 0 or val & 0x7 is
      non-zero (val & 0x7 is what remains after clearing the low three
      bits). */
  predicate InodeCountAccepted(val: int)
  {
    EightIsPow2();
    !(val <= 0 || val - RoundDown(val, BITS_PER_BYTE) != 0)
  }

  /** The mask test is the arithmetic one: positive and a multiple of 8. */
  lemma InodeCountAcceptedMeans(val: int)
    ensures InodeCountAccepted(val) <==> val > 0 && val % 8 == 0
  {
    EightIsPow2();
    RoundDownIsGreatestMultiple(val, BITS_PER_BYTE);
  }

  /** numbfs_init_config: 4096 inodes, total minus ROOT_NID (0) of them
      free, and no size requested.  The default is a count --num_inodes would accept. */
  function DefaultConfig(): (c: Config)
    ensures InodeCountAccepted(c.totalInodes) && c.size == -1
  {
    InodeCountAcceptedMeans(DEFAULT_INODES);
    Config(DEFAULT_INODES, DEFAULT_INODES - ROOT_NID, -1)
  }

  datatype Parsed = Accepted(c: Config) | Rejected(err: int)

  /** --num_inodes=val: -EINVAL unless val is a positive multiple of 8;
      otherwise the total becomes val and the free count val - ROOT_NID. */
  function WithNumInodes(c: Config, val: int): (r: Parsed)
    ensures r.Rejected? <==> val <= 0 || val % 8 != 0
    ensures r.Rejected? ==> r.err == -EINVAL
    ensures r.Accepted? ==> r.c.totalInodes == val && r.c.freeInodes == val - ROOT_NID && r.c.size == c.size
  {
    InodeCountAcceptedMeans(val);
    if !InodeCountAccepted(val) then Rejected(-EINVAL)
    else Accepted(c.(totalInodes := val, freeInodes := val - ROOT_NID))
  }

  /** --size=<size><unit>: k/K, m/M and g/G scale by 1024, 1024^2 and
      1024^3; any other unit, or none, leaves bytes. */
  function SizeWithUnit(size: int, unit: Option<char>): int
  {
    match unit
    case None => size
    case Some(u) =>
      if u == 'k' || u == 'K' then size * 1024
      else if u == 'm' || u == 'M' then size * 1024 * 1024
      else if u == 'g' || u == 'G' then size * 1024 * 1024 * 1024
      else size
  }

  /** The units are case-insensitive, each is 1024 times the one below,
      and an unknown unit means bytes. */
  lemma SizeUnitsNest(size: int, u: char)
    ensures SizeWithUnit(size, Some('K')) == SizeWithUnit(size, Some('k')) == 1024 * SizeWithUnit(size, None)
    ensures SizeWithUnit(size, Some('M')) == SizeWithUnit(size, Some('m')) == 1024 * SizeWithUnit(size, Some('k'))
    ensures SizeWithUnit(size, Some('G')) == SizeWithUnit(size, Some('g')) == 1024 * SizeWithUnit(size, Some('m'))
    ensures u !in {'k', 'K', 'm', 'M', 'g', 'G'} ==> SizeWithUnit(size, Some(u)) == size
  {
  }

  // =====================================================================
  // The layout
  // =====================================================================

  /** The blocks a bitmap of x bits occupies. */
  function BitmapBlocks(x: int): int
  {
    DivRoundUp(DivRoundUp(x, BITS_PER_BYTE), BYTES_PER_BLOCK)
  }

  /** A bitmap of x >= 0 bits gets enough whole blocks and no spare one,
      and never more blocks than bits. */
  lemma BitmapBlocksCover(x: int)
    requires x >= 0
    ensures 0 <= BitmapBlocks(x) <= x
    ensures (BitmapBlocks(x) - 1) * BLOCKS_PER_BLOCK < x <= BitmapBlocks(x) * BLOCKS_PER_BLOCK
    ensures x >= 2 ==> BitmapBlocks(x) < x
  {
    var a := DivRoundUp(x, BITS_PER_BYTE);
    var c := DivRoundUp(a, BYTES_PER_BLOCK);
    assert (a - 1) * 8 < x <= a * 8;
    assert (c - 1) * 512 < a <= c * 512;
  }

  /** A bitmap never shrinks when it has to hold more bits. */
  lemma BitmapBlocksMonotone(x: int, y: int)
    requires 0 <= x <= y
    ensures BitmapBlocks(x) <= BitmapBlocks(y)
  {
    var ax, ay := DivRoundUp(x, BITS_PER_BYTE), DivRoundUp(y, BITS_PER_BYTE);
    assert (ax - 1) * 8 < x && y <= ay * 8;
    assert ax <= ay;
    var cx, cy := DivRoundUp(ax, BYTES_PER_BLOCK), DivRoundUp(ay, BYTES_PER_BLOCK);
    assert (cx - 1) * 512 < ax && ay <= cy * 512;
  }

  /** inode_start: the inode bitmap of n bits follows block 2. */
  function InodeStartOf(n: int): int
  {
    2 + BitmapBlocks(n)
  }

  /** bbitmap_start: the inode table of n 64-byte records follows. */
  function BbitmapStartOf(n: int): int
  {
    InodeStartOf(n) + DivRoundUp(n * INODE_SIZE, BYTES_PER_BLOCK)
  }

  /** The layout numbfs_mkfs computes for an image of `size` bytes and the
      inode count in st; the other fields of st are kept.  The data zone
      starts where the block bitmap of data_blocks bits ends. */
  function LayoutOf(st: SbState, size: int): SbState
  {
    var totalBlocks := CDiv(size, BYTES_PER_BLOCK);
    var bbitmapStart := BbitmapStartOf(st.totalInodes);
    var remain := totalBlocks - bbitmapStart - 1;
    var dataBlocks := remain - BitmapBlocks(remain);
    st.(ibitmapStart := 2, inodeStart := InodeStartOf(st.totalInodes), bbitmapStart := bbitmapStart,
        dataBlocks := dataBlocks, freeBlocks := dataBlocks,
        dataStart := bbitmapStart + BitmapBlocks(dataBlocks))
  }

  /** The inode bitmap starts at block 2 and has a bit for every inode. */
  lemma InodeBitmapCovers(st: SbState, size: int)
    requires st.totalInodes > 0
    ensures var l := LayoutOf(st, size);
            && l.ibitmapStart == 2 < l.inodeStart
            && st.totalInodes <= (l.inodeStart - l.ibitmapStart) * BLOCKS_PER_BLOCK
  {
    BitmapBlocksCover(st.totalInodes);
  }

  /** The inode table follows the inode bitmap and has a slot for every
      inode; an accepted count fills its last block exactly. */
  lemma InodeTableHolds(st: SbState, size: int)
    requires st.totalInodes > 0
    ensures var l := LayoutOf(st, size);
            && l.inodeStart < l.bbitmapStart
            && st.totalInodes <= (l.bbitmapStart - l.inodeStart) * NODES_PER_BLOCK
            && (st.totalInodes % 8 == 0 ==> (l.bbitmapStart - l.inodeStart) * NODES_PER_BLOCK == st.totalInodes)
  {
    TableBlocks(st.totalInodes);
  }

  /** n 64-byte records take whole blocks of eight slots, and exactly n / 8
      of them when n is a multiple of 8. */
  lemma TableBlocks(n: int)
    requires n > 0
    ensures var t := DivRoundUp(n * INODE_SIZE, BYTES_PER_BLOCK);
            && 0 < t && n <= t * NODES_PER_BLOCK
            && (n % 8 == 0 ==> t * NODES_PER_BLOCK == n)
  {
    var t := DivRoundUp(n * INODE_SIZE, BYTES_PER_BLOCK);
    assert (t - 1) * 512 < n * 64 <= t * 512;
    if n % 8 == 0 {
      assert n * 64 == (n / 8) * 512;
    }
  }

  /** When something is left after the block bitmap's start, the data zone
      is non-negative, its bitmap has a bit for every data block, it is
      all free, and it ends before the last block of the image. */
  lemma DataZoneFits(st: SbState, size: int)
    requires CDiv(size, BYTES_PER_BLOCK) - BbitmapStartOf(st.totalInodes) - 1 >= 0
    ensures var l := LayoutOf(st, size);
            && 0 <= l.dataBlocks == l.freeBlocks
            && l.bbitmapStart <= l.dataStart
            && l.dataBlocks <= (l.dataStart - l.bbitmapStart) * BLOCKS_PER_BLOCK
            && l.dataStart + l.dataBlocks <= CDiv(size, BYTES_PER_BLOCK) - 1
  {
    DataZoneSplit(CDiv(size, BYTES_PER_BLOCK) - BbitmapStartOf(st.totalInodes) - 1);
  }

  /** The blocks left after the block bitmap's start split into the data
      zone's bitmap and the data zone, which the bitmap covers. */
  lemma DataZoneSplit(remain: int)
    requires remain >= 0
    ensures var d := remain - BitmapBlocks(remain);
            && 0 <= d
            && d + BitmapBlocks(d) <= remain
            && d <= BitmapBlocks(d) * BLOCKS_PER_BLOCK
  {
    var d := remain - BitmapBlocks(remain);
    BitmapBlocksCover(remain);
    BitmapBlocksCover(d);
    BitmapBlocksMonotone(d, remain);
  }

  // =====================================================================
  // The size decision
  // =====================================================================

  /** The image size numbfs_mkfs settles on for a device of `nblocks`
      whole blocks: the device size when none was requested, None
      (-EINVAL) when the device is smaller than the request. */
  function ImageSize(requested: int, nblocks: nat): Option<int>
  {
    var devSize := nblocks * BYTES_PER_BLOCK;
    if requested == -1 then Some(devSize)
    else if devSize < requested then None
    else Some(requested)
  }

  /** The size test as written: more than two blocks, the inode table
      rounded up to whole blocks, and 3 bytes. */
  predicate AdmittedAsWritten(n: int, size: int)
  {
    BlockSizeIsPow2();
    !(size <= 2 * BYTES_PER_BLOCK + RoundUp(n * INODE_SIZE, BYTES_PER_BLOCK) + 3)
  }

  /** The size test with the room it leaves out: after the block bitmap's
      start at least two more blocks besides the last one, so that the
      data zone gets a block. */
  predicate Admitted(n: int, size: int)
  {
    AdmittedAsWritten(n, size) && CDiv(size, BYTES_PER_BLOCK) - BbitmapStartOf(n) - 1 >= 2
  }

  /** The as-written test lets through a 2048-byte image with 8 inodes:
      nothing is left for the data zone (data_blocks = free_blocks = -1),
      so the first allocation returns data_start - 1, the inode table
      block that holds the root inode itself. */
  lemma AsWrittenAdmitsNoDataZone(blocks: seq<Block>, st: SbState)
    requires st.totalInodes == 8
    ensures AdmittedAsWritten(8, 2048) && !Admitted(8, 2048)
    ensures var l := LayoutOf(st, 2048);
            && l.inodeStart == 3 && l.bbitmapStart == 4 && l.dataStart == 4
            && l.dataBlocks == l.freeBlocks == -1
            && AllocSpec(blocks, l).ret == InodeBlk(l.inodeStart, ROOT_NID)
  {
    BlockSizeIsPow2();
    RoundUpIsLeastMultiple(8 * INODE_SIZE, BYTES_PER_BLOCK);
    assert RoundUp(512, 512) == 512;
    var l := LayoutOf(st, 2048);
    assert BitmapBlocks(8) == 1;
    assert DivRoundUp(8 * INODE_SIZE, BYTES_PER_BLOCK) == 1;
    assert BitmapBlocks(-1) == 0;
    assert FirstClear(blocks, l.bbitmapStart, l.freeBlocks, 0) == NoneFree;
  }

  /** Under the corrected test the layout fits the device: the regions
      follow one another, the data zone has at least one block, and it
      ends before the device does. */
  lemma AdmittedLayoutFits(st: SbState, size: int, nblocks: nat)
    requires st.totalInodes > 0 && Admitted(st.totalInodes, size) && size <= nblocks * BYTES_PER_BLOCK
    ensures var l := LayoutOf(st, size);
            && 2 < l.inodeStart < l.bbitmapStart < l.dataStart
            && 1 <= l.dataBlocks
            && l.dataStart + l.dataBlocks < nblocks
  {
    InodeBitmapCovers(st, size);
    InodeTableHolds(st, size);
    DataZoneFits(st, size);
    var l := LayoutOf(st, size);
    var remain := CDiv(size, BYTES_PER_BLOCK) - l.bbitmapStart - 1;
    BitmapBlocksCover(remain);
    BitmapBlocksCover(l.dataBlocks);
    assert size >= 0;
    assert CDiv(size, BYTES_PER_BLOCK) <= nblocks;
  }

  // =====================================================================
  // The fresh image
  // =====================================================================

  /** The ten i_data entries of a fresh inode: HOLE as __le32. */
  function HoleData(): (d: seq<nat>)
    ensures |d| == NUM_DATA_ENTRY
    ensures forall i | 0 <= i < |d| :: d[i] < Pow256(4) && ToInt32(d[i]) == HOLE
  {
    ToInt32Trunc(HOLE);
    seq(NUM_DATA_ENTRY, _ => Trunc(HOLE, 4))
  }

  /** A record whose block map entries are all holes: loading it gives
      the fields of the original record, every entry HOLE. */
  function WithHoleData(r: InodeRecord): (h: InodeRecord)
    requires r.Valid()
    ensures h.Valid()
  {
    r.(data := HoleData())
  }

  /** Loading a record after the hole pass gives the fields it had, with
      every block map entry HOLE. */
  lemma LoadHoleData(r: InodeRecord)
    requires r.Valid()
    ensures Load(WithHoleData(r)) == Load(r).(data := seq(NUM_DATA_ENTRY, _ => HOLE))
  {
    var d := Load(WithHoleData(r)).data;
    assert forall i | 0 <= i < NUM_DATA_ENTRY :: d[i] == HOLE;
  }

  /** A 64-byte inode slot after the hole pass: the record it holds with
      its block map replaced, every other byte as it was. */
  function HoledSlot(s: seq<byte>): (t: seq<byte>)
    requires |s| == INODE_SIZE
    ensures |t| == INODE_SIZE
  {
    EncodeInode(WithHoleData(DecodeInode(s)))
  }

  /** A hole-passed slot decodes to the original record with every entry
      a hole. */
  lemma HoledSlotDecodes(s: seq<byte>)
    requires |s| == INODE_SIZE
    ensures DecodeInode(HoledSlot(s)) == WithHoleData(DecodeInode(s))
  {
    InodeRoundTrip(WithHoleData(DecodeInode(s)));
  }

  /** f maps every 64-byte slot to a 64-byte slot. */
  ghost predicate SlotMap(f: seq<byte> --> seq<byte>)
  {
    forall s: seq<byte> | |s| == INODE_SIZE :: f.requires(s) && |f(s)| == INODE_SIZE
  }

  /** A table block with f applied to each of its eight slots: byte t is
      byte t % 64 of slot t / 64 after f. */
  function Slotwise(buf: Block, f: seq<byte> --> seq<byte>): Block
    requires SlotMap(f)
  {
    seq(BYTES_PER_BLOCK, t requires 0 <= t < BYTES_PER_BLOCK =>
      f(SlotOf(buf, t / INODE_SIZE))[t % INODE_SIZE])
  }

  /** Slot k of Slotwise(buf, f) is f applied to slot k of buf. */
  lemma SlotwiseSlot(buf: Block, f: seq<byte> --> seq<byte>, k: int)
    requires SlotMap(f) && 0 <= k < NODES_PER_BLOCK
    ensures SlotOf(Slotwise(buf, f), k) == f(SlotOf(buf, k))
  {
    var a := SlotOf(Slotwise(buf, f), k);
    forall t | 0 <= t < INODE_SIZE ensures a[t] == f(SlotOf(buf, k))[t] {
      assert (INODE_SIZE * k + t) / INODE_SIZE == k;
    }
  }

  lemma HoledSlotIsSlotMap()
    ensures SlotMap(HoledSlot)
  {
  }

  /** A table block after the hole pass. */
  function HoleSlots(buf: Block): Block
  {
    HoledSlotIsSlotMap();
    Slotwise(buf, HoledSlot)
  }

  /** Slot k of a hole-passed block is slot k of the original, hole-passed. */
  lemma HoleSlotsSlot(buf: Block, k: int)
    requires 0 <= k < NODES_PER_BLOCK
    ensures SlotOf(HoleSlots(buf), k) == HoledSlot(SlotOf(buf, k))
  {
    HoledSlotIsSlotMap();
    SlotwiseSlot(buf, HoledSlot, k);
  }

  /** Two table blocks with the same eight slots are the same block. */
  lemma SlotsDetermineBlock(a: Block, b: Block)
    requires forall k | 0 <= k < NODES_PER_BLOCK :: SlotOf(a, k) == SlotOf(b, k)
    ensures a == b
  {
    forall t | 0 <= t < BYTES_PER_BLOCK ensures a[t] == b[t] {
      var k := t / INODE_SIZE;
      assert SlotOf(a, k)[t % INODE_SIZE] == SlotOf(b, k)[t % INODE_SIZE];
    }
  }

  /** Every record of a table block after the hole pass decodes to the
      record it held, its block map all holes. */
  lemma HoleSlotsDecode(buf: Block, k: int)
    requires 0 <= k < NODES_PER_BLOCK
    ensures DecodeInode(SlotOf(HoleSlots(buf), k)) == WithHoleData(DecodeInode(SlotOf(buf, k)))
  {
    HoleSlotsSlot(buf, k);
    HoledSlotDecodes(SlotOf(buf, k));
  }

  /** The innermost loop of the hole pass: each of the ten i_data entries
      of one record becomes HOLE as __le32. */
  method SetRecordHoles(inode: InodeRecord) returns (h: InodeRecord)
    requires inode.Valid()
    ensures h == WithHoleData(inode)
  {
    h := inode;
    var k := 0;
    while k < NUM_DATA_ENTRY
      invariant 0 <= k <= NUM_DATA_ENTRY
      invariant h == inode.(data := HoleData()[..k] + inode.data[k..])
    {
      h := h.(data := h.data[k := Trunc(HOLE, 4)]);
      k := k + 1;
    }
  }

  /** One record of the hole pass, seen through the struct pointer into
      the block buffer: its entries become HOLE, its other bytes stay. */
  method SetSlotHoles(slot: seq<byte>) returns (r: seq<byte>)
    requires |slot| == INODE_SIZE
    ensures r == HoledSlot(slot)
  {
    var inode := DecodeInode(slot);
    inode := SetRecordHoles(inode);
    r := EncodeInode(inode);
  }

  /** The two inner loops of the hole pass over one table block: the
      entries of each of its eight records become HOLE. */
  method SetHoles(buf: Block) returns (r: Block)
    ensures r == HoleSlots(buf)
  {
    r := buf;
    var j := 0;
    while j < NODES_PER_BLOCK
      invariant 0 <= j <= NODES_PER_BLOCK
      invariant forall k | 0 <= k < NODES_PER_BLOCK ::
        SlotOf(r, k) == if k < j then HoledSlot(SlotOf(buf, k)) else SlotOf(buf, k)
    {
      var slot := SetSlotHoles(SlotOf(r, j));
      r := WithSlot(r, j, slot);
      j := j + 1;
    }
    forall k | 0 <= k < NODES_PER_BLOCK ensures SlotOf(r, k) == SlotOf(HoleSlots(buf), k) {
      HoleSlotsSlot(buf, k);
    }
    SlotsDetermineBlock(r, HoleSlots(buf));
  }


  /** blocks with [start, end) zeroed where the device has them. */
  function Zeroed(blocks: seq<Block>, start: int, end: int): (r: seq<Block>)
    ensures |r| == |blocks|
  {
    var z: Block := ZeroBlock();
    seq(|blocks|, b requires 0 <= b < |blocks| => if start <= b < end then z else blocks[b])
  }

  /** blocks with every table block in [from, to) passed through the hole
      pass where the device has them. */
  function Holed(blocks: seq<Block>, from: int, to: int): (r: seq<Block>)
    ensures |r| == |blocks|
  {
    seq(|blocks|, b requires 0 <= b < |blocks| =>
      if from <= b < to then HoleSlots(blocks[b]) else blocks[b])
  }

  /** The first loop of numbfs_mkfs: writes a zero block to each of
      [start, end); the first write past the device fails with -EIO. */
  method ZeroBlocks(dev: Device, start: int, end: int) returns (err: int)
    requires 0 <= start
    modifies dev
    ensures dev.blocks == Zeroed(old(dev.blocks), start, end)
    ensures err == if end <= start || end <= |old(dev.blocks)| then 0 else -EIO
  {
    ghost var blocks := dev.blocks;
    var i := start;
    assert Zeroed(blocks, start, i) == blocks;
    while i < end
      invariant i == start || start < i <= end
      invariant i == start || i <= |blocks|
      invariant dev.blocks == Zeroed(blocks, start, i)
    {
      err := dev.WriteBlock(ZeroBlock(), i);
      if err != 0 {
        assert Zeroed(blocks, start, i) == Zeroed(blocks, start, end);
        return -EIO;
      }
      i := i + 1;
    }
    assert Zeroed(blocks, start, i) == Zeroed(blocks, start, end);
    return 0;
  }

  /** The second loop of numbfs_mkfs: reads each table block of
      [from, to), sets the entries of its eight records to HOLE and
      writes it back; a read past the device fails with -EIO. */
  method FillHoles(dev: Device, from: int, to: int) returns (err: int)
    requires 0 <= from
    modifies dev
    ensures dev.blocks == Holed(old(dev.blocks), from, to)
    ensures err == if to <= from || to <= |old(dev.blocks)| then 0 else -EIO
  {
    ghost var blocks := dev.blocks;
    var i := from;
    assert Holed(blocks, from, i) == blocks;
    while i < to
      invariant i == from || from < i <= to
      invariant i == from || i <= |blocks|
      invariant dev.blocks == Holed(blocks, from, i)
    {
      var buf;
      err, buf := dev.ReadBlock(i);
      if err != 0 {
        assert Holed(blocks, from, i) == Holed(blocks, from, to);
        return;
      }
      buf := SetHoles(buf);
      err := dev.WriteBlock(buf, i);
      if err != 0 {
        return;
      }
      i := i + 1;
    }
    assert Holed(blocks, from, i) == Holed(blocks, from, to);
    return 0;
  }

  /** The image before the root directory is made: [2, data_start)
      zeroed, then the table blocks passed through the hole pass. */
  function FormattedImage(blocks: seq<Block>, st: SbState): (r: seq<Block>)
    ensures |r| == |blocks|
  {
    Holed(Zeroed(blocks, 2, st.dataStart), st.inodeStart, st.bbitmapStart)
  }

  /** A table block of the fresh image. */
  function HoleBlock(): Block
  {
    HoleSlots(ZeroBlock())
  }

  /** The record all-zero bytes decode to. */
  function ZeroInode(): (r: InodeRecord)
    ensures r.Valid()
  {
    DecodeInode(ZeroBlock()[..INODE_SIZE])
  }

  /** The record every slot of a fresh inode table holds: the zero record
      with every block map entry HOLE. */
  function FreshRecord(): (r: InodeRecord)
    ensures r.Valid()
    ensures forall i | 0 <= i < NUM_DATA_ENTRY :: Load(r).data[i] == HOLE
  {
    LoadHoleData(ZeroInode());
    WithHoleData(ZeroInode())
  }

  /** Every slot of the inode table of a fresh image, not only the first
      total_inodes, holds the fresh record. */
  lemma FreshInodes(blocks: seq<Block>, st: SbState, nid: int)
    requires 2 <= st.inodeStart <= st.bbitmapStart <= st.dataStart <= |blocks|
    requires 0 <= nid && InodeBlk(st.inodeStart, nid) < st.bbitmapStart
    ensures InodeRecordAt(FormattedImage(blocks, st), st.inodeStart, nid) == Some(FreshRecord())
  {
    var b := InodeBlk(st.inodeStart, nid);
    FormattedBlock(blocks, st, b);
    assert FormattedImage(blocks, st)[b] == HoleBlock();
    HoleBlockSlot(InodeSlot(nid));
  }

  /** So each of them passes the BUG_ON of empty_dir: all entries HOLE. */
  lemma FreshInodesHoles(blocks: seq<Block>, st: SbState, nid: int)
    requires 2 <= st.inodeStart <= st.bbitmapStart <= st.dataStart <= |blocks|
    requires 0 <= nid && InodeBlk(st.inodeStart, nid) < st.bbitmapStart
    ensures AllHoles(FormattedImage(blocks, st), st.inodeStart, nid)
  {
    FreshInodes(blocks, st, nid);
  }

  /** Every slot of a fresh table block decodes to the zero record with
      all entries HOLE. */
  lemma HoleBlockSlot(k: int)
    requires 0 <= k < NODES_PER_BLOCK
    ensures DecodeInode(SlotOf(HoleBlock(), k)) == FreshRecord()
  {
    HoleSlotsDecode(ZeroBlock(), k);
    assert SlotOf(ZeroBlock(), k) == ZeroBlock()[..INODE_SIZE];
  }

  /** Block b of the fresh image: a hole-pass table block inside the
      table, a zero block elsewhere in [2, data_start), untouched outside. */
  lemma FormattedBlock(blocks: seq<Block>, st: SbState, b: int)
    requires 2 <= st.inodeStart <= st.bbitmapStart <= st.dataStart && 0 <= b < |blocks|
    ensures FormattedImage(blocks, st)[b]
            == if !(2 <= b < st.dataStart) then blocks[b]
               else if st.inodeStart <= b < st.bbitmapStart then HoleBlock()
               else ZeroBlock()
  {
  }

  /** Both bitmaps of a fresh image are clear over the inode bitmap's
      capacity: no inode is marked in use, nor any data block below that
      bound. FreshBlockBitmapClear covers the whole block bitmap. */
  lemma FreshBitmapsClear(blocks: seq<Block>, st: SbState, i: int)
    requires 2 == st.ibitmapStart < st.inodeStart <= st.bbitmapStart < st.dataStart <= |blocks|
    requires 0 <= i < (st.inodeStart - st.ibitmapStart) * BLOCKS_PER_BLOCK
    ensures 0 <= BmapBlk(st.ibitmapStart, i) < |blocks|
    ensures !BitmapBit(FormattedImage(blocks, st), st.ibitmapStart, i)
    ensures i < (st.dataStart - st.bbitmapStart) * BLOCKS_PER_BLOCK ==>
              0 <= BmapBlk(st.bbitmapStart, i) < |blocks| && !BitmapBit(FormattedImage(blocks, st), st.bbitmapStart, i)
  {
    var f := FormattedImage(blocks, st);
    BmapRanges(st.ibitmapStart, i);
    var q := CDiv(i, BLOCKS_PER_BLOCK);
    assert q * BLOCKS_PER_BLOCK <= i;
    assert q < st.inodeStart - 2;
    FormattedBlock(blocks, st, BmapBlk(st.ibitmapStart, i));
    ZeroByteClear(f[BmapBlk(st.ibitmapStart, i)][BmapByte(i)], BmapBit(i));
    if i < (st.dataStart - st.bbitmapStart) * BLOCKS_PER_BLOCK {
      assert q < st.dataStart - st.bbitmapStart;
      FormattedBlock(blocks, st, BmapBlk(st.bbitmapStart, i));
      ZeroByteClear(f[BmapBlk(st.bbitmapStart, i)][BmapByte(i)], BmapBit(i));
    }
  }

  /** Every item of the block bitmap of a fresh image is clear: no data
      block is marked in use. */
  lemma FreshBlockBitmapClear(blocks: seq<Block>, st: SbState, i: int)
    requires 2 == st.ibitmapStart < st.inodeStart <= st.bbitmapStart < st.dataStart <= |blocks|
    requires 0 <= i < (st.dataStart - st.bbitmapStart) * BLOCKS_PER_BLOCK
    ensures 0 <= BmapBlk(st.bbitmapStart, i) < |blocks|
    ensures !BitmapBit(FormattedImage(blocks, st), st.bbitmapStart, i)
  {
    var f := FormattedImage(blocks, st);
    BmapRanges(st.bbitmapStart, i);
    var q := CDiv(i, BLOCKS_PER_BLOCK);
    assert q * BLOCKS_PER_BLOCK <= i;
    assert q < st.dataStart - st.bbitmapStart;
    FormattedBlock(blocks, st, BmapBlk(st.bbitmapStart, i));
    ZeroByteClear(f[BmapBlk(st.bbitmapStart, i)][BmapByte(i)], BmapBit(i));
  }

  lemma ZeroByteClear(b: byte, k: nat)
    requires b == 0 && k < 8
    ensures !IsSet(b, k)
  {
  }

  /** Under the corrected test the root directory's block is the first
      block of the data zone: bit 0 of the fresh block bitmap is clear, so
      the allocator takes it and sets only that bit; it is not the inode
      table block of the root inode. */
  lemma RootBlockInDataZone(blocks: seq<Block>, st: SbState, size: int)
    requires st.totalInodes > 0 && Admitted(st.totalInodes, size) && size <= |blocks| * BYTES_PER_BLOCK
    ensures var l := LayoutOf(st, size);
            var f := FormattedImage(blocks, l);
            && AllocSpec(f, l) == AllocOutcome(l.dataStart, SetBitmapBit(f, l.bbitmapStart, 0))
            && l.dataStart != InodeBlk(l.inodeStart, ROOT_NID)
  {
    var l := LayoutOf(st, size);
    AdmittedLayoutFits(st, size, |blocks|);
    assert 2 == l.ibitmapStart < l.inodeStart < l.bbitmapStart < l.dataStart <= |blocks|;
    assert 0 < l.freeBlocks;
    var f := FormattedImage(blocks, l);
    FreshBitmapsClear(blocks, l, 0);
    assert !BitmapBit(f, l.bbitmapStart, 0);
    assert FirstClear(f, l.bbitmapStart, l.freeBlocks, 0) == Found(0);
  }

  /** Under the corrected test, empty_dir(0, 0) on the fresh image
      succeeds: inode 0 is a fresh record in the table, the allocator hands
      out data_start, and both dumps find the root's table block. */
  lemma RootDirSucceeds(blocks: seq<Block>, st: SbState, size: int)
    requires st.totalInodes > 0 && Admitted(st.totalInodes, size) && size <= |blocks| * BYTES_PER_BLOCK
    ensures var l := LayoutOf(st, size);
            var o := EmptyDirSpec(FormattedImage(blocks, l), l, ROOT_NID, ROOT_NID);
            o.err == 0 && |o.blocks| == |blocks|
  {
    var l := LayoutOf(st, size);
    AdmittedLayoutFits(st, size, |blocks|);
    var f := FormattedImage(blocks, l);
    FreshInodes(blocks, l, ROOT_NID);
    RootPwrite(blocks, st, size);
    var w := PwriteSpec(f, l, ROOT_NID, Load(FreshRecord()), DirBlock(ROOT_NID, ROOT_NID), 0);
    assert EmptyDirSpec(f, l, ROOT_NID, ROOT_NID) == DumpSpec(w.blocks, l.inodeStart, ROOT_NID, DirFields(w.fields));
    DumpThenLoad(w.blocks, l.inodeStart, ROOT_NID, DirFields(w.fields));
  }

  /** A fresh inode records no extended attributes: i_xattr_start and
      i_xattr_count are zero, as the zeroing pass left them. */
  lemma FreshRecordNoXattrs()
    ensures Load(FreshRecord()).xattrStart == 0 && Load(FreshRecord()).xattrCount == 0
  {
    RecordSizes();
    InodeLayoutFields();
    var z := ZeroBlock()[..INODE_SIZE];
    DecodeZeros(INODE_LAYOUT, z, 6);
    DecodeZeros(INODE_LAYOUT, z, 7);
    LoadHoleData(ZeroInode());
  }

  /** The pwrite inside empty_dir of the root on the fresh image: block 0
      goes to data_start, and the dumped record keeps no extended
      attributes. */
  lemma RootPwrite(blocks: seq<Block>, st: SbState, size: int)
    requires st.totalInodes > 0 && Admitted(st.totalInodes, size) && size <= |blocks| * BYTES_PER_BLOCK
    ensures var l := LayoutOf(st, size);
            var w := PwriteSpec(FormattedImage(blocks, l), l, ROOT_NID, Load(FreshRecord()),
                                DirBlock(ROOT_NID, ROOT_NID), 0);
            && w.err == 0 && |w.fields.data| == NUM_DATA_ENTRY && w.fields.data[0] == l.dataStart
            && 0 <= InodeBlk(l.inodeStart, ROOT_NID) < |w.blocks|
            && var r1 := InodeRecordAt(w.blocks, l.inodeStart, ROOT_NID).value;
            && Load(r1).xattrStart == 0 && Load(r1).xattrCount == 0
  {
    var l := LayoutOf(st, size);
    AdmittedLayoutFits(st, size, |blocks|);
    assert 2 <= l.inodeStart < l.bbitmapStart < l.dataStart <= |blocks|;
    var f := FormattedImage(blocks, l);
    FreshInodes(blocks, l, ROOT_NID);
    RootBlockInDataZone(blocks, st, size);
    FreshRecordNoXattrs();
    BlockIndex(0);
    var fr := Load(FreshRecord());
    var f1 := fr.(size := Max(fr.size, BYTES_PER_BLOCK));
    var b := BlkaddrSpec(f, l, f1.data, 0, true, false);
    assert b.ret == l.dataStart;
    var g1 := f1.(data := b.data);
    assert g1.data[0] == l.dataStart;
    var img := b.blocks[b.ret := DirBlock(ROOT_NID, ROOT_NID)];
    DumpThenLoad(img, l.inodeStart, ROOT_NID, g1);
    var w := PwriteSpec(f, l, ROOT_NID, fr, DirBlock(ROOT_NID, ROOT_NID), 0);
    assert w.fields == g1 && w.err == 0;
  }

  /** The directory fields empty_dir dumps for the root fit their on-disk
      widths, so loading them back gives them unchanged. */
  lemma RootFieldsStorable(blocks: seq<Block>, st: SbState, size: int)
    requires st.totalInodes > 0 && Admitted(st.totalInodes, size) && size <= |blocks| * BYTES_PER_BLOCK
    requires |blocks| <= 0x8000_0000
    ensures var l := LayoutOf(st, size);
            var w := PwriteSpec(FormattedImage(blocks, l), l, ROOT_NID, Load(FreshRecord()),
                                DirBlock(ROOT_NID, ROOT_NID), 0);
            Storable(DirFields(w.fields))
  {
    var l := LayoutOf(st, size);
    AdmittedLayoutFits(st, size, |blocks|);
    assert Int32(l.dataStart) && l.dataStart + l.freeBlocks <= 0x8000_0000;
    var f := FormattedImage(blocks, l);
    FreshInodes(blocks, l, ROOT_NID);
    FreshInodesHoles(blocks, l, ROOT_NID);
    RootPwrite(blocks, st, size);
    var fr := Load(FreshRecord());
    WriteFirstBlock(f, l, ROOT_NID, fr, DirBlock(ROOT_NID, ROOT_NID));
    var w := PwriteSpec(f, l, ROOT_NID, fr, DirBlock(ROOT_NID, ROOT_NID), 0);
    assert forall i | 0 <= i < |w.fields.data| :: Int32(w.fields.data[i]) by {
      forall i | 0 <= i < |w.fields.data| ensures Int32(w.fields.data[i]) {
        if i > 0 { assert w.fields.data[i] == HOLE; }
      }
    }
  }

  /** The root inode empty_dir leaves on the fresh image: block 0 mapped
      to data_start, and still no extended attributes. */
  lemma RootRecord(blocks: seq<Block>, st: SbState, size: int)
    requires st.totalInodes > 0 && Admitted(st.totalInodes, size) && size <= |blocks| * BYTES_PER_BLOCK
    requires |blocks| <= 0x8000_0000
    ensures var l := LayoutOf(st, size);
            var o := EmptyDirSpec(FormattedImage(blocks, l), l, ROOT_NID, ROOT_NID);
            && InodeRecordAt(o.blocks, l.inodeStart, ROOT_NID).Some?
            && var h := Load(InodeRecordAt(o.blocks, l.inodeStart, ROOT_NID).value);
            && h.data[0] == l.dataStart && h.xattrStart == 0 && h.xattrCount == 0
  {
    var l := LayoutOf(st, size);
    AdmittedLayoutFits(st, size, |blocks|);
    var f := FormattedImage(blocks, l);
    FreshInodes(blocks, l, ROOT_NID);
    RootPwrite(blocks, st, size);
    RootFieldsStorable(blocks, st, size);
    var w := PwriteSpec(f, l, ROOT_NID, Load(FreshRecord()), DirBlock(ROOT_NID, ROOT_NID), 0);
    assert EmptyDirSpec(f, l, ROOT_NID, ROOT_NID) == DumpSpec(w.blocks, l.inodeStart, ROOT_NID, DirFields(w.fields));
    DumpThenLoad(w.blocks, l.inodeStart, ROOT_NID, DirFields(w.fields));
  }

  /** fsck's view of a freshly made image of fewer than 2^31 blocks:
      inode 0 shows as a directory with two links, size 128, no extended
      attributes, and the entries ".." and "." both naming inode 0. */
  lemma FreshRootListed(blocks: seq<Block>, st: SbState, size: int)
    requires st.totalInodes > 0 && Admitted(st.totalInodes, size) && size <= |blocks| * BYTES_PER_BLOCK
    requires |blocks| <= 0x8000_0000
    ensures var l := LayoutOf(st, size);
            var o := EmptyDirSpec(FormattedImage(blocks, l), l, ROOT_NID, ROOT_NID);
            var s := ShowInodeSpec(o.blocks, l.dataStart, l.inodeStart, ROOT_NID);
            && s.err == 0 && s.report.Some?
            && s.report.value.kind == Directory && s.report.value.nlink == 2
            && s.report.value.size == 2 * DIRENT_SIZE && s.report.value.xattrs == NoXattrs
            && s.report.value.entries == [DirLine(0, "REGULAR", 0, DotDotName()),
                                          DirLine(0, "REGULAR", 0, DotName())]
  {
    var l := LayoutOf(st, size);
    AdmittedLayoutFits(st, size, |blocks|);
    assert 2 <= l.inodeStart < l.bbitmapStart < l.dataStart <= |blocks|;
    assert Int32(l.dataStart) && l.dataStart + l.freeBlocks <= 0x8000_0000;
    var f := FormattedImage(blocks, l);
    RootDirSucceeds(blocks, st, size);
    FreshInodesHoles(blocks, l, ROOT_NID);
    RootRecord(blocks, st, size);
    ShowEmptyDir(f, l, ROOT_NID, ROOT_NID);
  }

  // =====================================================================
  // numbfs_mkfs
  // =====================================================================

  /** The size checks of numbfs_mkfs: with no size option the image is
      the whole device, a device smaller than the requested size is
      refused, and so is an image the layout cannot hold. */
  method DecideSize(sbi: SuperblockInfo) returns (ok: bool)
    modifies sbi
    ensures var size := ImageSize(old(sbi.size), |sbi.dev.blocks|);
            && sbi.size == (if size.Some? then size.value else old(sbi.size))
            && (ok <==> size.Some? && Admitted(sbi.totalInodes, size.value))
    ensures sbi.State() == old(sbi.State())
  {
    var devSize := |sbi.dev.blocks| * BYTES_PER_BLOCK;
    if sbi.size == -1 {
      sbi.size := devSize;
    } else if devSize < sbi.size {
      return false;
    }
    ok := Admitted(sbi.totalInodes, sbi.size);
  }

  /** The region computation of numbfs_mkfs: every field of the layout
      except data_start, which is set once the table is prepared; the
      returned end is the data zone's first block. */
  method LayOut(sbi: SuperblockInfo) returns (end: int)
    requires sbi.totalInodes > 0 && Admitted(sbi.totalInodes, sbi.size)
    modifies sbi
    ensures var st := LayoutOf(old(sbi.State()), sbi.size);
            sbi.State() == st.(dataStart := old(sbi.dataStart)) && end == st.dataStart
    ensures sbi.size == old(sbi.size)
  {
    var totalBlocks := CDiv(sbi.size, BYTES_PER_BLOCK);
    sbi.ibitmapStart := 2;
    sbi.inodeStart := sbi.ibitmapStart + BitmapBlocks(sbi.totalInodes);
    sbi.bbitmapStart := sbi.inodeStart + DivRoundUp(sbi.totalInodes * INODE_SIZE, BYTES_PER_BLOCK);
    var remain := totalBlocks - sbi.bbitmapStart - 1;
    sbi.dataBlocks := remain - BitmapBlocks(remain);
    sbi.freeBlocks := sbi.dataBlocks;
    end := sbi.bbitmapStart + BitmapBlocks(sbi.dataBlocks);
  }

  /** The two loops of numbfs_mkfs and the assignment of data_start: on a
      layout that fits the device, no write fails and the device holds
      the fresh image. */
  method Format(sbi: SuperblockInfo, end: int) returns (err: int)
    requires 2 <= sbi.inodeStart <= sbi.bbitmapStart <= end <= |sbi.dev.blocks|
    modifies sbi, sbi.dev
    ensures err == 0 && sbi.State() == old(sbi.State()).(dataStart := end)
    ensures sbi.dev.blocks == FormattedImage(old(sbi.dev.blocks), sbi.State())
    ensures sbi.size == old(sbi.size)
  {
    err := ZeroBlocks(sbi.dev, 2, end);
    if err != 0 {
      return;
    }
    err := FillHoles(sbi.dev, sbi.inodeStart, sbi.bbitmapStart);
    sbi.dataStart := end;
  }

  /** The end of numbfs_mkfs: inode 0 becomes the root directory and, when
      that succeeds, the superblock with feature 0 is written to block 1. */
  method RootAndSuper(sbi: SuperblockInfo) returns (err: int)
    requires AllHoles(sbi.dev.blocks, sbi.inodeStart, ROOT_NID)
    modifies sbi, sbi.dev
    ensures var o := EmptyDirSpec(old(sbi.dev.blocks), old(sbi.State()), ROOT_NID, ROOT_NID);
            var w := WriteSpec(o.blocks, SuperBlockImage(old(sbi.State()).(feature := 0)), SUPER_OFFSET / BYTES_PER_BLOCK);
            && (o.err != 0 ==> err == o.err && sbi.dev.blocks == o.blocks)
            && (o.err == 0 ==> err == w.err && sbi.dev.blocks == w.blocks)
    ensures sbi.State() == old(sbi.State()) && sbi.size == old(sbi.size)
    ensures err == 0 && Int32State(sbi.State()) ==>
              ReadSuperblock(sbi.dev.blocks) == SbOk(sbi.State().(feature := 0))
  {
    err := sbi.EmptyDir(ROOT_NID, ROOT_NID);
    if err != 0 {
      return;
    }
    var image := SuperBlockImage(sbi.State().(feature := 0));
    err := sbi.dev.WriteBlock(image, SUPER_OFFSET / BYTES_PER_BLOCK);
    if err == 0 && Int32State(sbi.State()) {
      SuperblockRoundTrip(sbi.dev.blocks, sbi.State().(feature := 0));
    }
  }

  /** numbfs_mkfs over sbi, whose total_inodes, free_inodes and size
      option parsing has set (a positive inode count).  It settles the
      image size, refuses an image too small, lays out the regions, zeroes
      [2, data_start), sets every i_data entry of the table to HOLE, makes
      inode 0 the root directory and finally writes the superblock with
      feature 0 to block 1. */
  method Mkfs(sbi: SuperblockInfo) returns (err: int)
    requires sbi.totalInodes > 0
    modifies sbi, sbi.dev
    ensures var size := ImageSize(old(sbi.size), |old(sbi.dev.blocks)|);
            sbi.size == if size.Some? then size.value else old(sbi.size)
    ensures var size := ImageSize(old(sbi.size), |old(sbi.dev.blocks)|);
            size.None? || !Admitted(old(sbi.totalInodes), size.value) ==>
              err == -EINVAL && sbi.State() == old(sbi.State()) && sbi.dev.blocks == old(sbi.dev.blocks)
    ensures var size := ImageSize(old(sbi.size), |old(sbi.dev.blocks)|);
            size.Some? && Admitted(old(sbi.totalInodes), size.value) ==>
              var st := LayoutOf(old(sbi.State()), size.value);
              var o := EmptyDirSpec(FormattedImage(old(sbi.dev.blocks), st), st, ROOT_NID, ROOT_NID);
              var w := WriteSpec(o.blocks, SuperBlockImage(st.(feature := 0)), SUPER_OFFSET / BYTES_PER_BLOCK);
              && sbi.State() == st
              && (o.err != 0 ==> err == o.err && sbi.dev.blocks == o.blocks)
              && (o.err == 0 ==> err == w.err && sbi.dev.blocks == w.blocks)
    ensures var size := ImageSize(old(sbi.size), |old(sbi.dev.blocks)|);
            size.Some? && Admitted(old(sbi.totalInodes), size.value) ==> err == 0
    ensures err == 0 && Int32State(sbi.State()) ==>
              ReadSuperblock(sbi.dev.blocks) == SbOk(sbi.State().(feature := 0))
  {
    var ok := DecideSize(sbi);
    if !ok {
      return -EINVAL;
    }
    ghost var blocks := sbi.dev.blocks;
    ghost var st := LayoutOf(sbi.State(), sbi.size);
    AdmittedLayoutFits(sbi.State(), sbi.size, |blocks|);
    RootDirSucceeds(blocks, sbi.State(), sbi.size);
    assert 2 <= st.inodeStart < st.bbitmapStart < st.dataStart <= |blocks|;
    var end := LayOut(sbi);
    err := Format(sbi, end);
    assert sbi.State() == st;
    FreshInodesHoles(blocks, st, ROOT_NID);
    err := RootAndSuper(sbi);
  }

  /** Every field of a layout fits the source's int when the inode counts
      do, the table's byte size does, and the image is under 2^40 bytes. */
  lemma LayoutFitsInt32(st: SbState, size: int)
    requires Int32State(st) && st.totalInodes > 0 && st.totalInodes * INODE_SIZE < 0x8000_0000
    requires Admitted(st.totalInodes, size) && size < 0x100_0000_0000
    ensures Int32State(LayoutOf(st, size))
  {
    AdmittedLayoutFits(st, size, CDiv(size, BYTES_PER_BLOCK) + 1);
  }
}
