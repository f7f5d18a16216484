/** The checker (fsck.c): it reads the superblock, counts the set bits of
    the two bitmap regions and compares them with the superblock's
    counters, and shows one inode with its timestamps, extended
    attributes and, for a directory, its entries. What fsck prints is
    modelled as a report value. */
module Fsck {
  import opened Utils
  import opened DiskLayout
  import opened Internal
  import opened Lib

  // =====================================================================
  // Counting set bits
  // =====================================================================

  /** count_bit: adds the low bit of the byte eight times, shifting the
      byte right after each. */
  method CountBit(b: byte) returns (ret: int)
    ensures ret == Popcount(b)
    ensures 0 <= ret <= 8
  {
    var rest := b;
    ret := 0;
    var i := 0;
    while i < 8
      invariant 0 <= i <= 8
      invariant rest == b >> i
      invariant ret == BitsBelow(b, i)
    {
      ShiftStep(b, i);
      ret := ret + (rest & 1) as int;
      rest := rest >> 1;
      i := i + 1;
    }
  }

  /** One round of count_bit: the low bit of b >> i is bit i of b, and
      shifting once more gives b >> (i + 1). */
  lemma ShiftStep(b: byte, i: nat)
    requires i < 8
    ensures ((b >> i) & 1) as int == (if IsSet(b, i) then 1 else 0)
    ensures (b >> i) >> 1 == b >> (i + 1)
  {
    ShiftedBit(b, i);
  }

  /** numbfs_fsck_used: the number of set bits of a whole block, which is
      the number of items the block marks as used. */
  method FsckUsed(buf: Block) returns (ret: int)
    ensures ret == PopcountBytes(buf)
    ensures ret == CountBits(buf, BLOCKS_PER_BLOCK)
  {
    ret := 0;
    var i := 0;
    while i < BYTES_PER_BLOCK
      invariant 0 <= i <= BYTES_PER_BLOCK
      invariant ret == PopcountBytes(buf[..i])
    {
      var c := CountBit(buf[i]);
      assert buf[..i + 1][..i] == buf[..i];
      ret := ret + c;
      i := i + 1;
    }
    assert buf[..BYTES_PER_BLOCK] == buf;
    PopcountBytesCountsBits(buf);
  }

  /** The counting loop of numbfs_fsck over the blocks [from, to): the
      number of set bits, or None when a block of the range is off the
      device (the loop then fails with -EIO). An empty range counts 0. */
  function RegionUse(blocks: seq<Block>, from: int, to: int): Option<nat>
  {
    if to <= from then Some(0)
    else if 0 <= from && to <= |blocks| then Some(RegionPopcount(blocks[from..to]))
    else None
  }

  /** The counting loop itself, reading each block of the range. */
  method CountRegion(dev: Device, from: int, to: int) returns (err: int, cnt: int)
    ensures match RegionUse(dev.blocks, from, to)
            case Some(n) => err == 0 && cnt == n
            case None => err == -EIO
  {
    cnt := 0;
    err := 0;
    var i := from;
    while i < to
      invariant from <= i
      invariant from < i ==> 0 <= from && i <= to && i <= |dev.blocks|
      invariant cnt == (if from < i then RegionPopcount(dev.blocks[from..i]) else 0)
    {
      var e, buf := dev.ReadBlock(i);
      if e != 0 {
        return -EIO, cnt;
      }
      var c := FsckUsed(buf);
      assert dev.blocks[from..i + 1][..i - from] == dev.blocks[from..i];
      cnt := cnt + c;
      i := i + 1;
    }
  }

  /** What the checker counts is what the allocator sees: over m whole
      bitmap blocks, the count is the number of items marked used. */
  lemma RegionUseIsPopulation(blocks: seq<Block>, from: int, to: int)
    requires 0 <= from < to <= |blocks|
    ensures Covered(blocks, from, (to - from) * BLOCKS_PER_BLOCK)
    ensures RegionUse(blocks, from, to) == Some(Population(blocks, from, (to - from) * BLOCKS_PER_BLOCK))
  {
    RegionPopcountIsPopulation(blocks, from, to - from);
  }

  /** Two bitmaps whose item populations differ by d give usage counts
      that differ by d. */
  lemma UsageFollowsPopulation(before: seq<Block>, after: seq<Block>, from: int, to: int, d: int)
    requires 0 <= from < to <= |before| && |after| == |before|
    requires Population(after, from, (to - from) * BLOCKS_PER_BLOCK)
             == Population(before, from, (to - from) * BLOCKS_PER_BLOCK) + d
    ensures RegionUse(before, from, to).Some?
    ensures RegionUse(after, from, to) == Some(RegionUse(before, from, to).value + d)
  {
    RegionUseIsPopulation(before, from, to);
    RegionUseIsPopulation(after, from, to);
  }

  /** A successful allocation raises the block usage fsck reports by
      exactly one. */
  lemma AllocRaisesBlockUsage(blocks: seq<Block>, st: SbState)
    requires 0 <= st.bbitmapStart < st.dataStart <= |blocks|
    requires st.freeBlocks <= (st.dataStart - st.bbitmapStart) * BLOCKS_PER_BLOCK
    requires AllocSpec(blocks, st).ret >= st.dataStart
    ensures RegionUse(blocks, st.bbitmapStart, st.dataStart).Some?
    ensures RegionUse(AllocSpec(blocks, st).blocks, st.bbitmapStart, st.dataStart)
            == Some(RegionUse(blocks, st.bbitmapStart, st.dataStart).value + 1)
  {
    var n := (st.dataStart - st.bbitmapStart) * BLOCKS_PER_BLOCK;
    CoveredWhole(blocks, st.bbitmapStart, st.dataStart - st.bbitmapStart);
    AllocPopulation(blocks, st, n);
    UsageFollowsPopulation(blocks, AllocSpec(blocks, st).blocks, st.bbitmapStart, st.dataStart, 1);
  }

  /** A successful allocation marks one more item of the bitmap used. */
  lemma AllocPopulation(blocks: seq<Block>, st: SbState, n: int)
    requires Covered(blocks, st.bbitmapStart, n) && st.freeBlocks <= n
    requires AllocSpec(blocks, st).ret >= st.dataStart
    ensures Population(AllocSpec(blocks, st).blocks, st.bbitmapStart, n)
            == Population(blocks, st.bbitmapStart, n) + 1
  {
    FirstClearFacts(blocks, st.bbitmapStart, st.freeBlocks, 0);
    PopulationSetBit(blocks, st.bbitmapStart, n, FirstClear(blocks, st.bbitmapStart, st.freeBlocks, 0).index);
  }

  /** Freeing a used data block lowers the block usage by exactly one. */
  lemma FreeLowersBlockUsage(blocks: seq<Block>, st: SbState, i: nat)
    requires 0 <= st.bbitmapStart < st.dataStart <= |blocks|
    requires i < (st.dataStart - st.bbitmapStart) * BLOCKS_PER_BLOCK
    requires 0 <= BmapBlk(st.bbitmapStart, i) < |blocks| && BitmapBit(blocks, st.bbitmapStart, i)
    ensures RegionUse(blocks, st.bbitmapStart, st.dataStart).Some?
    ensures RegionUse(ClearBitmapBit(blocks, st.bbitmapStart, i), st.bbitmapStart, st.dataStart)
            == Some(RegionUse(blocks, st.bbitmapStart, st.dataStart).value - 1)
  {
    var n := (st.dataStart - st.bbitmapStart) * BLOCKS_PER_BLOCK;
    CoveredWhole(blocks, st.bbitmapStart, st.dataStart - st.bbitmapStart);
    PopulationClearBit(blocks, st.bbitmapStart, n, i);
    UsageFollowsPopulation(blocks, ClearBitmapBit(blocks, st.bbitmapStart, i), st.bbitmapStart, st.dataStart, -1);
  }

  // =====================================================================
  // Inode and dirent types
  // =====================================================================

  const S_IFMT: int := 0xF000
  const S_IFLNK: int := 0xA000
  const DT_DIR: int := 4
  const DT_LNK: int := 10

  datatype Kind = Directory | Symlink | Regular

  /** mode & S_IFMT for a 16-bit mode. */
  function FormatBits(mode: int): (t: int)
    requires 0 <= mode < 0x1_0000
    ensures 0 <= t <= S_IFMT && t % 0x1000 == 0 && t <= mode < t + 0x1000
  {
    mode / 0x1000 * 0x1000
  }

  /** S_ISDIR / S_ISLNK of show_inode. */
  function KindOf(mode: int): Kind
    requires 0 <= mode < 0x1_0000
  {
    if FormatBits(mode) == S_IFDIR then Directory
    else if FormatBits(mode) == S_IFLNK then Symlink
    else Regular
  }

  /** The type depends only on the format bits: permission bits below
      them never change it, and the mode empty_dir writes is a directory. */
  lemma KindOfFormat(format: int, perm: int)
    requires 0 <= format < 16 && 0 <= perm < 0x1000
    ensures KindOf(format * 0x1000 + perm)
            == if format == 4 then Directory else if format == 10 then Symlink else Regular
    ensures KindOf(S_IFDIR) == Directory
  {
    var mode := format * 0x1000 + perm;
    assert mode / 0x1000 == format;
  }

  /** numbfs_dir_type: the seven-character label of a dirent type. */
  function DirType(t: int): (s: string)
    ensures |s| == 7
    ensures s == "DIR    " <==> t == DT_DIR
    ensures s == "SYMLINK" <==> t == DT_LNK
    ensures s == "REGULAR" <==> t != DT_DIR && t != DT_LNK
  {
    if t == DT_DIR then "DIR    "
    else if t == DT_LNK then "SYMLINK"
    else "REGULAR"
  }

  // =====================================================================
  // Extended attributes
  // =====================================================================

  const SPACE: byte := 32

  /** A name or value as dump_xattrs prints it from a zeroed buffer of
      `width` bytes: the first len bytes of the field, spaces up to the
      last byte, and the NUL the memset left there. With len == width
      (an e_nlen of 16 or an e_vlen of 32) nothing is padded and no NUL
      remains, so the "%s" of dump_xattrs (fsck.c:161) reads past the end
      of the buffer; the model stops at the buffer's end. */
  function Padded(field: seq<byte>, len: nat, width: nat): (out: seq<byte>)
    requires 1 <= width && len <= width && len <= |field|
    ensures |out| == width
    ensures forall k | 0 <= k < len :: out[k] == field[k]
    ensures forall k | len <= k < width - 1 :: out[k] == SPACE
    ensures len < width ==> out[width - 1] == 0
  {
    if len == width then field[..len]
    else field[..len] + seq(width - 1 - len, _ => SPACE) + [0]
  }

  /** The rendering loop of dump_xattrs on a buffer of `width` bytes:
      memset, the space padding loop, then memcpy. */
  method Render(field: seq<byte>, len: nat, width: nat) returns (out: seq<byte>)
    requires 1 <= width && len <= width && len <= |field|
    ensures out == Padded(field, len, width)
  {
    var a := new byte[width](_ => 0);
    var front := width - len - 1;
    var j := 0;
    while j < front
      invariant 0 <= j && (front >= 0 ==> j <= front)
      invariant forall k | 0 <= k < width :: a[k] == (if len <= k < len + j then SPACE else 0)
    {
      a[j + len] := SPACE;
      j := j + 1;
    }
    var k := 0;
    while k < len
      invariant 0 <= k <= len
      invariant forall t | 0 <= t < width ::
                  a[t] == (if t < k then field[t] else if len <= t < width - 1 then SPACE else 0)
    {
      a[k] := field[k];
      k := k + 1;
    }
    out := a[..];
    var p := Padded(field, len, width);
    assert forall t | 0 <= t < width :: out[t] == p[t];
  }

  datatype XattrLine = XattrLine(etype: nat, name: seq<byte>, value: seq<byte>)

  /** What dump_xattrs makes of an inode: nothing when it has no xattrs, an
      error message when the block cannot be read, the lines of the valid
      slots, or an overrun when a slot's name or value length exceeds its
      buffer (the memcpy would write past it). */
  datatype XattrDump = NoXattrs | XattrUnreadable | Xattrs(lines: seq<XattrLine>) | XattrOverrun

  /** Slot i of an xattr block. */
  function SlotEntry(buf: Block, i: nat): (e: XattrEntry)
    requires i < XATTR_MAX_ENTRY
    ensures e.Valid()
  {
    var off := XattrSlotOffset(i);
    DecodeXattr(buf[off..off + XATTR_ENTRY_SIZE])
  }

  function XattrLineOf(e: XattrEntry): XattrLine
    requires e.Valid() && e.nlen <= XATTR_MAXNAME && e.vlen <= XATTR_MAXVALUE
  {
    XattrLine(e.etype, Padded(e.name, e.nlen, XATTR_MAXNAME), Padded(e.value, e.vlen, XATTR_MAXVALUE))
  }

  /** The first n slots of an xattr block, decoded. */
  function SlotTable(buf: Block, n: nat): (es: seq<XattrEntry>)
    requires n <= XATTR_MAX_ENTRY
    ensures |es| == n && forall k | 0 <= k < n :: es[k].Valid()
  {
    if n == 0 then [] else SlotTable(buf, n - 1) + [SlotEntry(buf, n - 1)]
  }

  lemma {:induction false} SlotTableAt(buf: Block, n: nat, k: nat)
    requires k < n <= XATTR_MAX_ENTRY
    ensures SlotTable(buf, n)[k] == SlotEntry(buf, k)
  {
    if k < n - 1 {
      SlotTableAt(buf, n - 1, k);
    }
  }

  predicate AllValid(es: seq<XattrEntry>)
  {
    forall k | 0 <= k < |es| :: es[k].Valid()
  }

  /** The loop of dump_xattrs over the first n entries of the table. */
  function XattrScan(es: seq<XattrEntry>, n: nat): XattrDump
    requires n <= |es| && AllValid(es)
  {
    if n == 0 then Xattrs([])
    else
      var prev := XattrScan(es, n - 1);
      var e := es[n - 1];
      if !prev.Xattrs? || e.valid == 0 then prev
      else if e.nlen > XATTR_MAXNAME || e.vlen > XATTR_MAXVALUE then XattrOverrun
      else Xattrs(prev.lines + [XattrLineOf(e)])
  }

  /** numbfs_dump_xattrs. */
  function XattrDumpSpec(blocks: seq<Block>, dataStart: int, f: InodeFields): XattrDump
  {
    if f.xattrCount == 0 then NoXattrs
    else
      var b := DataBlk(dataStart, f.xattrStart);
      if 0 <= b < |blocks| then XattrScan(SlotTable(blocks[b], XATTR_MAX_ENTRY), XATTR_MAX_ENTRY)
      else XattrUnreadable
  }

  /** The number of entries below n whose valid byte is set. */
  function ValidSlots(es: seq<XattrEntry>, n: nat): nat
    requires n <= |es|
  {
    if n == 0 then 0 else ValidSlots(es, n - 1) + (if es[n - 1].valid != 0 then 1 else 0)
  }

  /** Without an overrun, one line per valid slot, each name 16 bytes and
      each value 32 bytes wide, and each the rendering of its slot. */
  lemma {:induction false} XattrScanLines(es: seq<XattrEntry>, n: nat)
    requires n <= |es| && AllValid(es)
    ensures XattrScan(es, n).Xattrs? || XattrScan(es, n) == XattrOverrun
    ensures XattrScan(es, n).Xattrs? ==>
              && |XattrScan(es, n).lines| == ValidSlots(es, n)
              && forall l | l in XattrScan(es, n).lines ::
                   |l.name| == XATTR_MAXNAME && |l.value| == XATTR_MAXVALUE
  {
    if n > 0 {
      XattrScanLines(es, n - 1);
    }
  }

  /** An overrun happens exactly when some valid slot has a name longer
      than 16 or a value longer than 32 bytes. */
  lemma {:induction false} OverrunIff(es: seq<XattrEntry>, n: nat)
    requires n <= |es| && AllValid(es)
    ensures XattrScan(es, n) == XattrOverrun <==>
              exists k | 0 <= k < n :: es[k].valid != 0 && (es[k].nlen > XATTR_MAXNAME || es[k].vlen > XATTR_MAXVALUE)
  {
    if n > 0 {
      OverrunIff(es, n - 1);
      XattrScanLines(es, n - 1);
    }
  }

  /** Once the scan has overrun, later slots do not matter. */
  lemma {:induction false} OverrunPersists(es: seq<XattrEntry>, i: nat, n: nat)
    requires i <= n <= |es| && AllValid(es) && XattrScan(es, i) == XattrOverrun
    ensures XattrScan(es, n) == XattrOverrun
    decreases n - i
  {
    if i < n {
      OverrunPersists(es, i + 1, n);
    }
  }

  /** The name and value buffers of one valid slot. */
  method RenderEntry(e: XattrEntry) returns (line: XattrLine)
    requires e.Valid() && e.nlen <= XATTR_MAXNAME && e.vlen <= XATTR_MAXVALUE
    ensures line == XattrLineOf(e)
  {
    var name := Render(e.name, e.nlen, XATTR_MAXNAME);
    var value := Render(e.value, e.vlen, XATTR_MAXVALUE);
    line := XattrLine(e.etype, name, value);
  }

  /** The entry under the cursor `xe` of dump_xattrs. */
  method ReadSlot(buf: Block, i: nat) returns (e: XattrEntry)
    requires i < XATTR_MAX_ENTRY
    ensures e == SlotTable(buf, XATTR_MAX_ENTRY)[i]
  {
    SlotTableAt(buf, XATTR_MAX_ENTRY, i);
    e := SlotEntry(buf, i);
  }

  /** The slot loop of dump_xattrs over a block that was read. */
  method ScanSlots(buf: Block) returns (d: XattrDump)
    ensures d == XattrScan(SlotTable(buf, XATTR_MAX_ENTRY), XATTR_MAX_ENTRY)
  {
    ghost var es := SlotTable(buf, XATTR_MAX_ENTRY);
    var lines: seq<XattrLine> := [];
    var i := 0;
    while i < XATTR_MAX_ENTRY
      invariant 0 <= i <= XATTR_MAX_ENTRY
      invariant XattrScan(es, i) == Xattrs(lines)
    {
      var e := ReadSlot(buf, i);
      if e.valid != 0 {
        if e.nlen > XATTR_MAXNAME || e.vlen > XATTR_MAXVALUE {
          OverrunPersists(es, i + 1, XATTR_MAX_ENTRY);
          return XattrOverrun;
        }
        var line := RenderEntry(e);
        lines := lines + [line];
      }
      i := i + 1;
    }
    d := Xattrs(lines);
  }

  /** numbfs_dump_xattrs: nothing without xattrs, a message when the block
      cannot be read, otherwise the slot loop. */
  method DumpXattrs(ni: InodeInfo) returns (d: XattrDump)
    requires ni.Valid()
    ensures d == XattrDumpSpec(ni.sbi.dev.blocks, ni.sbi.dataStart, ni.Fields())
  {
    if ni.xattrCount == 0 {
      return NoXattrs;
    }
    var err, buf := ni.sbi.dev.ReadBlock(DataBlk(ni.sbi.dataStart, ni.xattrStart));
    if err != 0 {
      return XattrUnreadable;
    }
    d := ScanSlots(buf);
  }

  // =====================================================================
  // Directory content
  // =====================================================================

  datatype DirLine = DirLine(ino: nat, kind: string, nameLen: nat, name: seq<byte>)

  /** The 64 bytes of dirent k of a directory block. */
  function DirentAt(buf: Block, k: nat): (d: seq<byte>)
    requires k < BYTES_PER_BLOCK / DIRENT_SIZE
    ensures |d| == DIRENT_SIZE
  {
    buf[k * DIRENT_SIZE..k * DIRENT_SIZE + DIRENT_SIZE]
  }

  /** A dirent as show_inode prints it: inode number, type label, name
      length and name. */
  function DirLineOf(d: seq<byte>): DirLine
    requires |d| == DIRENT_SIZE
  {
    var e := DecodeDirent(d);
    DirLine(e.ino, DirType(e.dtype), e.nameLen, e.name)
  }

  function Lines(ds: seq<seq<byte>>): (ls: seq<DirLine>)
    requires forall k | 0 <= k < |ds| :: |ds[k]| == DIRENT_SIZE
    ensures |ls| == |ds| && forall k | 0 <= k < |ds| :: ls[k] == DirLineOf(ds[k])
  {
    seq(|ds|, k requires 0 <= k < |ds| => DirLineOf(ds[k]))
  }

  /** The dirents a walk has visited, and the error that ended it. */
  datatype WalkOutcome = WalkOutcome(err: int, dirents: seq<seq<byte>>)
  {
    predicate WellFormed()
    {
      forall k | 0 <= k < |dirents| :: |dirents[k]| == DIRENT_SIZE
    }
  }

  /** The directory walk of show_inode over its first n dirents: dirent j
      is entry j % 8 of logical block j / 8; a read error ends the walk. */
  function Walk(blocks: seq<Block>, f: InodeFields, n: nat): (w: WalkOutcome)
    requires |f.data| == NUM_DATA_ENTRY
    ensures w.WellFormed()
  {
    if n == 0 then WalkOutcome(0, [])
    else
      var w := Walk(blocks, f, n - 1);
      if w.err != 0 then w
      else
        var r := PreadSpec(blocks, f, (n - 1) / 8);
        if r.err != 0 then WalkOutcome(r.err, w.dirents)
        else WalkOutcome(0, w.dirents + [DirentAt(r.buf, (n - 1) % 8)])
  }

  /** The number of dirents the walk visits: one per started 64 bytes. */
  function EntryCount(size: int): (n: nat)
    ensures size > 0 ==> (n - 1) * DIRENT_SIZE < size <= n * DIRENT_SIZE
  {
    if size <= 0 then 0 else (size + DIRENT_SIZE - 1) / DIRENT_SIZE
  }

  /** One more dirent: a successful read of its block appends it. */
  lemma WalkStep(blocks: seq<Block>, f: InodeFields, n: nat, ds: seq<seq<byte>>, buf: Block)
    requires |f.data| == NUM_DATA_ENTRY && Walk(blocks, f, n) == WalkOutcome(0, ds)
    requires PreadSpec(blocks, f, n / 8) == ReadOutcome(0, buf)
    ensures Walk(blocks, f, n + 1) == WalkOutcome(0, ds + [DirentAt(buf, n % 8)])
  {
  }

  /** A failed read of the block of dirent n ends the walk with its error. */
  lemma WalkStops(blocks: seq<Block>, f: InodeFields, n: nat, m: nat, ds: seq<seq<byte>>)
    requires |f.data| == NUM_DATA_ENTRY && Walk(blocks, f, n) == WalkOutcome(0, ds) && n < m
    requires PreadSpec(blocks, f, n / 8).err != 0
    ensures Walk(blocks, f, m) == WalkOutcome(PreadSpec(blocks, f, n / 8).err, ds)
  {
    WalkErrorPersists(blocks, f, n + 1, m);
  }

  /** A walk that has failed stays failed, with the same dirents. */
  lemma {:induction false} WalkErrorPersists(blocks: seq<Block>, f: InodeFields, n: nat, m: nat)
    requires |f.data| == NUM_DATA_ENTRY && n <= m && Walk(blocks, f, n).err != 0
    ensures Walk(blocks, f, m) == Walk(blocks, f, n)
    decreases m - n
  {
    if n < m {
      WalkErrorPersists(blocks, f, n + 1, m);
    }
  }

  /** A walk that succeeds lists one dirent per 64 bytes of the size, each
      taken from its place in its logical block. */
  lemma {:induction false} WalkDirents(blocks: seq<Block>, f: InodeFields, n: nat)
    requires |f.data| == NUM_DATA_ENTRY
    ensures Walk(blocks, f, n).err == 0 ==>
              && |Walk(blocks, f, n).dirents| == n
              && forall j | 0 <= j < n ::
                   PreadSpec(blocks, f, j / 8).err == 0
                   && Walk(blocks, f, n).dirents[j] == DirentAt(PreadSpec(blocks, f, j / 8).buf, j % 8)
  {
    if n > 0 && Walk(blocks, f, n).err == 0 {
      var w := Walk(blocks, f, n - 1);
      WalkDirents(blocks, f, n - 1);
      assert w.err == 0;
      var r := PreadSpec(blocks, f, (n - 1) / 8);
      assert r.err == 0;
      var ds := Walk(blocks, f, n).dirents;
      assert ds == w.dirents + [DirentAt(r.buf, (n - 1) % 8)];
      forall j | 0 <= j < n
        ensures PreadSpec(blocks, f, j / 8).err == 0
        ensures ds[j] == DirentAt(PreadSpec(blocks, f, j / 8).buf, j % 8)
      {
        if j < n - 1 {
          assert ds[j] == w.dirents[j];
        }
      }
    }
  }

  /** The block a fresh directory holds lists ".." then "."; as empty_dir
      leaves the dirent type 0, both are shown as REGULAR. */
  lemma WalkEmptyDir(blocks: seq<Block>, f: InodeFields, pnid: int, nid: int)
    requires |f.data| == NUM_DATA_ENTRY && f.size == 2 * DIRENT_SIZE
    requires PreadSpec(blocks, f, 0) == ReadOutcome(0, DirBlock(pnid, nid))
    ensures Walk(blocks, f, EntryCount(f.size)).err == 0
    ensures Lines(Walk(blocks, f, EntryCount(f.size)).dirents)
            == [DirLine(Trunc(pnid, 2), "REGULAR", 0, DotDotName()),
                DirLine(Trunc(nid, 2), "REGULAR", 0, DotName())]
  {
    DirBlockEntries(pnid, nid);
    var b := DirBlock(pnid, nid);
    assert EntryCount(f.size) == 2;
    assert Walk(blocks, f, 1) == WalkOutcome(0, [DirentAt(b, 0)]);
    assert 1 / 8 == 0 && 1 % 8 == 1;
    assert Walk(blocks, f, 2) == WalkOutcome(0, [DirentAt(b, 0), DirentAt(b, 1)]);
    assert DirentAt(b, 0) == b[..DIRENT_SIZE];
  }

  /** Byte n * 64 of the directory is dirent n % 8 of logical block n / 8. */
  lemma EntryPosition(n: nat)
    ensures (n * DIRENT_SIZE) / BYTES_PER_BLOCK == n / 8
    ensures (n * DIRENT_SIZE) % BYTES_PER_BLOCK == (n % 8) * DIRENT_SIZE
    ensures ((n * DIRENT_SIZE) % BYTES_PER_BLOCK) / DIRENT_SIZE == n % 8
    ensures (n + 1) % 8 != 0 ==> (n + 1) / 8 == n / 8
  {
    var q := n / 8;
    var r := n % 8;
    assert n * DIRENT_SIZE == q * BYTES_PER_BLOCK + r * DIRENT_SIZE;
  }

  /** The DIR CONTENT loop of show_inode: the dirent at every multiple of
      64 below the size, reading a new block at every multiple of 512. */
  method ListDir(ni: InodeInfo) returns (err: int, dirents: seq<seq<byte>>)
    requires ni.Valid()
    ensures WalkOutcome(err, dirents) == Walk(ni.sbi.dev.blocks, ni.Fields(), EntryCount(ni.size))
  {
    ghost var blocks := ni.sbi.dev.blocks;
    ghost var f := ni.Fields();
    var buf := ZeroBlock();
    dirents := [];
    err := 0;
    var i := 0;
    ghost var n: nat := 0;
    while i < ni.size
      invariant i == n * DIRENT_SIZE && n <= EntryCount(ni.size)
      invariant Walk(blocks, f, n) == WalkOutcome(0, dirents)
      invariant n % 8 != 0 ==> PreadSpec(blocks, f, n / 8) == ReadOutcome(0, buf)
      decreases ni.size - i
    {
      EntryPosition(n);
      assert n < EntryCount(ni.size);
      if i % BYTES_PER_BLOCK == 0 {
        err, buf := ni.PreadInode(i / BYTES_PER_BLOCK);
        if err != 0 {
          WalkStops(blocks, f, n, EntryCount(ni.size), dirents);
          return;
        }
      }
      WalkStep(blocks, f, n, dirents, buf);
      dirents := dirents + [DirentAt(buf, (i % BYTES_PER_BLOCK) / DIRENT_SIZE)];
      i := i + DIRENT_SIZE;
      n := n + 1;
    }
    assert n == EntryCount(ni.size);
  }

  // =====================================================================
  // show_inode and the checker
  // =====================================================================

  /** What show_inode prints about an inode; times are the raw le64
      seconds. */
  datatype InodeReport = InodeReport(
    nid: int, kind: Kind, nlink: int, uid: int, gid: int,
    atime: nat, mtime: nat, ctime: nat, size: int,
    xattrs: XattrDump, entries: seq<DirLine>)

  /** The error show_inode returns and, once the inode and its timestamp
      block have been read, what it printed. */
  datatype ShowOutcome = ShowOutcome(err: int, report: Option<InodeReport>)

  /** numbfs_fsck_show_inode: load the inode, read the timestamps at the
      head of its xattr block, dump the xattrs and, for a directory, walk
      its entries. */
  function ShowInodeSpec(blocks: seq<Block>, dataStart: int, inodeStart: int, nid: int): (s: ShowOutcome)
    requires nid >= 0
    ensures s.err == 0 ==> s.report.Some? && s.report.value.nid == nid
  {
    match InodeRecordAt(blocks, inodeStart, nid)
    case None => ShowOutcome(-EIO, None)
    case Some(r) =>
      var f := Load(r);
      var tb := DataBlk(dataStart, f.xattrStart);
      if !(0 <= tb < |blocks|) then ShowOutcome(-EIO, None)
      else
        var t := DecodeTimestamps(blocks[tb][..TIMESTAMPS_SIZE]);
        var kind := KindOf(f.mode);
        var w := if kind == Directory then Walk(blocks, f, EntryCount(f.size)) else WalkOutcome(0, []);
        ShowOutcome(w.err, Some(InodeReport(nid, kind, f.nlink, f.uid, f.gid, t.atime, t.mtime, t.ctime,
                                            f.size, XattrDumpSpec(blocks, dataStart, f), Lines(w.dirents))))
  }

  method ShowInode(sbi: SuperblockInfo, nid: int) returns (s: ShowOutcome)
    requires nid >= 0
    ensures s == ShowInodeSpec(sbi.dev.blocks, sbi.dataStart, sbi.inodeStart, nid)
  {
    var ni := new InodeInfo(sbi, nid);
    var err := ni.GetInode();
    if err != 0 {
      return ShowOutcome(err, None);
    }
    var buf;
    err, buf := sbi.dev.ReadBlock(DataBlk(sbi.dataStart, ni.xattrStart));
    if err != 0 {
      return ShowOutcome(err, None);
    }
    var t := DecodeTimestamps(buf[..TIMESTAMPS_SIZE]);
    var kind := KindOf(ni.mode);
    var xattrs := DumpXattrs(ni);
    var dirents: seq<seq<byte>> := [];
    if kind == Directory {
      err, dirents := ListDir(ni);
    }
    var lines := Lines(dirents);
    s := ShowOutcome(err, Some(InodeReport(nid, kind, ni.nlink, ni.uid, ni.gid, t.atime, t.mtime, t.ctime,
                                           ni.size, xattrs, lines)));
  }

  /** A directory made by empty_dir shows as a directory with two links
      and the entries ".." and ".", when its block is not the inode's own
      table block. */
  lemma ShowEmptyDir(blocks: seq<Block>, st: SbState, pnid: int, nid: int)
    requires nid >= 0 && AllHoles(blocks, st.inodeStart, nid)
    requires Int32(st.dataStart) && st.dataStart + st.freeBlocks <= 0x8000_0000
    requires EmptyDirSpec(blocks, st, pnid, nid).err == 0
    requires var o := EmptyDirSpec(blocks, st, pnid, nid);
             Load(InodeRecordAt(o.blocks, st.inodeStart, nid).value).data[0] != InodeBlk(st.inodeStart, nid)
    ensures var o := EmptyDirSpec(blocks, st, pnid, nid);
            var s := ShowInodeSpec(o.blocks, st.dataStart, st.inodeStart, nid);
            s.report.Some? ==>
              && s.err == 0 && s.report.value.kind == Directory && s.report.value.nlink == 2
              && s.report.value.size == 2 * DIRENT_SIZE
              && s.report.value.entries == [DirLine(Trunc(pnid, 2), "REGULAR", 0, DotDotName()),
                                            DirLine(Trunc(nid, 2), "REGULAR", 0, DotName())]
  {
    EmptyDirResult(blocks, st, pnid, nid);
    var o := EmptyDirSpec(blocks, st, pnid, nid);
    var f := Load(InodeRecordAt(o.blocks, st.inodeStart, nid).value);
    KindOfFormat(4, 0);
    WalkEmptyDir(o.blocks, f, pnid, nid);
  }

  /** The superblock counters and usage fsck prints, and the inode shown. */
  datatype FsckReport = FsckReport(sb: SbState, inodesUsed: Option<nat>, blocksUsed: Option<nat>,
                                   inode: Option<InodeReport>)

  /** The end of a run: a report, an error code, or a BUG_ON because a
      bitmap's count disagrees with the superblock counters. */
  datatype FsckOutcome =
    | Completed(report: FsckReport)
    | Failed(err: int)
    | InodeCountMismatch(inodesCounted: nat)
    | BlockCountMismatch(blocksCounted: nat)

  /** The outcome of the two bitmap checks: the counts to report, or the
      end of the run. */
  datatype CountCheck =
    | Passed(inodesUsed: Option<nat>, blocksUsed: Option<nat>)
    | Stopped(outcome: FsckOutcome)

  /** The --inodes and --blocks checks of numbfs_fsck, in that order. */
  function CheckCounts(blocks: seq<Block>, st: SbState, showInodes: bool, showBlocks: bool): CountCheck
  {
    var iu := RegionUse(blocks, st.ibitmapStart, st.inodeStart);
    var bu := RegionUse(blocks, st.bbitmapStart, st.dataStart);
    if showInodes && iu.None? then Stopped(Failed(-EIO))
    else if showInodes && iu.value != st.totalInodes - st.freeInodes then Stopped(InodeCountMismatch(iu.value))
    else if showBlocks && bu.None? then Stopped(Failed(-EIO))
    else if showBlocks && bu.value != st.dataBlocks - st.freeBlocks then Stopped(BlockCountMismatch(bu.value))
    else Passed(if showInodes then iu else None, if showBlocks then bu else None)
  }

  /** numbfs_fsck for the options --inodes, --blocks and --nid. */
  function FsckSpec(blocks: seq<Block>, showInodes: bool, showBlocks: bool, nid: int): (o: FsckOutcome)
    ensures o.Completed? ==>
              && ReadSuperblock(blocks) == SbOk(o.report.sb)
              && CheckCounts(blocks, o.report.sb, showInodes, showBlocks)
                 == Passed(o.report.inodesUsed, o.report.blocksUsed)
    ensures o.Completed? ==> (nid >= 0 <==> o.report.inode.Some?)
    ensures o.Completed? && nid >= 0 ==> o.report.inode.value.nid == nid
  {
    match ReadSuperblock(blocks)
    case SbError(e) => Failed(e)
    case SbOk(st) =>
      match CheckCounts(blocks, st, showInodes, showBlocks)
      case Stopped(o) => o
      case Passed(iu, bu) =>
        var shown := if nid >= 0 then ShowInodeSpec(blocks, st.dataStart, st.inodeStart, nid)
                     else ShowOutcome(0, None);
        if shown.err != 0 then Failed(shown.err)
        else Completed(FsckReport(st, iu, bu, shown.report))
  }

  method Fsck(dev: Device, showInodes: bool, showBlocks: bool, nid: int) returns (o: FsckOutcome)
    ensures o == FsckSpec(dev.blocks, showInodes, showBlocks, nid)
  {
    var sbi := new SuperblockInfo(dev);
    var err := sbi.GetSuperblock();
    if err != 0 {
      return Failed(err);
    }
    var c := CheckBitmaps(sbi, showInodes, showBlocks);
    if c.Stopped? {
      return c.outcome;
    }
    var shown := ShowOutcome(0, None);
    if nid >= 0 {
      shown := ShowInode(sbi, nid);
    }
    if shown.err != 0 {
      return Failed(shown.err);
    }
    o := Completed(FsckReport(sbi.State(), c.inodesUsed, c.blocksUsed, shown.report));
  }

  /** The --inodes and --blocks checks of numbfs_fsck over the device of
      sbi, with the layout its superblock gives. */
  method CheckBitmaps(sbi: SuperblockInfo, showInodes: bool, showBlocks: bool) returns (c: CountCheck)
    ensures c == CheckCounts(sbi.dev.blocks, sbi.State(), showInodes, showBlocks)
  {
    var iu: Option<nat> := None;
    var bu: Option<nat> := None;
    if showInodes {
      var err, cnt := CountRegion(sbi.dev, sbi.ibitmapStart, sbi.inodeStart);
      if err != 0 {
        return Stopped(Failed(err));
      }
      if cnt != sbi.totalInodes - sbi.freeInodes {
        return Stopped(InodeCountMismatch(cnt));
      }
      iu := Some(cnt);
    }
    if showBlocks {
      var err, cnt := CountRegion(sbi.dev, sbi.bbitmapStart, sbi.dataStart);
      if err != 0 {
        return Stopped(Failed(err));
      }
      if cnt != sbi.dataBlocks - sbi.freeBlocks {
        return Stopped(BlockCountMismatch(cnt));
      }
      bu := Some(cnt);
    }
    c := Passed(iu, bu);
  }

  /** The bitmap checks pass only when each count asked for equals the
      superblock's total - free; the block count is then the number of
      blocks the allocator sees as used. */
  lemma PassedMeansConsistent(blocks: seq<Block>, st: SbState, showInodes: bool, showBlocks: bool)
    requires CheckCounts(blocks, st, showInodes, showBlocks).Passed?
    ensures var c := CheckCounts(blocks, st, showInodes, showBlocks);
            && (showInodes <==> c.inodesUsed.Some?)
            && (showBlocks <==> c.blocksUsed.Some?)
            && (showInodes ==> c.inodesUsed.value == st.totalInodes - st.freeInodes)
            && (showBlocks ==> c.blocksUsed.value == st.dataBlocks - st.freeBlocks)
            && (showBlocks && st.bbitmapStart < st.dataStart ==>
                  var m := st.dataStart - st.bbitmapStart;
                  && Covered(blocks, st.bbitmapStart, m * BLOCKS_PER_BLOCK)
                  && c.blocksUsed.value == Population(blocks, st.bbitmapStart, m * BLOCKS_PER_BLOCK))
  {
    if showBlocks && st.bbitmapStart < st.dataStart {
      RegionUseIsPopulation(blocks, st.bbitmapStart, st.dataStart);
    }
  }
}
