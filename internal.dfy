/** Bitmap and table addressing (internal.h), and the bit counting that
    the allocator and the checker share. */
module Internal {
  import opened Utils
  import opened DiskLayout

  /** One bitmap block tracks 512 * 8 items. */
  const BLOCKS_PER_BLOCK: int := BYTES_PER_BLOCK * BITS_PER_BYTE
  /** 512 / sizeof(struct numbfs_inode) inode records per block. */
  const NODES_PER_BLOCK: int := BYTES_PER_BLOCK / INODE_SIZE

  lemma PerBlockConstants()
    ensures BLOCKS_PER_BLOCK == 4096 && NODES_PER_BLOCK == 8
  {
    RecordSizes();
  }

  // ---------------------------------------------------------------------
  // Bitmap addressing: item b lives in bit BmapBit(b) of byte BmapByte(b)
  // of block BmapBlk(start, b).  The source divides signed ints, so the
  // quotients are truncated toward zero.
  // ---------------------------------------------------------------------

  function BmapBlk(startblk: int, blkno: int): int
  {
    startblk + CDiv(blkno, BLOCKS_PER_BLOCK)
  }

  function BmapByte(blkno: int): int
  {
    CDiv(CMod(blkno, BLOCKS_PER_BLOCK), BITS_PER_BYTE)
  }

  function BmapBit(blkno: int): int
  {
    CMod(CMod(blkno, BLOCKS_PER_BLOCK), BITS_PER_BYTE)
  }

  /** For a non-negative index the byte lies inside a block and the bit
      inside a byte, and the block is at or after the bitmap start. */
  lemma BmapRanges(startblk: int, blkno: int)
    requires blkno >= 0
    ensures startblk <= BmapBlk(startblk, blkno)
    ensures 0 <= BmapByte(blkno) < BYTES_PER_BLOCK
    ensures 0 <= BmapBit(blkno) < BITS_PER_BYTE
  {
  }

  /** The (block, byte, bit) triple is an exact decomposition of the index. */
  lemma BmapDecomposition(startblk: int, blkno: int)
    ensures (BmapBlk(startblk, blkno) - startblk) * BLOCKS_PER_BLOCK
            + BmapByte(blkno) * BITS_PER_BYTE + BmapBit(blkno) == blkno
  {
  }

  /** Distinct indices have distinct bitmap positions. */
  lemma BmapInjective(startblk: int, a: int, b: int)
    requires BmapBlk(startblk, a) == BmapBlk(startblk, b)
    requires BmapByte(a) == BmapByte(b) && BmapBit(a) == BmapBit(b)
    ensures a == b
  {
    BmapDecomposition(startblk, a);
    BmapDecomposition(startblk, b);
  }

  /** Consecutive indices stay in one bitmap block until a multiple of 4096. */
  lemma BmapBlkStep(startblk: int, i: int)
    requires i >= 0 && (i + 1) % BLOCKS_PER_BLOCK != 0
    ensures BmapBlk(startblk, i + 1) == BmapBlk(startblk, i)
  {
  }

  // ---------------------------------------------------------------------
  // Inode table and data zone addressing
  // ---------------------------------------------------------------------

  /** numbfs_inode_blk: the table block holding inode nid. */
  function InodeBlk(inodeStart: int, nid: int): int
    requires nid >= 0
  {
    inodeStart + nid / NODES_PER_BLOCK
  }

  /** The slot of inode nid inside its table block. */
  function InodeSlot(nid: int): (k: int)
    requires nid >= 0
    ensures 0 <= k < NODES_PER_BLOCK
  {
    nid % NODES_PER_BLOCK
  }

  /** Block and slot together locate every inode exactly, so two inodes
      never share a slot. */
  lemma InodeLocationExact(inodeStart: int, nid: int)
    requires nid >= 0
    ensures (InodeBlk(inodeStart, nid) - inodeStart) * NODES_PER_BLOCK + InodeSlot(nid) == nid
  {
  }

  /** Every inode below total_inodes lives in the ceil(total/8) blocks of
      the table. */
  lemma InodeBlkRange(inodeStart: int, totalInodes: int, nid: int)
    requires 0 <= nid < totalInodes
    ensures inodeStart <= InodeBlk(inodeStart, nid)
    ensures InodeBlk(inodeStart, nid) < inodeStart + DivRoundUp(totalInodes, NODES_PER_BLOCK)
  {
    var r := DivRoundUp(totalInodes, NODES_PER_BLOCK);
    assert (r - 1) * 8 < totalInodes;
    assert nid / 8 <= (totalInodes - 1) / 8;
  }

  /** numbfs_data_blk: logical data block blk of the data zone. */
  function DataBlk(dataStart: int, blk: int): int
  {
    dataStart + blk
  }

  /** The data-zone translation is strictly increasing, hence injective. */
  lemma DataBlkStrictlyIncreasing(dataStart: int, a: int, b: int)
    requires a < b
    ensures DataBlk(dataStart, a) < DataBlk(dataStart, b)
  {
  }

  // ---------------------------------------------------------------------
  // Bits of one byte
  // ---------------------------------------------------------------------

  /** 1 << k as a byte. */
  function Mask(k: nat): byte
    requires k < 8
  {
    (1 as bv8) << k
  }

  /** buf[byte] & (1 << bit) */
  predicate IsSet(b: byte, k: nat)
    requires k < 8
  {
    b & Mask(k) != 0
  }

  /** buf[byte] |= (1 << bit) */
  function SetBit(b: byte, k: nat): byte
    requires k < 8
  {
    b | Mask(k)
  }

  /** buf[byte] &= ~(1 << bit) */
  function ClearBit(b: byte, k: nat): byte
    requires k < 8
  {
    b & !Mask(k)
  }

  /** Setting bit k sets it and leaves the other seven bits alone. */
  lemma SetBitEffect(b: byte, k: nat, j: nat)
    requires k < 8 && j < 8
    ensures IsSet(SetBit(b, k), j) <==> (j == k || IsSet(b, j))
  {
  }

  /** Clearing bit k clears it and leaves the other seven bits alone. */
  lemma ClearBitEffect(b: byte, k: nat, j: nat)
    requires k < 8 && j < 8
    ensures IsSet(ClearBit(b, k), j) <==> (j != k && IsSet(b, j))
  {
  }

  /** Clearing a bit that was just set gives the original byte back. */
  lemma ClearSetBit(b: byte, k: nat)
    requires k < 8 && !IsSet(b, k)
    ensures ClearBit(SetBit(b, k), k) == b
  {
  }

  /** Setting a bit that was just cleared gives the original byte back. */
  lemma SetClearBit(b: byte, k: nat)
    requires k < 8 && IsSet(b, k)
    ensures SetBit(ClearBit(b, k), k) == b
  {
  }

  /** The number of set bits among bits 0 .. i-1 of b. */
  function BitsBelow(b: byte, i: nat): (n: nat)
    requires i <= 8
    ensures n <= i
  {
    if i == 0 then 0 else BitsBelow(b, i - 1) + (if IsSet(b, i - 1) then 1 else 0)
  }

  /** The number of set bits of a byte. */
  function Popcount(b: byte): (n: nat)
    ensures n <= 8
  {
    BitsBelow(b, 8)
  }

  /** Bit k of b is bit 0 of b >> k. */
  lemma ShiftedBit(b: byte, k: nat)
    requires k < 8
    ensures (b >> k) & 1 == (if IsSet(b, k) then 1 else 0)
  {
  }

  lemma SetBitOne(b: byte, k: nat, j: nat)
    requires k < 8 && j < 8 && !IsSet(b, k)
    ensures (if IsSet(SetBit(b, k), j) then 1 else 0) == (if IsSet(b, j) then 1 else 0) + (if j == k then 1 else 0)
  {
    SetBitEffect(b, k, j);
  }

  lemma {:induction false} SetBitBelow(b: byte, k: nat, i: nat)
    requires k < 8 && i <= 8 && !IsSet(b, k)
    ensures BitsBelow(SetBit(b, k), i) == BitsBelow(b, i) + (if k < i then 1 else 0)
  {
    if i > 0 {
      SetBitBelow(b, k, i - 1);
      SetBitOne(b, k, i - 1);
    }
  }

  /** Setting a clear bit raises the population of the byte by one. */
  lemma SetBitPopcount(b: byte, k: nat)
    requires k < 8 && !IsSet(b, k)
    ensures Popcount(SetBit(b, k)) == Popcount(b) + 1
  {
    SetBitBelow(b, k, 8);
  }

  /** Clearing a set bit lowers the population of the byte by one. */
  lemma ClearBitPopcount(b: byte, k: nat)
    requires k < 8 && IsSet(b, k)
    ensures Popcount(ClearBit(b, k)) + 1 == Popcount(b)
  {
    var c := ClearBit(b, k);
    ClearBitEffect(b, k, k);
    SetClearBit(b, k);
    SetBitPopcount(c, k);
  }

  // ---------------------------------------------------------------------
  // Bits of a buffer: item i is bit i % 8 of byte i / 8
  // ---------------------------------------------------------------------

  predicate BufferBit(s: seq<byte>, i: nat)
    requires i < 8 * |s|
  {
    IsSet(s[i / 8], i % 8)
  }

  /** The number of set items among items 0 .. n-1 of a buffer. */
  function CountBits(s: seq<byte>, n: nat): (c: nat)
    requires n <= 8 * |s|
    ensures c <= n
  {
    if n == 0 then 0 else CountBits(s, n - 1) + (if BufferBit(s, n - 1) then 1 else 0)
  }

  /** The sum of the byte populations of a buffer, byte 0 first. */
  function PopcountBytes(s: seq<byte>): (n: nat)
    ensures n <= 8 * |s|
  {
    if s == [] then 0 else PopcountBytes(s[..|s| - 1]) + Popcount(s[|s| - 1])
  }

  lemma {:induction false} CountBitsSplit(s: seq<byte>, k: nat, j: nat)
    requires k < |s| && j <= 8
    ensures CountBits(s, 8 * k + j) == CountBits(s, 8 * k) + BitsBelow(s[k], j)
  {
    if j > 0 {
      CountBitsSplit(s, k, j - 1);
      var i := 8 * k + j - 1;
      assert i / 8 == k && i % 8 == j - 1;
    }
  }

  lemma {:induction false} CountBitsPrefix(s: seq<byte>, k: nat)
    requires k <= |s|
    ensures CountBits(s, 8 * k) == PopcountBytes(s[..k])
  {
    if k > 0 {
      CountBitsPrefix(s, k - 1);
      CountBitsSplit(s, k - 1, 8);
      assert s[..k][..k - 1] == s[..k - 1];
    }
  }

  /** The byte-by-byte population of a buffer is the number of its set
      items: summing byte populations counts exactly the bitmap bits. */
  lemma PopcountBytesCountsBits(s: seq<byte>)
    ensures PopcountBytes(s) == CountBits(s, 8 * |s|)
  {
    CountBitsPrefix(s, |s|);
    assert s[..|s|] == s;
  }

  // ---------------------------------------------------------------------
  // A bitmap region on the device, starting at block `start`
  // ---------------------------------------------------------------------

  /** Every item below n has its bitmap block on the device. */
  predicate Covered(blocks: seq<Block>, start: int, n: int)
  {
    forall i | 0 <= i < n :: 0 <= BmapBlk(start, i) < |blocks|
  }

  predicate BitmapBit(blocks: seq<Block>, start: int, i: int)
    requires i >= 0 && 0 <= BmapBlk(start, i) < |blocks|
  {
    BmapRanges(start, i);
    IsSet(blocks[BmapBlk(start, i)][BmapByte(i)], BmapBit(i))
  }

  /** The image after item i's bit is set in place. */
  function SetBitmapBit(blocks: seq<Block>, start: int, i: int): (r: seq<Block>)
    requires i >= 0 && 0 <= BmapBlk(start, i) < |blocks|
    ensures |r| == |blocks|
  {
    BmapRanges(start, i);
    var blk := BmapBlk(start, i);
    var buf := blocks[blk];
    blocks[blk := buf[BmapByte(i) := SetBit(buf[BmapByte(i)], BmapBit(i))]]
  }

  /** The image after item i's bit is cleared in place. */
  function ClearBitmapBit(blocks: seq<Block>, start: int, i: int): (r: seq<Block>)
    requires i >= 0 && 0 <= BmapBlk(start, i) < |blocks|
    ensures |r| == |blocks|
  {
    BmapRanges(start, i);
    var blk := BmapBlk(start, i);
    var buf := blocks[blk];
    blocks[blk := buf[BmapByte(i) := ClearBit(buf[BmapByte(i)], BmapBit(i))]]
  }

  /** Setting item i's bit sets it, changes no other item, and touches
      no block other than the one holding the bit. */
  lemma SetBitmapBitEffect(blocks: seq<Block>, start: int, i: int, j: int)
    requires i >= 0 && 0 <= BmapBlk(start, i) < |blocks|
    requires j >= 0 && 0 <= BmapBlk(start, j) < |blocks|
    ensures BitmapBit(SetBitmapBit(blocks, start, i), start, j) <==> (j == i || BitmapBit(blocks, start, j))
    ensures forall k | 0 <= k < |blocks| && k != BmapBlk(start, i) ::
              SetBitmapBit(blocks, start, i)[k] == blocks[k]
  {
    BmapRanges(start, i);
    BmapRanges(start, j);
    if BmapBlk(start, i) == BmapBlk(start, j) && BmapByte(i) == BmapByte(j) {
      SetBitEffect(blocks[BmapBlk(start, i)][BmapByte(i)], BmapBit(i), BmapBit(j));
      if BmapBit(i) == BmapBit(j) {
        BmapInjective(start, i, j);
      }
    } else if j == i {
      assert false;
    }
  }

  /** Clearing item i's bit clears it, changes no other item, and touches
      no block other than the one holding the bit. */
  lemma ClearBitmapBitEffect(blocks: seq<Block>, start: int, i: int, j: int)
    requires i >= 0 && 0 <= BmapBlk(start, i) < |blocks|
    requires j >= 0 && 0 <= BmapBlk(start, j) < |blocks|
    ensures BitmapBit(ClearBitmapBit(blocks, start, i), start, j) <==> (j != i && BitmapBit(blocks, start, j))
    ensures forall k | 0 <= k < |blocks| && k != BmapBlk(start, i) ::
              ClearBitmapBit(blocks, start, i)[k] == blocks[k]
  {
    BmapRanges(start, i);
    BmapRanges(start, j);
    if BmapBlk(start, i) == BmapBlk(start, j) && BmapByte(i) == BmapByte(j) {
      ClearBitEffect(blocks[BmapBlk(start, i)][BmapByte(i)], BmapBit(i), BmapBit(j));
      if BmapBit(i) == BmapBit(j) {
        BmapInjective(start, i, j);
      }
    }
  }

  /** Freeing an item that was just allocated restores the image exactly. */
  lemma ClearAfterSetRestores(blocks: seq<Block>, start: int, i: int)
    requires i >= 0 && 0 <= BmapBlk(start, i) < |blocks|
    requires !BitmapBit(blocks, start, i)
    ensures ClearBitmapBit(SetBitmapBit(blocks, start, i), start, i) == blocks
  {
    BmapRanges(start, i);
    var blk, byt, bit := BmapBlk(start, i), BmapByte(i), BmapBit(i);
    var b := blocks[blk][byt];
    var s1 := SetBitmapBit(blocks, start, i);
    assert s1 == blocks[blk := blocks[blk][byt := SetBit(b, bit)]];
    assert s1[blk][byt] == SetBit(b, bit);
    ClearSetBit(b, bit);
    assert blocks[blk][byt := SetBit(b, bit)][byt := b] == blocks[blk];
    assert ClearBitmapBit(s1, start, i) == s1[blk := blocks[blk]];
  }

  /** The number of set items among items 0 .. n-1 of the region. */
  function Population(blocks: seq<Block>, start: int, n: int): (c: nat)
    requires Covered(blocks, start, n)
    ensures c <= if n < 0 then 0 else n
    decreases n
  {
    if n <= 0 then 0
    else Population(blocks, start, n - 1) + (if BitmapBit(blocks, start, n - 1) then 1 else 0)
  }

  /** Setting one clear item raises the population of every prefix that
      contains it by exactly one. */
  lemma {:induction false} PopulationSetBit(blocks: seq<Block>, start: int, n: int, i: int)
    requires Covered(blocks, start, n) && 0 <= i && 0 <= BmapBlk(start, i) < |blocks|
    requires !BitmapBit(blocks, start, i)
    ensures Covered(SetBitmapBit(blocks, start, i), start, n)
    ensures Population(SetBitmapBit(blocks, start, i), start, n)
            == Population(blocks, start, n) + (if i < n then 1 else 0)
    decreases n
  {
    if n > 0 {
      PopulationSetBit(blocks, start, n - 1, i);
      SetBitmapBitEffect(blocks, start, i, n - 1);
    }
  }

  /** Clearing one set item lowers the population of every prefix that
      contains it by exactly one. */
  lemma {:induction false} PopulationClearBit(blocks: seq<Block>, start: int, n: int, i: int)
    requires Covered(blocks, start, n) && 0 <= i && 0 <= BmapBlk(start, i) < |blocks|
    requires BitmapBit(blocks, start, i)
    ensures Covered(ClearBitmapBit(blocks, start, i), start, n)
    ensures Population(ClearBitmapBit(blocks, start, i), start, n) + (if i < n then 1 else 0)
            == Population(blocks, start, n)
    decreases n
  {
    var c := ClearBitmapBit(blocks, start, i);
    assert Covered(c, start, n);
    if n > 0 {
      PopulationClearBit(blocks, start, n - 1, i);
      ClearBitmapBitEffect(blocks, start, i, n - 1);
      assert Population(c, start, n) == Population(c, start, n - 1) + (if BitmapBit(c, start, n - 1) then 1 else 0);
    }
  }

  /** The sum of the byte populations of a run of blocks, the quantity
      the checker accumulates over a bitmap region. */
  function RegionPopcount(bs: seq<Block>): (n: nat)
    ensures n <= BLOCKS_PER_BLOCK * |bs|
  {
    if bs == [] then 0 else RegionPopcount(bs[..|bs| - 1]) + PopcountBytes(bs[|bs| - 1])
  }

  lemma {:induction false} PopulationWithinBlock(blocks: seq<Block>, start: int, m: nat, j: nat)
    requires 0 <= start && start + m < |blocks| && j <= BLOCKS_PER_BLOCK
    requires Covered(blocks, start, m * BLOCKS_PER_BLOCK + j)
    ensures Population(blocks, start, m * BLOCKS_PER_BLOCK + j)
            == Population(blocks, start, m * BLOCKS_PER_BLOCK) + CountBits(blocks[start + m], j)
  {
    if j > 0 {
      var i := m * BLOCKS_PER_BLOCK + j - 1;
      PopulationWithinBlock(blocks, start, m, j - 1);
      DivUnique(i, BLOCKS_PER_BLOCK, m, j - 1);
      assert BmapBlk(start, i) == start + m;
      assert BmapByte(i) == (j - 1) / 8 && BmapBit(i) == (j - 1) % 8;
    }
  }

  /** Counting bytes block by block, as the checker does, gives the number
      of set items the allocator sees: m whole bitmap blocks hold exactly
      Population(blocks, start, 4096 * m) set bits. */
  lemma {:induction false} RegionPopcountIsPopulation(blocks: seq<Block>, start: int, m: nat)
    requires 0 <= start && start + m <= |blocks|
    ensures Covered(blocks, start, m * BLOCKS_PER_BLOCK)
    ensures RegionPopcount(blocks[start..start + m]) == Population(blocks, start, m * BLOCKS_PER_BLOCK)
  {
    CoveredWhole(blocks, start, m);
    if m > 0 {
      RegionPopcountIsPopulation(blocks, start, m - 1);
      assert blocks[start..start + m][..m - 1] == blocks[start..start + m - 1];
      PopulationWithinBlock(blocks, start, m - 1, BLOCKS_PER_BLOCK);
      PopcountBytesCountsBits(blocks[start + m - 1]);
      assert (m - 1) * BLOCKS_PER_BLOCK + BLOCKS_PER_BLOCK == m * BLOCKS_PER_BLOCK;
    }
  }

  lemma CoveredWhole(blocks: seq<Block>, start: int, m: nat)
    requires 0 <= start && start + m <= |blocks|
    ensures Covered(blocks, start, m * BLOCKS_PER_BLOCK)
  {
    forall i | 0 <= i < m * BLOCKS_PER_BLOCK
      ensures 0 <= BmapBlk(start, i) < |blocks|
    {
      assert i / BLOCKS_PER_BLOCK < m;
    }
  }
}
