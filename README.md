# NumbFS core, modelled in Dafny

NumbFS is a small teaching file system. Its image is a sequence of
512-byte blocks, laid out as follows:

- block 0 is unused;
- block 1 holds the superblock;
- next come the inode bitmap, the inode table (8 inodes of 64 bytes per
  block) and the block bitmap;
- last comes the data zone.

An inode addresses its data through ten `i_data` entries, one data block
each. `NUMBFS_HOLE` (-32) marks an entry with no block behind it.

The project models the user-space core of NumbFS:

- `utils.h` (module `Utils`): rounding and division helpers, and the
  little-endian conversions, with the host byte order as a parameter.
- `disk.h` (module `DiskLayout`): the on-disk records, namely the
  superblock, inode, directory entry, timestamps and extended-attribute
  entry. Each is a field layout with an encoder and a decoder that are
  proved to be mutual inverses.
- `internal.h` (module `Internal`): the bitmap and inode address
  arithmetic, bit operations on bitmap bytes, and bit populations over a
  bitmap region.
- `lib.c` (module `Lib`):
  - the block device, a class `Device` over `seq<Block>`;
  - the in-memory superblock (class `SuperblockInfo`) and inode (class
    `InodeInfo`);
  - their operations: read or write a block, load the superblock,
    allocate or free a data block, load or dump an inode, map a file
    block (allocating if asked), write or read one file block, and build
    an empty directory.

  Every method is proved against a specification function on the block
  sequence. The lemmas about those functions give the round trips: dump
  then load, write then read, allocate then free.
- `fsck.c` (module `Fsck`): the bit-counting loops, the
  used-inode/used-block consistency check, the rendering of an inode
  report (its kind, its extended attributes, the entries of a directory)
  and the whole `numbfs_fsck` run. Each is proved equal to a specification
  function.
- `mkfs.c` (module `Mkfs`):
  - the option checks and the size decision;
  - the layout computation;
  - zeroing the metadata region and writing `NUMBFS_HOLE` into every
    inode of the table;
  - creating the root directory and writing the superblock.

  The lemmas prove that the layout fits the image, that the freshly
  formatted bitmaps are clear, and that the first allocation after
  formatting lands in the data zone.

Errors are modelled as the source's negative errno values (`-EIO`,
`-EINVAL`, `-E2BIG`, `-ENOTSUP`). A failing `pread`/`pwrite` on the image
file becomes `-EIO`: a block number outside the device.

## Model

| member | source | states |
|---|---|---|
| Utils.ZeroBlock | utils.h:15 | a zeroed buffer is one block of 512 bytes, all zero |
| Utils.DivRoundUp | utils.h:29 | for n >= 0 the result is the least r with n <= r*d |
| Utils.Max | utils.h:21-23 | the result is one of the arguments and no smaller than either |
| Utils.Min | utils.h:25-27 | the result is one of the arguments and no larger than either |
| Utils.RoundUpIsLeastMultiple | utils.h:17-18 | round_up(x, y), written with the mask trick, is a multiple of y in [x, x+y) |
| Utils.RoundDownIsGreatestMultiple | utils.h:19 | round_down(x, y) is a multiple of y in (x-y, x] |
| Utils.BlockSizeIsPow2 | utils.h:15 | BYTES_PER_BLOCK is a power of two, so the mask macros apply to it |
| Utils.Trunc | utils.h:36-41 | a cast to an n-byte unsigned type lies below 256^n |
| Utils.ToInt32 | utils.h:37 | reading a 32-bit pattern as an int gives a value in the int range, equal to the pattern when non-negative |
| Utils.ToInt32Trunc | utils.h:37 | storing an int in 32 bits and reading it back as an int gives the original value |
| Utils.EncodeLE | utils.h:36-41 | a little-endian encoding has exactly n bytes |
| Utils.DecodeLE | utils.h:39-41 | a decoded n-byte value lies below 256^n |
| Utils.DecodeEncodeLE | utils.h:36-41 | decoding an n-byte little-endian encoding returns any value below 256^n |
| Utils.EncodeDecodeLE | utils.h:36-41 | encoding a decoded byte string gives back the same bytes |
| Utils.Reverse | utils.h:45-50 | a byte swap reverses the order of the bytes |
| Utils.ByteSwapInvolution | utils.h:45-50 | __builtin_bswap stays in range and applied twice is the identity |
| Utils.LeToCpuInvertsCpuToLe | utils.h:36-50 | on either host byte order, le_to_cpu undoes cpu_to_le up to truncation to the field width |
| Utils.CpuToLeStoresLittleEndian | utils.h:36-50 | on either host byte order, the bytes cpu_to_le leaves in memory are the little-endian encoding |
| DiskLayout.EncodeField | disk.h:28-50 | an encoded field occupies exactly its width |
| DiskLayout.DecodeField | disk.h:28-50 | a decoded field fits its width |
| DiskLayout.Encode | disk.h:28-50 | an encoded record has the size of its layout |
| DiskLayout.Decode | disk.h:28-50 | a decoded record conforms to its layout |
| DiskLayout.FieldRoundTrip | disk.h:28-50 | decoding an encoded field gives the value back |
| DiskLayout.FieldOverlay | disk.h:28-50 | encoding a decoded field gives the bytes back |
| DiskLayout.DecodeEncode | disk.h:28-112 | decoding an encoded record gives the values back, for every layout |
| DiskLayout.EncodeDecode | disk.h:28-112 | encoding a decoded record gives the bytes back, for every layout |
| DiskLayout.RecordSizes | disk.h:92-112 | the superblock, inode, dirent and timestamp layouts have the sizes 128, 64, 64 and 32 that the build-time checks demand; the xattr entry layout has 4 + 16 + 32 = 52 bytes, which the build-time checks do not cover |
| DiskLayout.SuperBlockSize | disk.h:28-50 | the superblock layout is 128 bytes |
| DiskLayout.InodeSize | disk.h:53-67 | the inode layout is 64 bytes |
| DiskLayout.DirentSize | disk.h:70-75 | the directory-entry layout is 64 bytes |
| DiskLayout.TimestampsSize | disk.h:77-82 | the timestamps layout is 32 bytes |
| DiskLayout.XattrEntrySize | disk.h:92-99 | the extended-attribute entry layout is 52 bytes |
| DiskLayout.SuperBlockValues | disk.h:28-50 | a valid superblock conforms to its layout |
| DiskLayout.EncodeSuperBlock | disk.h:28-50 | an encoded superblock is 128 bytes |
| DiskLayout.DecodeSuperBlock | disk.h:28-50 | every 128-byte string decodes to a valid superblock |
| DiskLayout.SuperBlockRoundTrip | disk.h:28-50 | decoding an encoded superblock gives it back |
| DiskLayout.SuperBlockOverlay | disk.h:28-50 | encoding a decoded superblock gives the bytes back |
| DiskLayout.SuperBlockFieldOffsets | disk.h:28-50 | the k-th superblock field starts at byte 4k |
| DiskLayout.InodeLayoutFields | disk.h:53-67 | the inode has 19 fields of the declared widths, ten of them the i_data entries |
| DiskLayout.InodeValues | disk.h:53-67 | a valid inode record conforms to its layout |
| DiskLayout.EncodeInode | disk.h:53-67 | an encoded inode is 64 bytes |
| DiskLayout.DecodeInode | disk.h:53-67 | every 64-byte string decodes to a valid inode record |
| DiskLayout.InodeOf | disk.h:53-67 | values conforming to the inode layout make a valid record |
| DiskLayout.InodeOfValues | disk.h:53-67 | building a record from layout values and listing its values gives them back |
| DiskLayout.InodeRoundTrip | disk.h:53-67 | decoding an encoded inode gives it back |
| DiskLayout.InodeOverlay | disk.h:53-67 | encoding a decoded inode gives the bytes back |
| DiskLayout.InodeFieldOffsets | disk.h:53-67 | each inode field sits at its C offset, and i_data[i] at byte 24+4i |
| DiskLayout.DirentValues | disk.h:70-75 | a valid directory entry conforms to its layout |
| DiskLayout.EncodeDirent | disk.h:70-75 | an encoded directory entry is 64 bytes |
| DiskLayout.DecodeDirent | disk.h:70-75 | every 64-byte string decodes to a valid directory entry |
| DiskLayout.DirentRoundTrip | disk.h:70-75 | decoding an encoded directory entry gives it back |
| DiskLayout.DirentOverlay | disk.h:70-75 | encoding a decoded directory entry gives the bytes back |
| DiskLayout.DirentFieldOffsets | disk.h:70-75 | name_len, type, name and ino start at bytes 0, 1, 2 and 62 |
| DiskLayout.TimestampsValues | disk.h:77-82 | valid timestamps conform to their layout |
| DiskLayout.EncodeTimestamps | disk.h:77-82 | encoded timestamps are 32 bytes |
| DiskLayout.DecodeTimestamps | disk.h:77-82 | every 32-byte string decodes to valid timestamps |
| DiskLayout.TimestampsRoundTrip | disk.h:77-82 | decoding encoded timestamps gives them back |
| DiskLayout.TimestampsOverlay | disk.h:77-82 | encoding decoded timestamps gives the bytes back |
| DiskLayout.XattrValues | disk.h:92-99 | a valid extended-attribute entry conforms to its layout |
| DiskLayout.EncodeXattr | disk.h:92-99 | an encoded extended-attribute entry is 52 bytes |
| DiskLayout.DecodeXattr | disk.h:92-99 | every 52-byte string decodes to a valid entry |
| DiskLayout.XattrRoundTrip | disk.h:92-99 | decoding an encoded entry gives it back |
| DiskLayout.XattrOverlay | disk.h:92-99 | encoding a decoded entry gives the bytes back |
| DiskLayout.XattrSlotOffset | disk.h:101-103 | every one of the table's slots lies after the timestamps and inside the block |
| DiskLayout.XattrTableFits | disk.h:101-103 | MAX_ENTRY is 9, and the table ends 12 bytes short of the block's end |
| Internal.PerBlockConstants | internal.h:42-43 | a bitmap block covers 4096 items and an inode block holds 8 inodes |
| Internal.BmapRanges | internal.h:46-61 | for blkno >= 0 the bitmap block is at or after the bitmap start, the byte lies inside the block and the bit inside the byte |
| Internal.BmapDecomposition | internal.h:46-61 | block, byte and bit recombine to exactly blkno |
| Internal.BmapInjective | internal.h:46-61 | two items with the same block, byte and bit are the same item |
| Internal.BmapBlkStep | internal.h:46-49 | stepping to the next item stays in the same bitmap block until a 4096 boundary |
| Internal.InodeSlot | internal.h:63-67 | an inode's slot within its table block is one of 8 |
| Internal.InodeLocationExact | internal.h:63-67 | the table block and slot of an inode recombine to its number |
| Internal.InodeBlkRange | internal.h:63-67 | every inode below the total lies inside the table, which is DIV_ROUND_UP(total, 8) blocks long |
| Internal.DataBlkStrictlyIncreasing | internal.h:69-73 | distinct data-zone indexes map to distinct, ordered device blocks |
| Internal.SetBitEffect | lib.c:90 | setting bit k of a byte sets exactly bit k and keeps the others |
| Internal.ClearBitEffect | lib.c:115 | clearing bit k of a byte clears exactly bit k and keeps the others |
| Internal.ClearSetBit | lib.c:90 | setting a clear bit, then clearing it, restores the byte |
| Internal.SetClearBit | lib.c:115 | clearing a set bit, then setting it, restores the byte |
| Internal.BitsBelow | fsck.c:85-94 | the count of set bits among the low i bits is at most i |
| Internal.Popcount | fsck.c:85-94 | a byte has at most 8 set bits |
| Internal.ShiftedBit | fsck.c:89-90 | (b >> k) & 1 is 1 exactly when bit k is set |
| Internal.SetBitOne | lib.c:90 | setting a clear bit adds one to that position's count and changes no other position |
| Internal.SetBitBelow | lib.c:90 | setting clear bit k adds one to the count of the low i bits exactly when k < i |
| Internal.SetBitPopcount | lib.c:90 | setting a clear bit raises the byte's population by one |
| Internal.ClearBitPopcount | lib.c:115 | clearing a set bit lowers the byte's population by one |
| Internal.CountBits | fsck.c:96-103 | the number of set bits among the first n is at most n |
| Internal.PopcountBytes | fsck.c:96-103 | a buffer of m bytes has at most 8m set bits |
| Internal.CountBitsSplit | fsck.c:96-103 | the count of the first 8k+j bits is the count of k whole bytes plus the low j bits of byte k |
| Internal.CountBitsPrefix | fsck.c:96-103 | counting the first 8k bits equals summing the populations of the first k bytes |
| Internal.PopcountBytesCountsBits | fsck.c:96-103 | a buffer's byte-wise population equals its bit-wise count |
| Internal.SetBitmapBit | lib.c:89-91 | setting a bitmap bit keeps the device size |
| Internal.ClearBitmapBit | lib.c:114-116 | clearing a bitmap bit keeps the device size |
| Internal.SetBitmapBitEffect | lib.c:89-91 | after setting item i, an item is set exactly when it is i or was set before |
| Internal.ClearBitmapBitEffect | lib.c:114-116 | after clearing item i, an item is set exactly when it is not i and was set before |
| Internal.ClearAfterSetRestores | lib.c:89-91 | setting a clear bitmap bit and clearing it again restores the device |
| Internal.Population | fsck.c:275-305 | the number of set items among the first n is at most n |
| Internal.PopulationSetBit | lib.c:89-91 | setting a clear item below n raises the population of the first n items by one, and leaves it unchanged for i >= n |
| Internal.PopulationClearBit | lib.c:114-116 | clearing a set item below n lowers the population of the first n items by one, and leaves it unchanged for i >= n |
| Internal.RegionPopcount | fsck.c:275-305 | a region of m bitmap blocks counts at most 4096m items |
| Internal.PopulationWithinBlock | fsck.c:96-103 | the population up to item 4096m+j is that of m whole blocks plus the count of the first j bits of the next |
| Internal.RegionPopcountIsPopulation | fsck.c:275-305 | summing the byte populations of m bitmap blocks counts the set items among the first 4096m |
| Internal.CoveredWhole | fsck.c:275-305 | every item of m whole bitmap blocks lies on the device |
| Lib.Device.constructor | lib.c:15-39 | a device holds the given image |
| Lib.Device.ReadBlock | lib.c:15-26 | a read succeeds exactly for a block on the device and returns that block, otherwise -EIO |
| Lib.Device.WriteBlock | lib.c:28-39 | a write succeeds exactly for a block on the device and replaces only that block; on -EIO nothing changes |
| Lib.WriteSpec | lib.c:28-39 | a block write succeeds exactly on the device, changes that block only, or leaves everything with -EIO |
| Lib.StateOf | lib.c:60-66 | the fields loaded from a valid on-disk superblock fit an int |
| Lib.RecordOf | mkfs.c:262-273 | the superblock built from the in-memory fields is valid and carries the magic |
| Lib.SuperblockRoundTrip | lib.c:42-68 | reading back a superblock written from int fields gives the same fields |
| Lib.SuperBlockImagePrefix | mkfs.c:262-273 | the superblock block begins with the encoded record and is zero after it |
| Lib.StateOfRecordOf | lib.c:60-66 | building the on-disk record from int fields and loading it gives the fields back |
| Lib.BadMagicRefused | lib.c:55-58 | a superblock whose magic is wrong is refused with -EINVAL |
| Lib.FirstClear | lib.c:77-97 | a found index lies in the scanned range and its bitmap block is on the device |
| Lib.FirstClearFacts | lib.c:77-97 | the index found is clear and every earlier one is set; with no index found, every one is set, or a bitmap block is off the device |
| Lib.AllocSpec | lib.c:71-99 | allocation keeps the device size and returns -EIO, data_start-1 when full, or a block of the data zone |
| Lib.AllocTakesFirstFree | lib.c:71-99 | over a bitmap on the device the scan never fails, so the result is either the first clear block, whose bit becomes set while every other bit is kept, or data_start - 1 with nothing changed when no bit is clear |
| Lib.AllocThenFreeRestores | lib.c:71-119 | clearing the bit of a block just allocated restores the device |
| Lib.SlotOf | lib.c:133 | an inode slot is 64 bytes |
| Lib.WithSlot | lib.c:188-202 | replacing one slot of a table block changes that slot only |
| Lib.InodeRecordAt | lib.c:122-144 | a present inode record is valid |
| Lib.Load | lib.c:135-141 | loaded fields are storable, and the xattr fields fit their widths |
| Lib.Store | lib.c:188-196 | storing fields keeps a valid record and leaves the fields dump_inode does not write |
| Lib.LoadStore | lib.c:122-220 | loading what was stored gives the fields back, except the xattr fields, which keep their on-disk values |
| Lib.DumpSpec | lib.c:176-220 | dumping an inode keeps the device size |
| Lib.DumpThenLoad | lib.c:176-220 | a dump of an inode on the device succeeds, writes the stored record at that slot, and loading it back gives the dumped fields, with the xattr fields kept from disk |
| Lib.DumpKeepsOthers | lib.c:176-220 | dumping one inode leaves every other inode record unchanged |
| Lib.BlkaddrSpec | lib.c:150-174 | mapping a file block keeps ten entries and the device size |
| Lib.BlkaddrWithoutAlloc | lib.c:150-174 | without alloc the mapping is a pure lookup and changes nothing |
| Lib.BlkaddrChangesOneEntry | lib.c:150-174 | mapping changes at most the entry of the requested block, and only when it was a hole filled by a successful allocation |
| Lib.BlockIndex | lib.c:229 | the block index of byte offset 512·b is b |
| Lib.HoleReadsZero | lib.c:244-262 | a hole, or a mapped block whose byte offset exceeds round_up(size, 512), reads back as zeros |
| Lib.PwriteSpec | lib.c:223-241 | a write grows the size to cover the block and changes no field but size and i_data |
| Lib.WriteThenRead | lib.c:223-262 | after a successful write the block is mapped, and reading it gives the buffer written, unless the data block is the inode's own table block, which the final dump_inode overwrites |
| Lib.WriteKeepsOtherHoles | lib.c:223-262 | a write leaves every other hole reading as zeros |
| Lib.WriteThenLoad | lib.c:223-241 | after a successful write the inode on disk holds the new size and mapping |
| Lib.DotDotName | lib.c:288-296 | the ".." entry's name is ".." zero-padded to the 60-byte field |
| Lib.DotName | lib.c:288-296 | the "." entry's name is "." zero-padded to the 60-byte field |
| Lib.DirBlockEntries | lib.c:288-296 | an empty directory's block holds ".." to the parent, then "." to itself, then zeros |
| Lib.WriteFirstBlock | lib.c:297 | writing block 0 of an inode whose entries are all holes maps it to the block alloc_block returns (data_start - 1 when no bit is clear), keeps the other entries holes, and that block holds the buffer unless it is the inode's own table block |
| Lib.EmptyDirSteps | lib.c:265-310 | empty_dir is the write of the directory block followed by the dump of the directory fields |
| Lib.DumpDirFields | lib.c:302-306 | the dump stores a directory inode of two entries, link count 2, with its first block mapped |
| Lib.ReadFirstBlock | lib.c:244-262 | reading block 0 returns the device block it is mapped to |
| Lib.EmptyDirResult | lib.c:265-310 | a successful empty_dir leaves a directory inode whose other entries are holes and whose first block is the dot-dot/dot block, unless that data block is the inode's own table block, which the final dump_inode overwrites |
| Lib.SuperblockInfo.constructor | internal.h:12-25 | a fresh superblock info holds the device and all-zero fields |
| Lib.SuperblockInfo.GetSuperblock | lib.c:42-68 | the fields become those read from block 1, or stay as they were with the error returned |
| Lib.SuperblockInfo.FillFrom | lib.c:60-66 | the in-memory fields become those of the on-disk superblock |
| Lib.SuperblockInfo.AllocBlock | lib.c:71-99 | the scan and the bit update are exactly the allocation specification |
| Lib.SuperblockInfo.FreeBlock | lib.c:102-119 | the block's bit is cleared, or -EIO when its bitmap block is off the device |
| Lib.SuperblockInfo.EmptyDir | lib.c:265-310 | the device becomes exactly what the empty-directory specification says |
| Lib.InodeInfo.constructor | internal.h:28-40 | a fresh inode info is bound to its superblock info and inode number, with zero fields |
| Lib.InodeInfo.GetInode | lib.c:122-144 | the fields become those loaded from the inode record, or -EIO with nothing changed |
| Lib.InodeInfo.SetDirFields | lib.c:302-305 | the fields become those of a two-entry directory |
| Lib.InodeInfo.DumpInode | lib.c:176-220 | the device becomes exactly the dump specification's image |
| Lib.InodeInfo.InodeBlkaddr | lib.c:150-174 | result, mapping and device follow the block-mapping specification; no other field changes |
| Lib.InodeInfo.PwriteInode | lib.c:223-241 | fields and device follow the write specification |
| Lib.InodeInfo.PreadInode | lib.c:244-262 | result and buffer follow the read specification |
| Fsck.CountBit | fsck.c:85-94 | the loop returns the byte's population, between 0 and 8 |
| Fsck.ShiftStep | fsck.c:89-90 | one shift step exposes the next bit |
| Fsck.FsckUsed | fsck.c:96-103 | the loop returns the block's population, equal to the number of its set bits |
| Fsck.CountRegion | fsck.c:275-305 | the loop returns the region's population, or -EIO when a block cannot be read |
| Fsck.RegionUseIsPopulation | fsck.c:275-305 | the used count of a bitmap region is the population of its items |
| Fsck.UsageFollowsPopulation | fsck.c:275-305 | a change in population shows up as the same change in the used count |
| Fsck.AllocRaisesBlockUsage | lib.c:71-99 | a successful allocation raises the block bitmap's used count by one |
| Fsck.AllocPopulation | lib.c:71-99 | a successful allocation raises the population of the covered items by one |
| Fsck.FreeLowersBlockUsage | lib.c:102-119 | freeing a used block lowers the block bitmap's used count by one |
| Fsck.FormatBits | fsck.c:200-205 | the S_IFMT part of a mode is a multiple of 0x1000 at most the mode |
| Fsck.KindOfFormat | fsck.c:200-205 | S_IFDIR is a directory, S_IFLNK a symlink, every other format a regular file |
| Fsck.DirType | fsck.c:105-113 | the type name is DIR, SYMLINK or REGULAR (padded to 7) exactly for DT_DIR, DT_LNK or anything else |
| Fsck.Padded | fsck.c:149-160 | a rendered field keeps its first len bytes, pads with spaces and, when len < width, ends in a NUL; with len == width no NUL remains |
| Fsck.Render | fsck.c:149-160 | the render loop produces the padded field |
| Fsck.SlotEntry | fsck.c:142-147 | each xattr slot decodes to a valid entry |
| Fsck.SlotTable | fsck.c:142-147 | the table of n slots has n valid entries |
| Fsck.SlotTableAt | fsck.c:142-147 | entry k of the table is slot k |
| Fsck.XattrScanLines | fsck.c:142-160 | a scan lists one line per valid slot, each with full-width name and value, unless it overruns |
| Fsck.OverrunIff | fsck.c:142-160 | a scan overruns exactly when some valid slot has a name or value longer than its field |
| Fsck.OverrunPersists | fsck.c:142-160 | once the scan has overrun, scanning further still overruns |
| Fsck.RenderEntry | fsck.c:149-160 | rendering an entry gives its padded name and value and its type |
| Fsck.ReadSlot | fsck.c:142-147 | reading slot i gives entry i of the table |
| Fsck.ScanSlots | fsck.c:142-160 | the loop over the slots produces the specified scan |
| Fsck.DumpXattrs | fsck.c:123-164 | the xattr dump of an inode is the one the specification gives |
| Fsck.DirentAt | fsck.c:219-233 | each directory entry is 64 bytes |
| Fsck.Lines | fsck.c:219-233 | the listing has one line per entry, each the entry's rendering |
| Fsck.Walk | fsck.c:219-233 | every entry a walk returns is one 64-byte directory entry |
| Fsck.EntryCount | fsck.c:219-220 | a positive directory size holds exactly that many 64-byte entries, the last possibly partial |
| Fsck.WalkStep | fsck.c:219-233 | one more successful read adds the entry at that position |
| Fsck.WalkStops | fsck.c:219-233 | a failing read ends the walk with its error and the entries read so far |
| Fsck.WalkErrorPersists | fsck.c:219-233 | an error stays the walk's outcome however far it would have gone |
| Fsck.WalkDirents | fsck.c:219-233 | a successful walk of n entries returns entry j from block j/8, slot j%8 |
| Fsck.WalkEmptyDir | fsck.c:219-233 | listing a fresh empty directory shows ".." to the parent, then "." to itself |
| Fsck.EntryPosition | fsck.c:221-228 | the byte offset of entry n lies in block n/8 at slot n%8 |
| Fsck.ListDir | fsck.c:219-233 | the loop over the entries returns exactly the walk |
| Fsck.ShowInodeSpec | fsck.c:167-239 | a successful report is about the inode asked for |
| Fsck.ShowInode | fsck.c:167-239 | the report built is the specified one |
| Fsck.ShowEmptyDir | fsck.c:167-239 | when empty_dir's first data block is not the inode's own table block, showing the directory, if it yields a report (the xattr_start block read succeeds), reports a directory with two links, size 128 and the dot-dot/dot listing |
| Fsck.FsckSpec | fsck.c:241-320 | a completed run read a valid superblock, passed the counts, and reports the inode exactly when one was asked for |
| Fsck.Fsck | fsck.c:241-320 | the whole run is the specified one |
| Fsck.CheckBitmaps | fsck.c:275-305 | the two counting passes produce the specified verdict |
| Fsck.PassedMeansConsistent | fsck.c:275-305 | a passed check means the used counts equal total minus free, for whichever bitmaps were checked |
| Mkfs.EightIsPow2 | mkfs.c:86-92 | 8 is a power of two, so round_down(val, 8) applies |
| Mkfs.InodeCountAcceptedMeans | mkfs.c:86-92 | the inode count is accepted exactly when it is positive and a multiple of 8 |
| Mkfs.DefaultConfig | mkfs.c:131-137 | the default inode count is accepted and the size is unset (-1) |
| Mkfs.WithNumInodes | mkfs.c:86-92 | the option is refused with -EINVAL exactly when the count is not a positive multiple of 8; otherwise it sets the total, and the free count is the total minus NUMBFS_ROOT_NID (which is 0) |
| Mkfs.SizeUnitsNest | mkfs.c:95-106 | k/K, m/M and g/G scale by 1024 each, case-insensitively, and any other unit leaves the size |
| Mkfs.BitmapBlocksCover | mkfs.c:198-212 | a bitmap of x items gets the fewest blocks that cover them, and fewer blocks than items when there are at least 2 |
| Mkfs.BitmapBlocksMonotone | mkfs.c:198-212 | more items never need fewer bitmap blocks |
| Mkfs.InodeBitmapCovers | mkfs.c:196-199 | the inode bitmap starts at block 2 and covers every inode |
| Mkfs.InodeTableHolds | mkfs.c:201-202 | the inode table holds every inode, and exactly fills its blocks when the count is a multiple of 8 |
| Mkfs.TableBlocks | mkfs.c:201-202 | DIV_ROUND_UP(64n, 512) blocks hold n inodes, exactly when 8 divides n |
| Mkfs.DataZoneFits | mkfs.c:204-212 | with room left, the data zone is non-negative, its bitmap covers it and it ends inside the image |
| Mkfs.DataZoneSplit | mkfs.c:204-207 | splitting the remaining blocks into data and bitmap keeps both inside the remainder, with the bitmap covering the data |
| Mkfs.AsWrittenAdmitsNoDataZone | mkfs.c:186 | the guard as written admits 8 inodes on a 2048-byte image, which leaves -1 data blocks, and whose first allocation returns the root inode's table block |
| Mkfs.AdmittedLayoutFits | mkfs.c:186-212 | with the corrected guard, the regions are in order, at least one data block exists, and the data zone ends inside the device |
| Mkfs.HoleData | mkfs.c:234-235 | the hole entries are ten 32-bit patterns that read back as NUMBFS_HOLE |
| Mkfs.WithHoleData | mkfs.c:234-235 | setting the holes keeps a valid record |
| Mkfs.LoadHoleData | mkfs.c:234-235 | a record with its holes set loads with every data entry HOLE and every other field kept |
| Mkfs.HoledSlot | mkfs.c:232-236 | a holed slot is still 64 bytes |
| Mkfs.HoledSlotDecodes | mkfs.c:232-236 | the holed slot decodes to the original record with its holes set |
| Mkfs.SlotwiseSlot | mkfs.c:232-236 | applying a slot map to a block changes each slot by the map |
| Mkfs.HoledSlotIsSlotMap | mkfs.c:232-236 | setting holes maps 64-byte slots to 64-byte slots |
| Mkfs.HoleSlotsSlot | mkfs.c:232-236 | after the hole pass, each slot of a table block is that slot holed |
| Mkfs.SlotsDetermineBlock | mkfs.c:232-236 | two blocks with equal slots are equal |
| Mkfs.HoleSlotsDecode | mkfs.c:232-236 | every inode of a holed table block decodes with its holes set |
| Mkfs.SetRecordHoles | mkfs.c:234-235 | the inner loop sets every i_data entry of one inode to HOLE |
| Mkfs.SetSlotHoles | mkfs.c:233-235 | the work on one slot is setting its holes |
| Mkfs.SetHoles | mkfs.c:232-236 | the loop over the 8 slots holes every inode of the block |
| Mkfs.Zeroed | mkfs.c:213-221 | zeroing keeps the device size |
| Mkfs.Holed | mkfs.c:223-241 | the hole pass keeps the device size |
| Mkfs.ZeroBlocks | mkfs.c:213-221 | the loop zeroes [start, end), and fails with -EIO exactly when end is past the device |
| Mkfs.FillHoles | mkfs.c:223-241 | the loop holes every table block in [from, to), and fails with -EIO exactly when to is past the device |
| Mkfs.FormattedImage | mkfs.c:213-241 | formatting keeps the device size |
| Mkfs.ZeroInode | mkfs.c:213-221 | a zeroed inode slot is a valid record |
| Mkfs.FreshRecord | mkfs.c:213-241 | a freshly formatted inode is valid and every data entry is HOLE |
| Mkfs.FreshInodes | mkfs.c:213-241 | after formatting, every inode in the table is a fresh record |
| Mkfs.FreshInodesHoles | mkfs.c:213-241 | after formatting, every inode in the table has only holes, as empty_dir needs |
| Mkfs.HoleBlockSlot | mkfs.c:223-241 | every slot of a holed zero block is a fresh record |
| Mkfs.FormattedBlock | mkfs.c:213-241 | formatting makes table blocks holed, other metadata blocks zero, and leaves blocks 0, 1 and the data zone alone |
| Mkfs.FreshBitmapsClear | mkfs.c:213-221 | after formatting, every bit of the inode bitmap is clear, and so is every block-bitmap item below the inode bitmap's capacity |
| Mkfs.FreshBlockBitmapClear | mkfs.c:213-221 | after formatting, every item of the block bitmap is clear |
| Mkfs.ZeroByteClear | mkfs.c:213 | a zero byte has no bit set |
| Mkfs.RootBlockInDataZone | mkfs.c:186-260 | with the corrected guard, the first allocation on a fresh image takes the first data block, never the root inode's table block |
| Mkfs.DecideSize | mkfs.c:171-191 | the size becomes the device size when unset; the result accepts exactly a size that fits the device and passes the corrected guard |
| Mkfs.LayOut | mkfs.c:193-212 | the region fields become the layout computed from the inode count and the size |
| Mkfs.Format | mkfs.c:213-244 | the device becomes the formatted image and data_start becomes end |
| Mkfs.FreshRecordNoXattrs | mkfs.c:213-221 | a zeroed inode record has i_xattr_start and i_xattr_count 0 |
| Mkfs.RootDirSucceeds | mkfs.c:255-260 | with the corrected guard, empty_dir of the root on the fresh image succeeds and keeps the device size |
| Mkfs.RootPwrite | lib.c:222-241 | the pwrite of empty_dir on the fresh image succeeds, maps logical block 0 to data_start, and the dumped root record keeps no extended attributes |
| Mkfs.RootFieldsStorable | lib.c:189-197 | the directory fields empty_dir dumps for the root fit their on-disk widths |
| Mkfs.RootRecord | mkfs.c:255-260 | after empty_dir the root record maps block 0 to data_start and has no extended attributes |
| Mkfs.FreshRootListed | fsck.c:167-239 | fsck of inode 0 on a freshly made image reports a directory with two links, size 128, no extended attributes, and the entries ".." and "." naming inode 0 |
| Mkfs.RootAndSuper | mkfs.c:255-275 | the root is made an empty directory of itself, then the superblock is written, and then reads back as the in-memory fields with feature 0 |
| Mkfs.Mkfs | mkfs.c:171-275 | a refused size leaves the layout fields and the device unchanged (sbi.size may become the device size) and returns -EINVAL; an admitted size returns 0 and leaves the formatted image, the root directory and a superblock that reads back |
| Mkfs.LayoutFitsInt32 | mkfs.c:193-212 | every layout field fits an int when the inode counts do and the image is below 2^40 bytes |

## Left out

- File descriptors, `open`, `fstat`, `ioctl(BLKGETSIZE64)` and `close`
  are not modelled. The device is a `seq<Block>`, and its size is
  512·|blocks|, so a partial trailing block is not represented.
- A short `pread`/`pwrite` is modelled only as a block number outside the
  device (`-EIO`). Transient I/O errors are not modelled. The device has a
  fixed size; this is a modelling choice. A `pwrite` past the end of a
  regular image file grows the file, but `Mkfs.ZeroBlocks`, `Mkfs.FillHoles`,
  `Lib.PwriteSpec` and `Lib.WriteSpec` return `-EIO` there.
- Command-line parsing (`getopt`, `atoi`, `sscanf`) and the usage text
  are not modelled. The parsed values are inputs: a count for
  `WithNumInodes`, a size and an optional unit letter for `SizeWithUnit`.
- Console output (`printf`, `fprintf`, `perror`) is not modelled. Fsck
  returns the report as data: the kind, the sizes, the xattr lines and
  the directory lines.
- `time_to_date` and the date strings are not modelled, because they call
  `localtime`/`strftime`. The three timestamps are decoded and reported
  as numbers.
- The floating-point usage percentages printed by fsck are not modelled.
- `malloc` failure (`-ENOMEM`) is not modelled.
- Integer overflow of C `int` and `long long` is not modelled.
  `LayoutFitsInt32` states when the layout fits an `int`.
- SizeWithUnit: does not model the overflow of `long long` when a unit
  multiplies a large size.
- `numbfs_alloc_inode`/`numbfs_free_inode` are declared in `internal.h`
  but defined in no file of the core, so they are not modelled. For that
  reason mkfs never sets the root inode's bitmap bit, and the model
  keeps that.
- Lib.AllocSpec: does not decrement `free_blocks`, and neither does the
  source's `numbfs_alloc_block`. So no lemma claims that a freshly made
  image passes fsck's block count.
- mkfs passes `&root_nid`, a pointer, where `numbfs_empty_dir` takes an
  `int`. `Mkfs.RootAndSuper` uses `ROOT_NID` for both arguments, which
  is what the call means.
- Lib.SuperblockInfo.EmptyDir: the `BUG_ON` that every `i_data` entry is
  a hole becomes the precondition `AllHoles`.
- `lib.c` is an older version of the library than the prototypes in
  `internal.h`/`test.c`. The model follows the bodies in `lib.c`
  (block-granular `pread`/`pwrite`, `numbfs_inode_blkaddr` with an
  `alloc` flag). `test.c` is not part of this model.
- `numbfs_get_superblock` (`lib.c:60-66`) copies seven fields. Two of
  its names, `s_num_inodes` and `s_nfree_blocks`, are not fields of
  `struct numbfs_super_block`, so the function cannot be compiled as
  written. The model loads every layout field of the record, including
  `s_total_inodes`, `s_free_inodes`, `s_data_blocks` and `s_free_blocks`,
  which fsck needs.
- The big-endian branch of `utils.h` is modelled only in `Utils`, with
  an explicit `ByteOrder` parameter. `Lib`, `Fsck` and `Mkfs` model a
  little-endian host. Two source lines behave differently on a
  big-endian host, and the model does not capture either:
  `mkfs.c:264` stores `s_magic = NUMBFS_MAGIC` without `cpu_to_le32`, so
  `lib.c:55` would refuse every fresh image; and `lib.c:135`/`lib.c:190`
  convert the 32-bit `i_mode` with `le16_to_cpu`/`cpu_to_le16`, which
  takes the wrong half of the field.
- `fsck.c:223` calls `numbfs_pread_inode(ni, buf, i, BYTES_PER_BLOCK)`
  with the byte offset `i`. That is the four-argument `(offset, len)`
  form declared at `internal.h:98-99`. The model reads it in that
  meaning, as logical block `i / 512`. Against the three-argument
  definition at `lib.c:244-245` the call does not compile; with the
  block number taken as `i` it would read block 512 and get `-E2BIG`.
- `numbfs_alloc_block` (`lib.c:77`) loops to `sbi->nfree_blocks`, which
  is not a field of `struct numbfs_superblock_info`. The model uses
  `free_blocks`.
- `lib.c:80`, `91`, `108` and `117` pass the pointer `sbi` where
  `numbfs_bmap_blk` (`internal.h:46`) takes `int startblk`. The model
  uses `bbitmap_start`, which is what the calls mean.
- `numbfs_get_inode` (`lib.c:122-144`) never sets `xattr_start` or
  `xattr_count`, and `struct numbfs_inode_info` (`internal.h:28-40`) has
  no such fields. fsck reads them (`fsck.c:131`, `134`, `141`, `189`), so
  `Lib.Load` and `Lib.InodeInfo.GetInode` fill them from the
  record's `i_xattr_start` and `i_xattr_count`.
- The debug-only checks in `numbfs_dump_inode` (under
  `HAVE_NUMBFS_DEBUG`) are not modelled.
- Mkfs.DecideSize: follows the corrected size guard described under
  Findings, not the guard as written at `mkfs.c:186`. The guard as
  written is `Mkfs.AdmittedAsWritten`.

## Findings

| source | as written | input that shows it | evidently intended | confidence | as-written member | corrected member |
|---|---|---|---|---|---|---|
| mkfs.c:186 | refuses only sizes up to 2·512 + round_up(64n, 512) + 3 bytes, which ignores the bitmaps and the data zone | 8 inodes on a 2048-byte image: the layout gives inode table block 3, data_start 4 and data_blocks = free_blocks = -1, so the first allocation returns block 3, the root inode's table block | refuse every size whose layout leaves no data block inside the image | not executed | Mkfs.AsWrittenAdmitsNoDataZone | Mkfs.AdmittedLayoutFits |
