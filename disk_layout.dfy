/** The NumbFS on-disk format (disk.h): constants and the byte layout of the
    five packed records. Every multi-byte integer is little-endian. */
module DiskLayout {
  import opened Utils

  const NUMBFS_MAGIC: nat := 0x4E55_4D42   // "NUMB"
  /** The first block is reserved; the superblock starts at byte 512. */
  const SUPER_OFFSET: int := BYTES_PER_BLOCK
  /** i_data value of a logical block that has no data block. */
  const HOLE: int := -32
  const ROOT_NID: int := 0
  const NUM_DATA_ENTRY: nat := 10
  const MAX_PATH_LEN: nat := 60
  const XATTR_MAXNAME: nat := 16
  const XATTR_MAXVALUE: nat := 32

  // ---------------------------------------------------------------------
  // Packed records as a list of fields
  // ---------------------------------------------------------------------

  /** How one field of a packed record is stored: an unsigned little-endian
      integer (__u8, __le16, __le32, __le64) or a raw byte array. */
  datatype Field = LeUint(width: nat) | Bytes(width: nat)

  /** The value one field holds. */
  datatype Value = Num(n: nat) | Raw(bytes: seq<byte>)

  predicate Fits(f: Field, v: Value)
  {
    match f
    case LeUint(w) => v.Num? && v.n < Pow256(w)
    case Bytes(w) => v.Raw? && |v.bytes| == w
  }

  predicate Conforms(layout: seq<Field>, vals: seq<Value>)
  {
    |layout| == |vals| && forall k | 0 <= k < |vals| :: Fits(layout[k], vals[k])
  }

  /** sizeof of a packed record. */
  function RecordSize(layout: seq<Field>): nat
  {
    if layout == [] then 0 else layout[0].width + RecordSize(layout[1..])
  }

  /** offsetof the k-th field. */
  function FieldOffset(layout: seq<Field>, k: nat): nat
    requires k <= |layout|
  {
    RecordSize(layout[..k])
  }

  function EncodeField(f: Field, v: Value): (s: seq<byte>)
    requires Fits(f, v)
    ensures |s| == f.width
  {
    match f
    case LeUint(w) => EncodeLE(v.n, w)
    case Bytes(_) => v.bytes
  }

  function DecodeField(f: Field, s: seq<byte>): (v: Value)
    requires |s| == f.width
    ensures Fits(f, v)
  {
    match f
    case LeUint(_) => Num(DecodeLE(s))
    case Bytes(_) => Raw(s)
  }

  /** The bytes of a record whose fields hold `vals`. */
  function Encode(layout: seq<Field>, vals: seq<Value>): (s: seq<byte>)
    requires Conforms(layout, vals)
    ensures |s| == RecordSize(layout)
  {
    if layout == [] then []
    else
      assert Conforms(layout[1..], vals[1..]) by {
        forall k | 0 <= k < |vals| - 1 ensures Fits(layout[1..][k], vals[1..][k]) {
          assert Fits(layout[k + 1], vals[k + 1]);
        }
      }
      EncodeField(layout[0], vals[0]) + Encode(layout[1..], vals[1..])
  }

  /** The field values of a record overlaid on the bytes `s`. */
  function Decode(layout: seq<Field>, s: seq<byte>): (vals: seq<Value>)
    requires |s| == RecordSize(layout)
    ensures Conforms(layout, vals)
  {
    if layout == [] then []
    else
      var w := layout[0].width;
      var rest := Decode(layout[1..], s[w..]);
      var vals := [DecodeField(layout[0], s[..w])] + rest;
      assert forall k | 1 <= k < |vals| :: vals[k] == rest[k - 1] && layout[k] == layout[1..][k - 1];
      vals
  }

  lemma FieldRoundTrip(f: Field, v: Value)
    requires Fits(f, v)
    ensures DecodeField(f, EncodeField(f, v)) == v
  {
    if f.LeUint? {
      DecodeEncodeLE(v.n, f.width);
    }
  }

  lemma FieldOverlay(f: Field, s: seq<byte>)
    requires |s| == f.width
    ensures EncodeField(f, DecodeField(f, s)) == s
  {
    if f.LeUint? {
      EncodeDecodeLE(s);
    }
  }

  /** Decoding the bytes of a record gives its field values back. */
  lemma {:induction false} DecodeEncode(layout: seq<Field>, vals: seq<Value>)
    requires Conforms(layout, vals)
    ensures Decode(layout, Encode(layout, vals)) == vals
  {
    if layout != [] {
      var s := Encode(layout, vals);
      var w := layout[0].width;
      assert s[..w] == EncodeField(layout[0], vals[0]);
      assert s[w..] == Encode(layout[1..], vals[1..]);
      FieldRoundTrip(layout[0], vals[0]);
      DecodeEncode(layout[1..], vals[1..]);
    }
  }

  /** A record is a direct overlay: re-encoding decoded bytes gives them back. */
  lemma {:induction false} EncodeDecode(layout: seq<Field>, s: seq<byte>)
    requires |s| == RecordSize(layout)
    ensures Encode(layout, Decode(layout, s)) == s
  {
    if layout != [] {
      var w := layout[0].width;
      var vals := Decode(layout, s);
      assert vals[1..] == Decode(layout[1..], s[w..]);
      FieldOverlay(layout[0], s[..w]);
      EncodeDecode(layout[1..], s[w..]);
      assert s == s[..w] + s[w..];
    }
  }

  /** Overlaying a record on zeroed bytes gives 0 in every integer field. */
  lemma {:induction false} DecodeZeros(layout: seq<Field>, s: seq<byte>, k: nat)
    requires |s| == RecordSize(layout) && k < |layout| && layout[k].LeUint?
    requires forall i | 0 <= i < |s| :: s[i] == 0
    ensures Decode(layout, s)[k] == Num(0)
  {
    var w := layout[0].width;
    if k == 0 {
      DecodeLEZeros(s[..w]);
    } else {
      DecodeZeros(layout[1..], s[w..], k - 1);
    }
  }

  lemma ConformsRest(layout: seq<Field>, vals: seq<Value>)
    requires Conforms(layout, vals) && layout != []
    ensures Conforms(layout[1..], vals[1..])
  {
    assert forall k | 0 <= k < |vals| - 1 :: layout[1..][k] == layout[k + 1] && vals[1..][k] == vals[k + 1];
  }

  /** An encoded record is its first field followed by the others. */
  lemma EncodeFirst(layout: seq<Field>, vals: seq<Value>)
    requires Conforms(layout, vals) && layout != []
    ensures Conforms(layout[1..], vals[1..])
    ensures Encode(layout, vals) == EncodeField(layout[0], vals[0]) + Encode(layout[1..], vals[1..])
  {
    ConformsRest(layout, vals);
  }

  /** The first field of an encoded record is stored in its first bytes. */
  lemma FirstFieldAt(layout: seq<Field>, vals: seq<Value>)
    requires Conforms(layout, vals) && layout != []
    ensures layout[0].width <= RecordSize(layout)
    ensures Encode(layout, vals)[..layout[0].width] == EncodeField(layout[0], vals[0])
  {
    EncodeFirst(layout, vals);
  }

  // ---------------------------------------------------------------------
  // The five records
  // ---------------------------------------------------------------------

  function Repeat(f: Field, n: nat): (r: seq<Field>)
    ensures |r| == n && forall k | 0 <= k < n :: r[k] == f
  {
    seq(n, _ => f)
  }

  /** struct numbfs_super_block: ten __le32 fields, then 88 reserved bytes. */
  const SUPER_BLOCK_LAYOUT: seq<Field> := Repeat(LeUint(4), 10) + [Bytes(88)]
  /** struct numbfs_inode: i_ino, i_nlink, i_uid, i_gid (__le16); i_mode,
      i_size, i_xattr_start (__le32); i_xattr_count (__u8); reserved2[3];
      i_data[10] (__le32). */
  const INODE_LAYOUT: seq<Field> :=
    Repeat(LeUint(2), 4) + Repeat(LeUint(4), 3) + [LeUint(1), Bytes(3)] + Repeat(LeUint(4), 10)
  /** struct numbfs_dirent: name_len, type (__u8); name[60]; ino (__le16). */
  const DIRENT_LAYOUT: seq<Field> := [LeUint(1), LeUint(1), Bytes(MAX_PATH_LEN), LeUint(2)]
  /** struct numbfs_timestamps: t_atime, t_mtime, t_ctime (__le64); reserved[8]. */
  const TIMESTAMPS_LAYOUT: seq<Field> := Repeat(LeUint(8), 3) + [Bytes(8)]
  /** struct numbfs_xattr_entry: e_valid, e_type, e_nlen, e_vlen (__u8);
      e_name[16]; e_value[32]. */
  const XATTR_ENTRY_LAYOUT: seq<Field> := Repeat(LeUint(1), 4) + [Bytes(XATTR_MAXNAME), Bytes(XATTR_MAXVALUE)]

  const SUPER_BLOCK_SIZE: nat := 128
  const INODE_SIZE: nat := 64
  const DIRENT_SIZE: nat := 64
  const TIMESTAMPS_SIZE: nat := 32
  const XATTR_ENTRY_SIZE: nat := 52

  /** Slots of the xattr table that fit after the timestamp header. */
  const XATTR_MAX_ENTRY: nat := (BYTES_PER_BLOCK - TIMESTAMPS_SIZE) / XATTR_ENTRY_SIZE
  /** The xattr table starts right after the timestamp header. */
  const XATTR_ENTRY_START: nat := TIMESTAMPS_SIZE

  lemma {:induction false} RecordSizeAppend(a: seq<Field>, b: seq<Field>)
    ensures RecordSize(a + b) == RecordSize(a) + RecordSize(b)
  {
    if a == [] {
      assert a + b == b;
    } else {
      assert (a + b)[1..] == a[1..] + b;
      RecordSizeAppend(a[1..], b);
    }
  }

  lemma {:induction false} RecordSizeRepeat(f: Field, n: nat)
    ensures RecordSize(Repeat(f, n)) == n * f.width
  {
    if n > 0 {
      assert Repeat(f, n)[1..] == Repeat(f, n - 1);
      RecordSizeRepeat(f, n - 1);
    }
  }

  /** The sizes the source checks with NUMBFS_BUILD_BUG_ON, and the xattr
      entry size that its struct declares (4 + 16 + 32 bytes). */
  lemma RecordSizes()
    ensures RecordSize(SUPER_BLOCK_LAYOUT) == SUPER_BLOCK_SIZE
    ensures RecordSize(INODE_LAYOUT) == INODE_SIZE
    ensures RecordSize(DIRENT_LAYOUT) == DIRENT_SIZE
    ensures RecordSize(TIMESTAMPS_LAYOUT) == TIMESTAMPS_SIZE
    ensures RecordSize(XATTR_ENTRY_LAYOUT) == XATTR_ENTRY_SIZE
  {
    SuperBlockSize();
    InodeSize();
    DirentSize();
    TimestampsSize();
    XattrEntrySize();
  }

  lemma SuperBlockSize()
    ensures RecordSize(SUPER_BLOCK_LAYOUT) == SUPER_BLOCK_SIZE
  {
    RecordSizeRepeat(LeUint(4), 10);
    RecordSizeAppend(Repeat(LeUint(4), 10), [Bytes(88)]);
  }

  lemma InodeSize()
    ensures RecordSize(INODE_LAYOUT) == INODE_SIZE
  {
    var a := Repeat(LeUint(2), 4);
    var b := Repeat(LeUint(4), 3);
    var c := [LeUint(1), Bytes(3)];
    RecordSizeRepeat(LeUint(2), 4);
    RecordSizeRepeat(LeUint(4), 3);
    RecordSizeRepeat(LeUint(4), 10);
    RecordSizeAppend(a, b);
    RecordSizeAppend(a + b, c);
    RecordSizeAppend(a + b + c, Repeat(LeUint(4), 10));
    assert c[1..] == [Bytes(3)] && c[1..][1..] == [];
    assert RecordSize(c) == 4;
  }

  lemma DirentSize()
    ensures RecordSize(DIRENT_LAYOUT) == DIRENT_SIZE
  {
    var d := DIRENT_LAYOUT;
    assert d[1..] == [LeUint(1), Bytes(MAX_PATH_LEN), LeUint(2)];
    assert d[1..][1..] == [Bytes(MAX_PATH_LEN), LeUint(2)];
    assert d[1..][1..][1..] == [LeUint(2)];
    assert d[1..][1..][1..][1..] == [];
    assert RecordSize(d[1..][1..][1..]) == 2;
    assert RecordSize(d[1..][1..]) == 62;
    assert RecordSize(d[1..]) == 63;
  }

  lemma TimestampsSize()
    ensures RecordSize(TIMESTAMPS_LAYOUT) == TIMESTAMPS_SIZE
  {
    RecordSizeRepeat(LeUint(8), 3);
    RecordSizeAppend(Repeat(LeUint(8), 3), [Bytes(8)]);
  }

  lemma XattrEntrySize()
    ensures RecordSize(XATTR_ENTRY_LAYOUT) == XATTR_ENTRY_SIZE
  {
    RecordSizeRepeat(LeUint(1), 4);
    RecordSizeAppend(Repeat(LeUint(1), 4), [Bytes(XATTR_MAXNAME), Bytes(XATTR_MAXVALUE)]);
    assert [Bytes(XATTR_MAXNAME), Bytes(XATTR_MAXVALUE)][1..] == [Bytes(XATTR_MAXVALUE)];
    assert [Bytes(XATTR_MAXVALUE)][1..] == [];
  }

  /** Offsets inside a record made of two parts. */
  lemma {:induction false} OffsetAfter(a: seq<Field>, b: seq<Field>, k: nat)
    requires k <= |b|
    ensures FieldOffset(a + b, |a| + k) == RecordSize(a) + FieldOffset(b, k)
  {
    assert (a + b)[..|a| + k] == a + b[..k];
    RecordSizeAppend(a, b[..k]);
  }

  lemma OffsetInRepeat(f: Field, n: nat, k: nat)
    requires k <= n
    ensures FieldOffset(Repeat(f, n), k) == k * f.width
  {
    assert Repeat(f, n)[..k] == Repeat(f, k);
    RecordSizeRepeat(f, k);
  }

  /** The values of a sequence of integer fields. */
  function Nums(xs: seq<nat>): (vs: seq<Value>)
    ensures |vs| == |xs| && forall i | 0 <= i < |xs| :: vs[i] == Num(xs[i])
  {
    seq(|xs|, i requires 0 <= i < |xs| => Num(xs[i]))
  }

  // ----- superblock -----

  datatype SuperBlock = SuperBlock(
    magic: nat, feature: nat,
    ibitmapStart: nat, inodeStart: nat, bbitmapStart: nat, dataStart: nat,
    totalInodes: nat, freeInodes: nat, dataBlocks: nat, freeBlocks: nat,
    reserved: seq<byte>)
  {
    function Fields(): seq<nat>
    {
      [magic, feature, ibitmapStart, inodeStart, bbitmapStart, dataStart,
       totalInodes, freeInodes, dataBlocks, freeBlocks]
    }

    predicate Valid()
    {
      (forall k | 0 <= k < 10 :: Fields()[k] < Pow256(4)) && |reserved| == 88
    }
  }

  function SuperBlockValues(sb: SuperBlock): (vs: seq<Value>)
    requires sb.Valid()
    ensures Conforms(SUPER_BLOCK_LAYOUT, vs)
  {
    Nums(sb.Fields()) + [Raw(sb.reserved)]
  }

  function EncodeSuperBlock(sb: SuperBlock): (s: seq<byte>)
    requires sb.Valid()
    ensures |s| == SUPER_BLOCK_SIZE
  {
    RecordSizes();
    Encode(SUPER_BLOCK_LAYOUT, SuperBlockValues(sb))
  }

  function DecodeSuperBlock(s: seq<byte>): (sb: SuperBlock)
    requires |s| == SUPER_BLOCK_SIZE
    ensures sb.Valid()
  {
    RecordSizes();
    var v := Decode(SUPER_BLOCK_LAYOUT, s);
    assert forall k | 0 <= k < 10 :: Fits(LeUint(4), v[k]) by {
      assert forall k | 0 <= k < 10 :: SUPER_BLOCK_LAYOUT[k] == LeUint(4);
    }
    assert Fits(Bytes(88), v[10]) by {
      assert SUPER_BLOCK_LAYOUT[10] == Bytes(88);
    }
    SuperBlock(v[0].n, v[1].n, v[2].n, v[3].n, v[4].n, v[5].n, v[6].n, v[7].n, v[8].n, v[9].n,
               v[10].bytes)
  }

  /** Decoding the 128 bytes of an encoded superblock gives it back. */
  lemma SuperBlockRoundTrip(sb: SuperBlock)
    requires sb.Valid()
    ensures DecodeSuperBlock(EncodeSuperBlock(sb)) == sb
  {
    RecordSizes();
    DecodeEncode(SUPER_BLOCK_LAYOUT, SuperBlockValues(sb));
  }

  /** The superblock is a direct overlay of its 128 bytes. */
  lemma SuperBlockOverlay(s: seq<byte>)
    requires |s| == SUPER_BLOCK_SIZE
    ensures EncodeSuperBlock(DecodeSuperBlock(s)) == s
  {
    RecordSizes();
    var v := Decode(SUPER_BLOCK_LAYOUT, s);
    assert forall k | 0 <= k < 10 :: SUPER_BLOCK_LAYOUT[k] == LeUint(4);
    assert SUPER_BLOCK_LAYOUT[10] == Bytes(88);
    assert SuperBlockValues(DecodeSuperBlock(s)) == v;
    EncodeDecode(SUPER_BLOCK_LAYOUT, s);
  }

  /** Field k of the superblock (magic, feature, the four region starts,
      the four counters, in declaration order) is the __le32 at byte 4k;
      the reserved bytes follow at byte 40. */
  lemma SuperBlockFieldOffsets(k: nat)
    requires k <= 10
    ensures FieldOffset(SUPER_BLOCK_LAYOUT, k) == 4 * k
  {
    if k < 10 {
      OffsetInRepeat(LeUint(4), 10, k);
      assert SUPER_BLOCK_LAYOUT[..k] == Repeat(LeUint(4), 10)[..k];
    } else {
      OffsetInRepeat(LeUint(4), 10, 10);
      assert SUPER_BLOCK_LAYOUT[..10] == Repeat(LeUint(4), 10)[..10];
    }
  }

  // ----- inode -----

  datatype InodeRecord = InodeRecord(
    ino: nat, nlink: nat, uid: nat, gid: nat,
    mode: nat, size: nat, xattrStart: nat, xattrCount: nat,
    reserved: seq<byte>, data: seq<nat>)
  {
    predicate Valid()
    {
      && ino < Pow256(2) && nlink < Pow256(2) && uid < Pow256(2) && gid < Pow256(2)
      && mode < Pow256(4) && size < Pow256(4) && xattrStart < Pow256(4)
      && xattrCount < Pow256(1) && |reserved| == 3
      && |data| == NUM_DATA_ENTRY && forall i | 0 <= i < |data| :: data[i] < Pow256(4)
    }
  }

  lemma InodeLayoutFields()
    ensures |INODE_LAYOUT| == 19
    ensures forall k | 0 <= k < 4 :: INODE_LAYOUT[k] == LeUint(2)
    ensures forall k | 4 <= k < 7 :: INODE_LAYOUT[k] == LeUint(4)
    ensures INODE_LAYOUT[7] == LeUint(1) && INODE_LAYOUT[8] == Bytes(3)
    ensures forall k | 9 <= k < 19 :: INODE_LAYOUT[k] == LeUint(4)
  {
  }

  function InodeValues(r: InodeRecord): (vs: seq<Value>)
    requires r.Valid()
    ensures Conforms(INODE_LAYOUT, vs)
  {
    InodeLayoutFields();
    Nums([r.ino, r.nlink, r.uid, r.gid, r.mode, r.size, r.xattrStart, r.xattrCount])
      + [Raw(r.reserved)] + Nums(r.data)
  }

  function EncodeInode(r: InodeRecord): (s: seq<byte>)
    requires r.Valid()
    ensures |s| == INODE_SIZE
  {
    RecordSizes();
    Encode(INODE_LAYOUT, InodeValues(r))
  }

  function DecodeInode(s: seq<byte>): (r: InodeRecord)
    requires |s| == INODE_SIZE
    ensures r.Valid()
  {
    InodeSize();
    InodeOf(Decode(INODE_LAYOUT, s))
  }

  /** The inode whose nineteen fields hold `v`. */
  function InodeOf(v: seq<Value>): (r: InodeRecord)
    requires Conforms(INODE_LAYOUT, v)
    ensures r.Valid()
  {
    InodeLayoutFields();
    assert forall k | 0 <= k < 19 :: Fits(INODE_LAYOUT[k], v[k]);
    InodeRecord(v[0].n, v[1].n, v[2].n, v[3].n, v[4].n, v[5].n, v[6].n, v[7].n, v[8].bytes,
                seq(NUM_DATA_ENTRY, i requires 0 <= i < NUM_DATA_ENTRY => v[9 + i].n))
  }

  lemma InodeOfValues(v: seq<Value>)
    requires Conforms(INODE_LAYOUT, v)
    ensures InodeValues(InodeOf(v)) == v
  {
    InodeLayoutFields();
    var w := InodeValues(InodeOf(v));
    forall k | 0 <= k < 19 ensures w[k] == v[k] {
      assert Fits(INODE_LAYOUT[k], v[k]);
    }
  }

  /** Decoding the 64 bytes of an encoded inode gives it back, all ten
      data entries included. */
  lemma InodeRoundTrip(r: InodeRecord)
    requires r.Valid()
    ensures DecodeInode(EncodeInode(r)) == r
  {
    RecordSizes();
    DecodeEncode(INODE_LAYOUT, InodeValues(r));
    assert DecodeInode(EncodeInode(r)).data == r.data;
  }

  /** The inode is a direct overlay of its 64 bytes. */
  lemma InodeOverlay(s: seq<byte>)
    requires |s| == INODE_SIZE
    ensures EncodeInode(DecodeInode(s)) == s
  {
    InodeSize();
    InodeOfValues(Decode(INODE_LAYOUT, s));
    EncodeDecode(INODE_LAYOUT, s);
  }

  /** i_ino@0, i_nlink@2, i_uid@4, i_gid@6, i_mode@8, i_size@12,
      i_xattr_start@16, i_xattr_count@20, reserved2@21, i_data[i]@24+4i. */
  lemma InodeFieldOffsets(i: nat)
    requires i <= NUM_DATA_ENTRY
    ensures FieldOffset(INODE_LAYOUT, 0) == 0 && FieldOffset(INODE_LAYOUT, 1) == 2
    ensures FieldOffset(INODE_LAYOUT, 2) == 4 && FieldOffset(INODE_LAYOUT, 3) == 6
    ensures FieldOffset(INODE_LAYOUT, 4) == 8 && FieldOffset(INODE_LAYOUT, 5) == 12
    ensures FieldOffset(INODE_LAYOUT, 6) == 16 && FieldOffset(INODE_LAYOUT, 7) == 20
    ensures FieldOffset(INODE_LAYOUT, 8) == 21
    ensures FieldOffset(INODE_LAYOUT, 9 + i) == 24 + 4 * i
  {
    var a := Repeat(LeUint(2), 4);
    var b := Repeat(LeUint(4), 3);
    var c := [LeUint(1), Bytes(3)];
    var d := Repeat(LeUint(4), 10);
    assert INODE_LAYOUT == a + (b + (c + d));
    RecordSizes();
    RecordSizeRepeat(LeUint(2), 4);
    RecordSizeRepeat(LeUint(4), 3);
    forall k | 0 <= k <= 4 ensures FieldOffset(INODE_LAYOUT, k) == 2 * k {
      OffsetAfter(a, b + (c + d), 0);
      OffsetInRepeat(LeUint(2), 4, k);
      assert INODE_LAYOUT[..k] == a[..k];
    }
    OffsetAfter(a, b + (c + d), 1);
    OffsetAfter(a, b + (c + d), 2);
    OffsetAfter(a, b + (c + d), 3);
    OffsetAfter(a, b + (c + d), 4);
    OffsetAfter(a, b + (c + d), 5 + i);
    forall k | 0 <= k <= 3 ensures FieldOffset(b + (c + d), k) == 4 * k {
      assert (b + (c + d))[..k] == b[..k];
      OffsetInRepeat(LeUint(4), 3, k);
    }
    OffsetAfter(b, c + d, 1);
    OffsetAfter(b, c + d, 2 + i);
    assert (c + d)[..1] == [LeUint(1)];
    assert RecordSize([LeUint(1)]) == 1;
    RecordSizeAppend([LeUint(1)], [Bytes(3)]);
    assert RecordSize(c) == 4;
    OffsetAfter(c, d, i);
    OffsetInRepeat(LeUint(4), 10, i);
  }

  // ----- directory entry -----

  datatype Dirent = Dirent(nameLen: nat, dtype: nat, name: seq<byte>, ino: nat)
  {
    predicate Valid()
    {
      nameLen < Pow256(1) && dtype < Pow256(1) && |name| == MAX_PATH_LEN && ino < Pow256(2)
    }
  }

  function DirentValues(d: Dirent): (vs: seq<Value>)
    requires d.Valid()
    ensures Conforms(DIRENT_LAYOUT, vs)
  {
    [Num(d.nameLen), Num(d.dtype), Raw(d.name), Num(d.ino)]
  }

  function EncodeDirent(d: Dirent): (s: seq<byte>)
    requires d.Valid()
    ensures |s| == DIRENT_SIZE
  {
    RecordSizes();
    Encode(DIRENT_LAYOUT, DirentValues(d))
  }

  function DecodeDirent(s: seq<byte>): (d: Dirent)
    requires |s| == DIRENT_SIZE
    ensures d.Valid()
  {
    RecordSizes();
    var v := Decode(DIRENT_LAYOUT, s);
    assert Fits(DIRENT_LAYOUT[0], v[0]) && Fits(DIRENT_LAYOUT[1], v[1]);
    assert Fits(DIRENT_LAYOUT[2], v[2]) && Fits(DIRENT_LAYOUT[3], v[3]);
    Dirent(v[0].n, v[1].n, v[2].bytes, v[3].n)
  }

  lemma DirentRoundTrip(d: Dirent)
    requires d.Valid()
    ensures DecodeDirent(EncodeDirent(d)) == d
  {
    RecordSizes();
    DecodeEncode(DIRENT_LAYOUT, DirentValues(d));
  }

  lemma DirentOverlay(s: seq<byte>)
    requires |s| == DIRENT_SIZE
    ensures EncodeDirent(DecodeDirent(s)) == s
  {
    RecordSizes();
    var v := Decode(DIRENT_LAYOUT, s);
    assert Fits(DIRENT_LAYOUT[0], v[0]) && Fits(DIRENT_LAYOUT[1], v[1]);
    assert Fits(DIRENT_LAYOUT[2], v[2]) && Fits(DIRENT_LAYOUT[3], v[3]);
    assert DirentValues(DecodeDirent(s)) == v;
    EncodeDecode(DIRENT_LAYOUT, s);
  }

  /** name_len@0, type@1, name@2 (60 bytes), ino@62. */
  lemma DirentFieldOffsets()
    ensures FieldOffset(DIRENT_LAYOUT, 0) == 0 && FieldOffset(DIRENT_LAYOUT, 1) == 1
    ensures FieldOffset(DIRENT_LAYOUT, 2) == 2 && FieldOffset(DIRENT_LAYOUT, 3) == 62
  {
    var d := DIRENT_LAYOUT;
    assert d[..0] == [];
    assert d[..1] == [LeUint(1)] && d[..1][1..] == [];
    assert d[..2] == [LeUint(1), LeUint(1)] && d[..2][1..] == [LeUint(1)];
    assert d[..3] == d[..2] + [Bytes(MAX_PATH_LEN)];
    RecordSizeAppend(d[..2], [Bytes(MAX_PATH_LEN)]);
    assert RecordSize([Bytes(MAX_PATH_LEN)]) == 60;
  }

  // ----- timestamp header -----

  datatype Timestamps = Timestamps(atime: nat, mtime: nat, ctime: nat, reserved: seq<byte>)
  {
    predicate Valid()
    {
      atime < Pow256(8) && mtime < Pow256(8) && ctime < Pow256(8) && |reserved| == 8
    }
  }

  function TimestampsValues(t: Timestamps): (vs: seq<Value>)
    requires t.Valid()
    ensures Conforms(TIMESTAMPS_LAYOUT, vs)
  {
    [Num(t.atime), Num(t.mtime), Num(t.ctime), Raw(t.reserved)]
  }

  function EncodeTimestamps(t: Timestamps): (s: seq<byte>)
    requires t.Valid()
    ensures |s| == TIMESTAMPS_SIZE
  {
    RecordSizes();
    Encode(TIMESTAMPS_LAYOUT, TimestampsValues(t))
  }

  function DecodeTimestamps(s: seq<byte>): (t: Timestamps)
    requires |s| == TIMESTAMPS_SIZE
    ensures t.Valid()
  {
    RecordSizes();
    var v := Decode(TIMESTAMPS_LAYOUT, s);
    assert Fits(TIMESTAMPS_LAYOUT[0], v[0]) && Fits(TIMESTAMPS_LAYOUT[1], v[1]);
    assert Fits(TIMESTAMPS_LAYOUT[2], v[2]) && Fits(TIMESTAMPS_LAYOUT[3], v[3]);
    Timestamps(v[0].n, v[1].n, v[2].n, v[3].bytes)
  }

  lemma TimestampsRoundTrip(t: Timestamps)
    requires t.Valid()
    ensures DecodeTimestamps(EncodeTimestamps(t)) == t
  {
    RecordSizes();
    DecodeEncode(TIMESTAMPS_LAYOUT, TimestampsValues(t));
  }

  lemma TimestampsOverlay(s: seq<byte>)
    requires |s| == TIMESTAMPS_SIZE
    ensures EncodeTimestamps(DecodeTimestamps(s)) == s
  {
    RecordSizes();
    var v := Decode(TIMESTAMPS_LAYOUT, s);
    assert Fits(TIMESTAMPS_LAYOUT[0], v[0]) && Fits(TIMESTAMPS_LAYOUT[1], v[1]);
    assert Fits(TIMESTAMPS_LAYOUT[2], v[2]) && Fits(TIMESTAMPS_LAYOUT[3], v[3]);
    assert TimestampsValues(DecodeTimestamps(s)) == v;
    EncodeDecode(TIMESTAMPS_LAYOUT, s);
  }

  // ----- extended-attribute entry -----

  datatype XattrEntry = XattrEntry(valid: nat, etype: nat, nlen: nat, vlen: nat,
                                   name: seq<byte>, value: seq<byte>)
  {
    predicate Valid()
    {
      && valid < Pow256(1) && etype < Pow256(1) && nlen < Pow256(1) && vlen < Pow256(1)
      && |name| == XATTR_MAXNAME && |value| == XATTR_MAXVALUE
    }
  }

  function XattrValues(e: XattrEntry): (vs: seq<Value>)
    requires e.Valid()
    ensures Conforms(XATTR_ENTRY_LAYOUT, vs)
  {
    [Num(e.valid), Num(e.etype), Num(e.nlen), Num(e.vlen), Raw(e.name), Raw(e.value)]
  }

  function EncodeXattr(e: XattrEntry): (s: seq<byte>)
    requires e.Valid()
    ensures |s| == XATTR_ENTRY_SIZE
  {
    RecordSizes();
    Encode(XATTR_ENTRY_LAYOUT, XattrValues(e))
  }

  function DecodeXattr(s: seq<byte>): (e: XattrEntry)
    requires |s| == XATTR_ENTRY_SIZE
    ensures e.Valid()
  {
    RecordSizes();
    var v := Decode(XATTR_ENTRY_LAYOUT, s);
    assert forall k | 0 <= k < 6 :: Fits(XATTR_ENTRY_LAYOUT[k], v[k]);
    XattrEntry(v[0].n, v[1].n, v[2].n, v[3].n, v[4].bytes, v[5].bytes)
  }

  lemma XattrRoundTrip(e: XattrEntry)
    requires e.Valid()
    ensures DecodeXattr(EncodeXattr(e)) == e
  {
    RecordSizes();
    DecodeEncode(XATTR_ENTRY_LAYOUT, XattrValues(e));
  }

  lemma XattrOverlay(s: seq<byte>)
    requires |s| == XATTR_ENTRY_SIZE
    ensures EncodeXattr(DecodeXattr(s)) == s
  {
    RecordSizes();
    var v := Decode(XATTR_ENTRY_LAYOUT, s);
    assert forall k | 0 <= k < 6 :: Fits(XATTR_ENTRY_LAYOUT[k], v[k]);
    assert XattrValues(DecodeXattr(s)) == v;
    EncodeDecode(XATTR_ENTRY_LAYOUT, s);
  }

  /** Byte offset of xattr slot i in its block: the table starts after
      the timestamp header, and all XATTR_MAX_ENTRY (= 9) slots end
      inside the block. */
  function XattrSlotOffset(i: nat): (off: nat)
    requires i < XATTR_MAX_ENTRY
    ensures TIMESTAMPS_SIZE <= off && off + XATTR_ENTRY_SIZE <= BYTES_PER_BLOCK
  {
    XATTR_ENTRY_START + i * XATTR_ENTRY_SIZE
  }

  /** The xattr table holds nine slots and leaves 12 bytes of the block
      unused: the entry is 52 bytes, not 56. */
  lemma XattrTableFits()
    ensures XATTR_MAX_ENTRY == 9
    ensures XATTR_ENTRY_START + XATTR_MAX_ENTRY * XATTR_ENTRY_SIZE == BYTES_PER_BLOCK - 12
  {
  }
}
