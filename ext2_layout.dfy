/** The fixed binary layout the ext2 driver reads and writes: the
    superblock at byte 1024, the block group descriptor table, the
    128-byte inode record, and the arithmetic that places them on the
    device. Every field is little-endian, as on the x86 the driver runs on. */
module Ext2Layout {
  import opened Bytes

  const SuperOffset: nat := 1024
  const SuperSize: nat := 1024
  const DescriptorSize: nat := 32
  const InodeSize: nat := 128
  /** Direct block pointers, and the index of the singly-indirect one. */
  const Direct: nat := 12
  const PointerCount: nat := 15
  const PointersAt: nat := 40

  const TypeMask: nat := 0xF000
  const DirMode: nat := 0x4000
  const FileMode: nat := 0x8000
  const SymlinkMode: nat := 0xA000

  function Pow2(k: nat): (r: nat)
    ensures r >= 1
  {
    if k == 0 then 1 else 2 * Pow2(k - 1)
  }

  lemma {:induction false} Pow2Grows(k: nat, m: nat)
    requires k <= m
    ensures Pow2(k) <= Pow2(m)
    decreases m
  {
    if k < m {
      Pow2Grows(k, m - 1);
    }
  }

  /** `get_block_size`: `1024 << blockSizeShift` in a `uint32_t`. The x86
      shift instruction uses the count modulo 32, and a block size of
      2^32 or more wraps to 0. */
  function BlockSize(shift: nat): (r: nat)
    ensures r < Two32
  {
    U32(1024 * Pow2(shift % 32))
  }

  /** Shifts up to 21 give the true power of two, at most 2 GiB. */
  lemma BlockSizePower(shift: nat)
    requires shift <= 21
    ensures BlockSize(shift) == 1024 * Pow2(shift) <= Two31
  {
    Pow2Small(shift);
    ShiftInRange(shift);
  }

  /** Below 32 the count is taken as it is. */
  lemma ShiftInRange(shift: nat)
    requires shift < 32
    ensures BlockSize(shift) == U32(1024 * Pow2(shift))
  {
    var e := shift % 32;
    assert e == shift;
  }

  lemma Pow2Small(k: nat)
    requires k <= 21
    ensures 1024 * Pow2(k) <= Two31
  {
    Pow2Grows(k, 21);
    Pow2Of21();
  }

  lemma Pow2Of21()
    ensures Pow2(21) == 0x20_0000
  {
    assert Pow2(5) == 32;
    assert Pow2(10) == 1024;
    assert Pow2(15) == 32768;
  }

  /** Every block size is a whole number of 512-byte sectors. */
  lemma BlockSizeSectors(shift: nat)
    ensures BlockSize(shift) % 512 == 0
  {
    var p := 1024 * Pow2(shift % 32);
    assert p == 512 * (2 * Pow2(shift % 32));
    assert Two32 == 512 * 0x80_0000;
    assert p % Two32 == p - Two32 * (p / Two32);
    assert p - Two32 * (p / Two32) == 512 * (2 * Pow2(shift % 32) - 0x80_0000 * (p / Two32));
  }

  /** `divisionRoundUp`: `(n + d - 1) / d` on `uint32_t`. */
  function DivisionRoundUp(n: nat, d: nat): (r: nat)
    requires n < Two32 && 0 < d < Two32
  {
    U32(n + d - 1) / d
  }

  /** Without wrap-around it is the ceiling of n / d: the least number
      of groups of d that hold n. */
  lemma DivisionRoundUpCeil(n: nat, d: nat)
    requires 0 < d < Two32 && n + d - 1 < Two32
    ensures DivisionRoundUp(n, d) * d >= n
    ensures DivisionRoundUp(n, d) == 0 || (DivisionRoundUp(n, d) - 1) * d < n
  {
    var r := (n + d - 1) / d;
    assert r * d <= n + d - 1 < r * d + d;
  }

  /** The fields of the superblock the driver uses. */
  datatype Super = Super(totalInodes: nat, totalBlocks: nat, shift: nat,
                         blocksPerGroup: nat, inodesPerGroup: nat)

  /** `SuperBlock`: inode count @0, block count @4, block size shift @24,
      blocks per group @32, inodes per group @40. */
  function DecodeSuper(b: seq<byte>): (s: Super)
    requires |b| == SuperSize
    ensures s.totalBlocks < Two32 && s.blocksPerGroup < Two32 && s.inodesPerGroup < Two32
    ensures s.shift < Two32
  {
    Super(LE32(b, 0), LE32(b, 4), LE32(b, 24), LE32(b, 32), LE32(b, 40))
  }

  /** One block group descriptor. */
  datatype Group = Group(blockUsage: nat, inodeUsage: nat, inodeTable: nat,
                         freeBlocks: nat, freeInodes: nat)

  /** `BlockGroupDescriptor`: block bitmap @0, inode bitmap @4, inode
      table @8, free block count @12, free inode count @14. */
  function DecodeGroup(b: seq<byte>, off: nat): (g: Group)
    requires off + DescriptorSize <= |b|
    ensures g.blockUsage < Two32 && g.inodeUsage < Two32 && g.inodeTable < Two32
  {
    Group(LE32(b, off), LE32(b, off + 4), LE32(b, off + 8), LE16(b, off + 12), LE16(b, off + 14))
  }

  /** The descriptor table: descriptor `g` is the 32 bytes at `32 * g`. */
  function DecodeGroups(b: seq<byte>, n: nat): (t: seq<Group>)
    requires n * DescriptorSize <= |b|
    ensures |t| == n
    ensures forall g | 0 <= g < n :: t[g] == DecodeGroup(b, g * DescriptorSize)
  {
    seq(n, g requires 0 <= g < n => DecodeGroup(b, g * DescriptorSize))
  }

  /** Where mount reads the descriptor table: block 2 for 1 KiB blocks,
      block 1 otherwise. */
  function TableAddress(blockSize: nat): (r: nat)
    ensures blockSize == 1024 ==> r == 2048
    ensures blockSize != 1024 ==> r == blockSize
  {
    if blockSize == 1024 then 2 * blockSize else blockSize
  }

  /** `getInodeTableOffset(n)` and the same sum in the `Node`
      constructor: group `(n-1) / ipg`, slot `(n-1) % ipg` of that
      group's inode table, all in `uint32_t`. */
  function InodeOffset(table: seq<Group>, ipg: nat, blockSize: nat, n: nat): (r: nat)
    requires 0 < ipg && n < Two32
    requires U32(n - 1) / ipg < |table|
    ensures r < Two32
  {
    var index := U32(n - 1);
    var base := U32(table[index / ipg].inodeTable * blockSize);
    U32(base + (index % ipg) * InodeSize)
  }

  /** For an inode number from 1 on and sums that fit in 32 bits, the
      record is slot `(n-1) % ipg` of the table of group `(n-1) / ipg`. */
  lemma InodeOffsetPlain(table: seq<Group>, ipg: nat, blockSize: nat, n: nat)
    requires 0 < ipg && 1 <= n < Two32 && (n - 1) / ipg < |table|
    requires table[(n - 1) / ipg].inodeTable * blockSize + ipg * InodeSize <= Two32
    ensures InodeOffset(table, ipg, blockSize, n)
         == table[(n - 1) / ipg].inodeTable * blockSize + ((n - 1) % ipg) * InodeSize
  {
    var t := table[(n - 1) / ipg].inodeTable * blockSize;
    var slot := (n - 1) % ipg;
    assert U32(n - 1) == n - 1;
    assert slot < ipg;
    assert slot * InodeSize < ipg * InodeSize;
    assert U32(t) == t;
    assert InodeOffset(table, ipg, blockSize, n) == U32(t + slot * InodeSize);
  }

  /** Two inode numbers of the same group have records that do not
      overlap. */
  lemma InodeRecordsApart(table: seq<Group>, ipg: nat, blockSize: nat, n: nat, m: nat)
    requires 0 < ipg && 1 <= n < Two32 && 1 <= m < Two32 && n != m
    requires (n - 1) / ipg == (m - 1) / ipg < |table|
    requires table[(n - 1) / ipg].inodeTable * blockSize + ipg * InodeSize <= Two32
    ensures var a, b := InodeOffset(table, ipg, blockSize, n), InodeOffset(table, ipg, blockSize, m);
      a + InodeSize <= b || b + InodeSize <= a
  {
    InodeOffsetPlain(table, ipg, blockSize, n);
    InodeOffsetPlain(table, ipg, blockSize, m);
    var q := (n - 1) / ipg;
    var sn, sm := (n - 1) % ipg, (m - 1) % ipg;
    DivMod(n - 1, ipg);
    DivMod(m - 1, ipg);
    assert sn != sm;
  }

  lemma DivMod(a: nat, d: nat)
    requires d > 0
    ensures a == (a / d) * d + a % d && a % d < d
  {
  }

  /** The fields of an in-memory `Inode` record (128 bytes). */
  function Mode(r: seq<byte>): (m: nat)
    requires |r| == InodeSize
    ensures m < Two16
  {
    LE16(r, 0)
  }

  function SizeOf(r: seq<byte>): (s: nat)
    requires |r| == InodeSize
    ensures s < Two32
  {
    LE32(r, 4)
  }

  function Links(r: seq<byte>): (l: nat)
    requires |r| == InodeSize
    ensures l < Two16
  {
    LE16(r, 26)
  }

  /** `blockAddresses[i]`: twelve direct pointers, the singly-indirect
      one at 12, and two more the driver never follows. */
  function Pointer(r: seq<byte>, i: nat): (p: nat)
    requires |r| == InodeSize && i < PointerCount
    ensures p < Two32
  {
    LE32(r, PointersAt + 4 * i)
  }

  /** The record with pointer `i` set to `v`. */
  function SetPointer(r: seq<byte>, i: nat, v: int): (t: seq<byte>)
    requires |r| == InodeSize && i < PointerCount
    ensures |t| == InodeSize
  {
    Splice(r, PointersAt + 4 * i, Bytes32(v))
  }

  /** The record with the size field set to `v`. */
  function SetSize(r: seq<byte>, v: nat): (t: seq<byte>)
    requires |r| == InodeSize
    ensures |t| == InodeSize
  {
    Splice(r, 4, Bytes32(v))
  }

  /** Setting a pointer changes that pointer, and no other field. */
  lemma SetPointerFields(r: seq<byte>, i: nat, v: int)
    requires |r| == InodeSize && i < PointerCount
    ensures Pointer(SetPointer(r, i, v), i) == U32(v)
    ensures forall j | 0 <= j < PointerCount && j != i :: Pointer(SetPointer(r, i, v), j) == Pointer(r, j)
    ensures Mode(SetPointer(r, i, v)) == Mode(r) && SizeOf(SetPointer(r, i, v)) == SizeOf(r)
    ensures Links(SetPointer(r, i, v)) == Links(r)
  {
    var t := SetPointer(r, i, v);
    LE32Bytes32(r, PointersAt + 4 * i, v);
    SpliceAt(r, PointersAt + 4 * i, Bytes32(v));
    forall j | 0 <= j < PointerCount && j != i
      ensures Pointer(t, j) == Pointer(r, j)
    {
      var o := PointersAt + 4 * j;
      assert t[o..o + 4] == r[o..o + 4];
      LE32Local(t, r, o, o);
    }
    assert t[0..2] == r[0..2] && t[4..8] == r[4..8] && t[26..28] == r[26..28];
    LE16Local(t, r, 0, 0);
    LE32Local(t, r, 4, 4);
    LE16Local(t, r, 26, 26);
  }

  /** Setting the size changes the size, and no other field. */
  lemma SetSizeFields(r: seq<byte>, v: nat)
    requires |r| == InodeSize
    ensures SizeOf(SetSize(r, v)) == U32(v)
    ensures forall j | 0 <= j < PointerCount :: Pointer(SetSize(r, v), j) == Pointer(r, j)
    ensures Mode(SetSize(r, v)) == Mode(r) && Links(SetSize(r, v)) == Links(r)
  {
    var t := SetSize(r, v);
    LE32Bytes32(r, 4, v);
    SpliceAt(r, 4, Bytes32(v));
    forall j | 0 <= j < PointerCount
      ensures Pointer(t, j) == Pointer(r, j)
    {
      var o := PointersAt + 4 * j;
      assert t[o..o + 4] == r[o..o + 4];
      LE32Local(t, r, o, o);
    }
    assert t[0..2] == r[0..2] && t[26..28] == r[26..28];
    LE16Local(t, r, 0, 0);
    LE16Local(t, r, 26, 26);
  }

  /** The node type, `typesAndPermissions & 0xF000`: the top four bits
      of the 16-bit mode, that is, the multiple of 0x1000 just below it. */
  function Kind(mode: nat): (k: nat)
    requires mode < Two16
    ensures k % 0x1000 == 0 && k <= mode < k + 0x1000
  {
    (mode / 0x1000) * 0x1000
  }

  predicate IsDir(kind: nat) { kind == DirMode }
  predicate IsFile(kind: nat) { kind == FileMode }
  predicate IsSymlink(kind: nat) { kind == SymlinkMode }

  /** A node is at most one of directory, file and link, and each mode
      with the type's high nibble is of that type. */
  lemma KindsExclusive(mode: nat)
    requires mode < Two16
    ensures !(IsDir(Kind(mode)) && IsFile(Kind(mode)))
    ensures !(IsDir(Kind(mode)) && IsSymlink(Kind(mode)))
    ensures !(IsFile(Kind(mode)) && IsSymlink(Kind(mode)))
    ensures IsDir(Kind(mode)) <==> mode / 0x1000 == 4
    ensures IsFile(Kind(mode)) <==> mode / 0x1000 == 8
    ensures IsSymlink(Kind(mode)) <==> mode / 0x1000 == 10
  {
  }
}
