/** A node's data as the ext2 driver reaches it: the blocks behind the
    twelve direct pointers and the singly-indirect one, and the write
    path that allocates direct blocks on demand, stores the bytes on the
    device and writes the 128-byte inode record back. */
module Ext2Node {
  import opened Bytes
  import opened Device
  import opened Ext2Layout
  import opened Ext2Bitmap

  /** The block that data offset `cur` falls in, `cur / bs`. */
  function BlockIndex(cur: nat, bs: nat): (b: nat)
    requires bs > 0
    ensures b == cur / bs
  {
    cur / bs
  }

  /** What a mounted file system knows of its shape. */
  datatype Geometry = Geometry(blockSize: nat, blocksPerGroup: nat, inodesPerGroup: nat, table: seq<Group>)

  /** Inode `number` falls in a group of the descriptor table. */
  predicate Located(geo: Geometry, number: nat)
  {
    0 < geo.inodesPerGroup && number < Two32 && U32(number - 1) / geo.inodesPerGroup < |geo.table|
  }

  /** `getInodeTableOffset(number)`. */
  function RecordOffset(geo: Geometry, number: nat): (o: nat)
    requires Located(geo, number)
    ensures o < Two32
  {
    InodeOffset(geo.table, geo.inodesPerGroup, geo.blockSize, number)
  }

  // ---------------------------------------------------------------
  // Reading

  /** The block number `read_block(i)` ends up reading: direct pointer
      `i` below 12; from 12 on, entry `i - 12` of the pointer table in
      the block that `blockAddresses[12]` names. The table has
      `bs / 4` entries and nothing checks `i` against that. */
  function BlockAt(disk: seq<byte>, raw: seq<byte>, bs: nat, i: nat): (b: nat)
    requires |raw| == InodeSize && (i >= Direct ==> 4 * (i - Direct) + 4 <= bs)
    ensures b < Two32
  {
    if i < Direct then Pointer(raw, i)
    else LE32(Read(disk, U32(Pointer(raw, Direct) * bs), bs), 4 * (i - Direct))
  }

  /** `read_block(i)`: the `bs` bytes at byte `blockAddress * bs`, the
      product taken in 32 bits. */
  function ReadBlock(disk: seq<byte>, raw: seq<byte>, bs: nat, i: nat): (b: seq<byte>)
    requires |raw| == InodeSize && (i >= Direct ==> 4 * (i - Direct) + 4 <= bs)
    ensures |b| == bs
  {
    Read(disk, U32(BlockAt(disk, raw, bs, i) * bs), bs)
  }

  /** Every byte of the node lies in a block `read_block` can reach. */
  predicate Addressable(raw: seq<byte>, bs: nat)
  {
    |raw| == InodeSize && bs > 0 && SizeOf(raw) <= (Direct + bs / 4) * bs
  }

  lemma InRange(raw: seq<byte>, bs: nat, j: nat)
    requires Addressable(raw, bs) && j < SizeOf(raw)
    ensures j / bs >= Direct ==> 4 * (j / bs - Direct) + 4 <= bs
  {
    var q := j / bs;
    assert q * bs <= j;
    if q >= Direct + bs / 4 {
      MulLe(Direct + bs / 4, q, bs);
      assert false;
    }
  }

  /** Byte `j` of the node: byte `j % bs` of block `j / bs`. */
  function ByteAt(disk: seq<byte>, raw: seq<byte>, bs: nat, j: nat): byte
    requires Addressable(raw, bs) && j < SizeOf(raw)
  {
    InRange(raw, bs, j);
    ReadBlock(disk, raw, bs, j / bs)[j % bs]
  }

  /** The node's data: `size_in_bytes()` bytes, block after block. */
  function Content(disk: seq<byte>, raw: seq<byte>, bs: nat): (c: seq<byte>)
    requires Addressable(raw, bs)
    ensures |c| == SizeOf(raw)
  {
    seq(SizeOf(raw), j requires 0 <= j < SizeOf(raw) => ByteAt(disk, raw, bs, j))
  }

  /** Byte `j` of block `i` is byte `i * bs + j` of the data. */
  lemma ContentBlocks(disk: seq<byte>, raw: seq<byte>, bs: nat, i: nat, j: nat)
    requires Addressable(raw, bs) && j < bs && i * bs + j < SizeOf(raw)
    ensures i >= Direct ==> 4 * (i - Direct) + 4 <= bs
    ensures Content(disk, raw, bs)[i * bs + j] == ReadBlock(disk, raw, bs, i)[j]
  {
    SlotOfNumber(i, j, bs);
    InRange(raw, bs, i * bs + j);
  }

  /** What a `read_all(off, n)` of the data hands back: the bytes from
      `off` on, cut at `n` and at the end of the data. */
  function Window(c: seq<byte>, off: nat, n: nat): (r: seq<byte>)
    ensures |r| <= n
    ensures off + n <= |c| ==> r == c[off..off + n]
    ensures off >= |c| ==> r == []
  {
    var lo := if off < |c| then off else |c|;
    var hi := if off + n < |c| then off + n else |c|;
    c[lo..hi]
  }

  // ---------------------------------------------------------------
  // Writing

  /** The state a node write touches: the device, the block bitmaps and
      the node's in-memory inode record. */
  datatype Image = Image(disk: seq<byte>, blocks: seq<seq<bv8>>, raw: seq<byte>)

  predicate Shaped(im: Image, geo: Geometry)
  {
    |im.raw| == InodeSize && geo.blockSize > 0
  }

  /** Direct block `b` before it is written: when its pointer is 0 a
      block is allocated and the allocation's result stored in the
      pointer unchecked, so a failed allocation stores -1, that is
      0xFFFFFFFF. */
  function Claim(im: Image, geo: Geometry, b: nat): (r: Image)
    requires Shaped(im, geo) && b < Direct
    ensures Shaped(r, geo) && r.disk == im.disk && |r.blocks| == |im.blocks|
  {
    if Pointer(im.raw, b) != 0 then im
    else
      var a := Allocate(im.blocks, 0, geo.blocksPerGroup);
      im.(blocks := a.maps, raw := SetPointer(im.raw, b, a.result))
  }

  /** The device address of data offset `cur` once its block has a
      pointer: `blockAddress * bs + cur % bs`, in 32 bits. */
  function Address(c: Image, geo: Geometry, cur: nat): nat
    requires |c.raw| == InodeSize && geo.blockSize > 0 && cur / geo.blockSize < Direct
  {
    U32(Pointer(c.raw, BlockIndex(cur, geo.blockSize)) * geo.blockSize + cur % geo.blockSize)
  }

  /** How many bytes the device write at `cur` takes. */
  function Took(im: Image, geo: Geometry, cur: nat, src: seq<byte>): (k: nat)
    requires Shaped(im, geo) && cur / geo.blockSize < Direct
    ensures k <= |src| && (|src| > 0 ==> k >= 1)
  {
    WriteCount(Address(Claim(im, geo, BlockIndex(cur, geo.blockSize)), geo, cur), |src|)
  }

  /** One pass of the loop: claim the block, then write what the device
      takes at its address. */
  function Step(im: Image, geo: Geometry, cur: nat, src: seq<byte>): (r: Image)
    requires Shaped(im, geo) && cur / geo.blockSize < Direct
    ensures Shaped(r, geo) && |r.disk| == |im.disk| && |r.blocks| == |im.blocks|
  {
    var c := Claim(im, geo, BlockIndex(cur, geo.blockSize));
    c.(disk := Store(c.disk, Address(c, geo, cur), src[..Took(im, geo, cur, src)]))
  }

  /** The loop of `Node::write_all` from data offset `cur` with `src`
      left to write; None is its panic on a block index of 12 or more.
      The offset advances in 32 bits. */
  function WriteLoop(im: Image, geo: Geometry, cur: nat, src: seq<byte>): (r: Option<Image>)
    requires Shaped(im, geo) && cur < Two32
    ensures r.Some? ==> Shaped(r.value, geo) && |r.value.disk| == |im.disk| && |r.value.blocks| == |im.blocks|
    decreases |src|
  {
    if |src| == 0 then Some(im)
    else if cur / geo.blockSize >= Direct then None
    else
      var k := Took(im, geo, cur, src);
      WriteLoop(Step(im, geo, cur, src), geo, U32(cur + k), src[k..])
  }

  /** One pass of the loop, with its count and new image named. */
  lemma WriteLoopStep(im: Image, geo: Geometry, cur: nat, src: seq<byte>, k: nat, next: Image)
    requires Shaped(im, geo) && cur < Two32 && cur / geo.blockSize < Direct && |src| > 0
    requires k == Took(im, geo, cur, src) && next == Step(im, geo, cur, src)
    ensures Shaped(next, geo) && k <= |src|
    ensures WriteLoop(im, geo, cur, src) == WriteLoop(next, geo, U32(cur + k), src[k..])
  {
    if Pointer(im.raw, BlockIndex(cur, geo.blockSize)) != 0 {
      WriteLoopStepHeld(im, geo, cur, src, k, next);
    } else {
      WriteLoopStepHole(im, geo, cur, src, k, next);
    }
  }

  lemma WriteLoopStepHeld(im: Image, geo: Geometry, cur: nat, src: seq<byte>, k: nat, next: Image)
    requires Shaped(im, geo) && cur < Two32 && cur / geo.blockSize < Direct && |src| > 0
    requires Pointer(im.raw, BlockIndex(cur, geo.blockSize)) != 0
    requires k == Took(im, geo, cur, src) && next == Step(im, geo, cur, src)
    ensures WriteLoop(im, geo, cur, src) == WriteLoop(next, geo, U32(cur + k), src[k..])
  {
  }

  lemma WriteLoopStepHole(im: Image, geo: Geometry, cur: nat, src: seq<byte>, k: nat, next: Image)
    requires Shaped(im, geo) && cur < Two32 && cur / geo.blockSize < Direct && |src| > 0
    requires Pointer(im.raw, BlockIndex(cur, geo.blockSize)) == 0
    requires k == Took(im, geo, cur, src) && next == Step(im, geo, cur, src)
    ensures WriteLoop(im, geo, cur, src) == WriteLoop(next, geo, U32(cur + k), src[k..])
  {
  }

  /** The record with its size updated after writing `n` bytes at
      `off`: `addedBytes = (off + n) - size` in 32 bits read as an
      `int`, added only when positive. */
  function Resized(raw: seq<byte>, off: nat, n: nat): (r: seq<byte>)
    requires |raw| == InodeSize
    ensures |r| == InodeSize
  {
    var added := I32(U32(off + n - SizeOf(raw)));
    if added > 0 then SetSize(raw, SizeOf(raw) + added) else raw
  }

  /** `Node::write_all(off, src, n)` for inode `number`: None when it
      panics. It panics when `off` is past the end; the loop runs only
      when `n`, taken as an `int`, is positive; then the size is updated
      and the record written back with `Ext2::write_all`. */
  function NodeWrite(im: Image, geo: Geometry, number: nat, off: nat, src: seq<byte>): (r: Option<Image>)
    requires Shaped(im, geo) && Located(geo, number) && off < Two32 && |src| < Two32
    ensures r.Some? ==> Shaped(r.value, geo) && |r.value.disk| == |im.disk| && |r.value.blocks| == |im.blocks|
  {
    if off > SizeOf(im.raw) then None
    else
      var w := if 0 < |src| < Two31 then WriteLoop(im, geo, off, src) else Some(im);
      match w
      case None => None
      case Some(m) =>
        var raw := Resized(m.raw, off, |src|);
        Some(m.(raw := raw, disk := Spread(m.disk, RecordOffset(geo, number), raw)))
  }

  // ---------------------------------------------------------------
  // What a write does

  /** `b` has the type, size and link count of `a`, and every pointer
      of `a` except the direct ones that were 0. */
  predicate Keeps(a: seq<byte>, b: seq<byte>)
    requires |a| == InodeSize && |b| == InodeSize
  {
    Mode(b) == Mode(a) && SizeOf(b) == SizeOf(a) && Links(b) == Links(a) &&
    forall i | 0 <= i < PointerCount && (i >= Direct || Pointer(a, i) != 0) :: Pointer(b, i) == Pointer(a, i)
  }

  lemma KeepsTrans(a: seq<byte>, b: seq<byte>, c: seq<byte>)
    requires |a| == InodeSize && |b| == InodeSize && |c| == InodeSize
    requires Keeps(a, b) && Keeps(b, c)
    ensures Keeps(a, c)
  {
  }

  lemma ClaimKeeps(im: Image, geo: Geometry, b: nat)
    requires Shaped(im, geo) && b < Direct
    ensures Keeps(im.raw, Claim(im, geo, b).raw)
    ensures Pointer(im.raw, b) != 0 ==> Claim(im, geo, b) == im
  {
    if Pointer(im.raw, b) == 0 {
      SetPointerFields(im.raw, b, Allocate(im.blocks, 0, geo.blocksPerGroup).result);
    }
  }

  /** One pass keeps the record but for a claimed pointer, and
      changes nothing but the device when the block has a pointer. */
  lemma StepKeeps(im: Image, geo: Geometry, cur: nat, src: seq<byte>, b: nat)
    requires Shaped(im, geo) && b == cur / geo.blockSize && b < Direct && |src| > 0
    ensures Keeps(im.raw, Step(im, geo, cur, src).raw)
    ensures Pointer(im.raw, b) != 0 ==>
      Step(im, geo, cur, src).raw == im.raw && Step(im, geo, cur, src).blocks == im.blocks
  {
    ClaimKeeps(im, geo, b);
  }

  /** One pass writes inside the block `cur` is in. */
  lemma StepInBlock(im: Image, geo: Geometry, cur: nat, src: seq<byte>, k: nat)
    requires Shaped(im, geo) && cur / geo.blockSize < Direct && |src| > 0 && geo.blockSize % Sector == 0
    requires k == Took(im, geo, cur, src)
    ensures 1 <= k <= |src|
    ensures (cur + k - 1) / geo.blockSize == cur / geo.blockSize && (cur + k) / geo.blockSize >= cur / geo.blockSize
  {
    var c := Claim(im, geo, BlockIndex(cur, geo.blockSize));
    AddressSector(Pointer(c.raw, BlockIndex(cur, geo.blockSize)), geo.blockSize, cur);
    StaysInBlock(cur, geo.blockSize, Took(im, geo, cur, src));
  }

  /** The loop allocates only where a direct pointer is 0: the record
      keeps its type, size, links and every other pointer. */
  lemma {:induction false} WriteLoopKeeps(im: Image, geo: Geometry, cur: nat, src: seq<byte>)
    requires Shaped(im, geo) && cur < Two32
    ensures WriteLoop(im, geo, cur, src).Some? ==> Keeps(im.raw, WriteLoop(im, geo, cur, src).value.raw)
    decreases |src|
  {
    if |src| > 0 && cur / geo.blockSize < Direct {
      var k := Took(im, geo, cur, src);
      var next := Step(im, geo, cur, src);
      WriteLoopStep(im, geo, cur, src, k, next);
      StepKeeps(im, geo, cur, src, BlockIndex(cur, geo.blockSize));
      WriteLoopKeeps(next, geo, U32(cur + k), src[k..]);
      var r := WriteLoop(next, geo, U32(cur + k), src[k..]);
      if r.Some? {
        KeepsTrans(im.raw, next.raw, r.value.raw);
      }
    }
  }

  /** A device address has the sector offset of the data offset it was
      computed from, since blocks are whole sectors and 2^32 is too. */
  lemma AddressSector(p: nat, bs: nat, cur: nat)
    requires bs > 0 && bs % Sector == 0
    ensures U32(p * bs + cur % bs) % Sector == cur % Sector
  {
    var x := p * bs + cur % bs;
    var t := bs / Sector;
    assert bs == Sector * t;
    assert cur == (cur / bs) * bs + cur % bs;
    assert p * bs == Sector * (p * t);
    assert (cur / bs) * bs == Sector * ((cur / bs) * t);
    SectorShift(p * t, cur % bs);
    SectorShift((cur / bs) * t, cur % bs);
    assert U32(x) == x - Two32 * (x / Two32);
    assert Two32 == Sector * 0x80_0000;
    SectorShift(-(0x80_0000 * (x / Two32)), x);
  }

  lemma SectorShift(q: int, c: int)
    ensures (Sector * q + c) % Sector == c % Sector
  {
  }

  /** A device write from `cur` stays inside the block `cur` is in. */
  lemma StaysInBlock(cur: nat, bs: nat, k: nat)
    requires bs > 0 && bs % Sector == 0 && 1 <= k <= Sector - cur % Sector
    ensures (cur + k - 1) / bs == cur / bs
    ensures (cur + k) / bs >= cur / bs
  {
    var q, r := cur / bs, cur % bs;
    var t := bs / Sector;
    DivMod(cur, bs);
    assert bs == Sector * t;
    SectorOf(cur, q, r, bs, t);
    RoomInBlock(r, t, k);
    DivisionIn(q, bs, r + k - 1);
    assert cur + k - 1 == q * bs + (r + k - 1);
    DivMono(cur, cur + k, bs);
  }

  lemma SectorOf(cur: nat, q: nat, r: nat, bs: nat, t: nat)
    requires bs == Sector * t && cur == q * bs + r
    ensures r % Sector == cur % Sector
  {
    assert q * bs == Sector * (q * t);
    SectorShift(q * t, r);
  }

  lemma RoomInBlock(r: nat, t: nat, k: nat)
    requires r < Sector * t && k <= Sector - r % Sector
    ensures r + k <= Sector * t
  {
    assert r == Sector * (r / Sector) + r % Sector;
    assert r / Sector < t;
  }

  lemma DivisionIn(q: nat, bs: nat, r: nat)
    requires bs > 0 && r < bs
    ensures (q * bs + r) / bs == q
  {
    SlotOfNumber(q, r, bs);
  }

  /** Below 4 GiB the loop panics exactly when the last byte to write
      falls in block 12 or later. */
  lemma WriteLoopPanics(im: Image, geo: Geometry, cur: nat, src: seq<byte>)
    requires Shaped(im, geo) && geo.blockSize % Sector == 0
    requires |src| > 0 && cur + |src| < Two32
    ensures WriteLoop(im, geo, cur, src).None? <==> (cur + |src| - 1) / geo.blockSize >= Direct
  {
    if (cur + |src| - 1) / geo.blockSize >= Direct {
      WriteLoopStops(im, geo, cur, src);
    } else {
      WriteLoopReaches(im, geo, cur, src);
    }
  }

  /** A write whose last byte falls in a direct block completes. */
  lemma {:induction false} WriteLoopReaches(im: Image, geo: Geometry, cur: nat, src: seq<byte>)
    requires Shaped(im, geo) && geo.blockSize % Sector == 0
    requires |src| > 0 && cur + |src| < Two32
    requires (cur + |src| - 1) / geo.blockSize < Direct
    ensures WriteLoop(im, geo, cur, src).Some?
    decreases |src|
  {
    DivMono(cur, cur + |src| - 1, geo.blockSize);
    var k := Took(im, geo, cur, src);
    var next := Step(im, geo, cur, src);
    WriteLoopStep(im, geo, cur, src, k, next);
    if k < |src| {
      SameLast(cur, k, src);
      WriteLoopReaches(next, geo, U32(cur + k), src[k..]);
    } else {
      assert |src[k..]| == 0;
    }
  }

  /** A write whose last byte falls in block 12 or later panics. */
  lemma {:induction false} WriteLoopStops(im: Image, geo: Geometry, cur: nat, src: seq<byte>)
    requires Shaped(im, geo) && geo.blockSize % Sector == 0
    requires |src| > 0 && cur + |src| < Two32
    requires (cur + |src| - 1) / geo.blockSize >= Direct
    ensures WriteLoop(im, geo, cur, src).None?
    decreases |src|
  {
    var bs := geo.blockSize;
    if cur / bs < Direct {
      var k := Took(im, geo, cur, src);
      var next := Step(im, geo, cur, src);
      StepInBlock(im, geo, cur, src, k);
      WriteLoopStep(im, geo, cur, src, k, next);
      StopsLater(cur, k, src, bs);
      WriteLoopStops(next, geo, U32(cur + k), src[k..]);
    }
  }

  /** After a pass of `k` bytes that stays below 4 GiB, the bytes left
      end where the write did. */
  lemma SameLast(cur: nat, k: nat, src: seq<byte>)
    requires k < |src| && cur + |src| < Two32
    ensures |src[k..]| > 0 && U32(cur + k) + |src[k..]| - 1 == cur + |src| - 1
  {
  }

  /** The offsets of one pass of a write whose last byte lies past
      the direct blocks: the pass stays in its block, so bytes are left
      and the last one is where it was. */
  lemma StopsLater(cur: nat, k: nat, src: seq<byte>, bs: nat)
    requires bs > 0 && 1 <= k <= |src| && cur + |src| < Two32
    requires cur / bs < Direct && (cur + |src| - 1) / bs >= Direct && (cur + k - 1) / bs == cur / bs
    ensures |src[k..]| > 0 && U32(cur + k) + |src[k..]| < Two32
    ensures (U32(cur + k) + |src[k..]| - 1) / bs >= Direct
  {
    assert U32(cur + k) + |src[k..]| - 1 == cur + |src| - 1;
  }

  lemma DivMono(a: nat, b: nat, d: nat)
    requires a <= b && d > 0
    ensures a / d <= b / d
  {
    if a / d > b / d {
      assert (b / d + 1) * d == (b / d) * d + d;
      MulLe(b / d + 1, a / d, d);
      DivMod(a, d);
      DivMod(b, d);
      assert false;
    }
  }

  /** Every direct block from `lo` to `hi` has a pointer. */
  predicate Mapped(raw: seq<byte>, lo: nat, hi: int)
    requires |raw| == InodeSize
  {
    forall b | lo <= b <= hi && b < Direct :: Pointer(raw, b) != 0
  }

  lemma MappedWithin(raw: seq<byte>, lo: nat, mid: nat, hi: int)
    requires |raw| == InodeSize && Mapped(raw, lo, hi) && lo <= mid
    ensures Mapped(raw, mid, hi)
  {
  }

  /** A pass of `k` bytes inside a write that stays below 4 GiB moves
      the offset forward without wrapping; the bytes left end where the
      write did. */
  lemma Advanced(cur: nat, k: nat, src: seq<byte>, bs: nat)
    requires bs > 0 && k <= |src| && cur + |src| < Two32 && (cur + k) / bs >= cur / bs
    ensures U32(cur + k) / bs >= cur / bs
    ensures U32(cur + k) + |src[k..]| - 1 == cur + |src| - 1
  {
    assert U32(cur + k) == cur + k;
  }

  /** When every direct block the loop reaches already has a pointer,
      nothing is allocated: the bitmaps and the record are unchanged. */
  lemma {:induction false} WriteLoopAllocatesNothing(im: Image, geo: Geometry, cur: nat, src: seq<byte>)
    requires Shaped(im, geo) && geo.blockSize % Sector == 0 && cur + |src| < Two32
    requires Mapped(im.raw, cur / geo.blockSize, (cur + |src| - 1) / geo.blockSize)
    ensures WriteLoop(im, geo, cur, src).Some? ==>
      WriteLoop(im, geo, cur, src).value.raw == im.raw &&
      WriteLoop(im, geo, cur, src).value.blocks == im.blocks
    decreases |src|
  {
    var bs := geo.blockSize;
    if |src| > 0 && cur / bs < Direct {
      DivMono(cur, cur + |src| - 1, bs);
      assert Pointer(im.raw, BlockIndex(cur, bs)) != 0;
      var k := Took(im, geo, cur, src);
      var next := Step(im, geo, cur, src);
      StepKeeps(im, geo, cur, src, BlockIndex(cur, bs));
      StepInBlock(im, geo, cur, src, k);
      WriteLoopStep(im, geo, cur, src, k, next);
      Advanced(cur, k, src, bs);
      MappedWithin(next.raw, cur / bs, U32(cur + k) / bs, (cur + |src| - 1) / bs);
      WriteLoopAllocatesNothing(next, geo, U32(cur + k), src[k..]);
    }
  }

  /** With sizes below 2^31 the new size is the larger of the old size
      and the end of the write. */
  lemma ResizedSize(raw: seq<byte>, off: nat, n: nat)
    requires |raw| == InodeSize && off <= SizeOf(raw) < Two31 && off + n < Two31
    ensures SizeOf(Resized(raw, off, n)) == if off + n > SizeOf(raw) then off + n else SizeOf(raw)
    ensures Keeps(raw, Resized(raw, off, n)) || off + n > SizeOf(raw)
    ensures forall i | 0 <= i < PointerCount :: Pointer(Resized(raw, off, n), i) == Pointer(raw, i)
    ensures Mode(Resized(raw, off, n)) == Mode(raw) && Links(Resized(raw, off, n)) == Links(raw)
  {
    var size := SizeOf(raw);
    if off + n > size {
      assert U32(off + n - size) == off + n - size;
      SetSizeFields(raw, off + n);
    } else if off + n < size {
      assert U32(off + n - size) == off + n - size + Two32;
    }
  }

  /** `Node::write_all` panics exactly when the offset is past the end
      of the data, or when it has bytes to write (a count below 2^31)
      and the last of them falls in block 12 or later. */
  lemma NodeWritePanics(im: Image, geo: Geometry, number: nat, off: nat, src: seq<byte>)
    requires Shaped(im, geo) && Located(geo, number) && geo.blockSize % Sector == 0
    requires off + |src| < Two32
    ensures NodeWrite(im, geo, number, off, src).None? <==>
      off > SizeOf(im.raw) || (0 < |src| < Two31 && (off + |src| - 1) / geo.blockSize >= Direct)
  {
    if off <= SizeOf(im.raw) && 0 < |src| < Two31 {
      WriteLoopPanics(im, geo, off, src);
    }
  }

  /** A completed write grows the size to the end of the write, keeps
      the type, the link count and every pointer except the direct ones
      that were 0, and leaves the record it wrote back on the device
      (for a record inside the device and below 4 GiB). */
  lemma NodeWriteRecord(im: Image, geo: Geometry, number: nat, off: nat, src: seq<byte>)
    requires Shaped(im, geo) && Located(geo, number)
    requires SizeOf(im.raw) < Two31 && off + |src| < Two31
    requires NodeWrite(im, geo, number, off, src).Some?
    ensures var m := NodeWrite(im, geo, number, off, src).value;
      SizeOf(m.raw) == (if off + |src| > SizeOf(im.raw) then off + |src| else SizeOf(im.raw)) &&
      Mode(m.raw) == Mode(im.raw) && Links(m.raw) == Links(im.raw) &&
      (forall i | 0 <= i < PointerCount && (i >= Direct || Pointer(im.raw, i) != 0) ::
         Pointer(m.raw, i) == Pointer(im.raw, i)) &&
      var o := RecordOffset(geo, number);
      (o + InodeSize <= |im.disk| && o + InodeSize < Two32 ==> m.disk[o..o + InodeSize] == m.raw)
  {
    var w := if 0 < |src| < Two31 then WriteLoop(im, geo, off, src) else Some(im);
    var l := w.value;
    if 0 < |src| < Two31 {
      WriteLoopKeeps(im, geo, off, src);
    }
    ResizedSize(l.raw, off, |src|);
    var raw := Resized(l.raw, off, |src|);
    var o := RecordOffset(geo, number);
    if o + InodeSize <= |im.disk| && o + InodeSize < Two32 {
      SpreadStores(l.disk, o, raw);
      StoreInside(l.disk, o, raw);
    }
  }

  /** Writing where every direct block reached already has a pointer
      allocates nothing: the bitmaps are unchanged. */
  lemma NodeWriteAllocatesNothing(im: Image, geo: Geometry, number: nat, off: nat, src: seq<byte>)
    requires Shaped(im, geo) && Located(geo, number) && geo.blockSize % Sector == 0
    requires off + |src| < Two32
    requires Mapped(im.raw, off / geo.blockSize, (off + |src| - 1) / geo.blockSize)
    requires NodeWrite(im, geo, number, off, src).Some?
    ensures NodeWrite(im, geo, number, off, src).value.blocks == im.blocks
  {
    if 0 < |src| < Two31 {
      WriteLoopAllocatesNothing(im, geo, off, src);
    }
  }

  /** A write allocates by marking bits, so every bitmap keeps its
      length. */
  lemma {:induction false} WriteLoopAlike(im: Image, geo: Geometry, cur: nat, src: seq<byte>)
    requires Shaped(im, geo) && cur < Two32
    ensures WriteLoop(im, geo, cur, src).Some? ==> Alike(im.blocks, WriteLoop(im, geo, cur, src).value.blocks)
    decreases |src|
  {
    if |src| > 0 && cur / geo.blockSize < Direct {
      var k := Took(im, geo, cur, src);
      var next := Step(im, geo, cur, src);
      assert Alike(im.blocks, next.blocks);
      WriteLoopAlike(next, geo, U32(cur + k), src[k..]);
    }
  }

  lemma NodeWriteAlike(im: Image, geo: Geometry, number: nat, off: nat, src: seq<byte>)
    requires Shaped(im, geo) && Located(geo, number) && off < Two32 && |src| < Two32
    ensures NodeWrite(im, geo, number, off, src).Some? ==> Alike(im.blocks, NodeWrite(im, geo, number, off, src).value.blocks)
  {
    if off <= SizeOf(im.raw) && 0 < |src| < Two31 {
      WriteLoopAlike(im, geo, off, src);
    }
  }
}
