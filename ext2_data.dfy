/** What a node write puts on the device: read back through the node's
    pointers, the data holds the written bytes where they were written
    and its old bytes elsewhere. This holds when the blocks the data
    lies in are apart from each other and from the inode record, inside
    the device and below 4 GiB, and when no allocation can hand out
    block 0. */
module Ext2Data {
  import opened Bytes
  import opened Device
  import opened Ext2Layout
  import opened Ext2Bitmap
  import opened Ext2Node

  /** The device byte that holds data byte `j` of a direct block. */
  function Pos(raw: seq<byte>, bs: nat, j: nat): nat
    requires |raw| == InodeSize && bs > 0 && j / bs < Direct
  {
    Pointer(raw, BlockIndex(j, bs)) * bs + j % bs
  }

  /** The first `n` direct blocks have nonzero pointers, no two alike,
      to blocks that lie inside a device of `size` bytes and below
      4 GiB. */
  predicate Placed(raw: seq<byte>, bs: nat, n: nat, size: nat)
    requires |raw| == InodeSize
  {
    n <= Direct && bs > 0 &&
    (forall b | 0 <= b < n :: 0 < Pointer(raw, b) && (Pointer(raw, b) + 1) * bs <= size &&
       (Pointer(raw, b) + 1) * bs <= Two32) &&
    (forall b, c | 0 <= b < c < n :: Pointer(raw, b) != Pointer(raw, c))
  }

  /** None of the first `n` direct blocks overlaps the `len` bytes at
      `o`. */
  predicate Apart(raw: seq<byte>, bs: nat, n: nat, o: nat, len: nat)
    requires |raw| == InodeSize
  {
    forall b | 0 <= b < n && b < Direct :: (Pointer(raw, b) + 1) * bs <= o || o + len <= Pointer(raw, b) * bs
  }

  /** No data byte from `lo` to `hi` is held at device byte `a`. */
  predicate Missed(raw: seq<byte>, bs: nat, lo: nat, hi: nat, a: nat)
    requires |raw| == InodeSize && bs > 0
  {
    forall j {:trigger Pos(raw, bs, j)} | lo <= j < hi && j / bs < Direct :: Pos(raw, bs, j) != a
  }

  /** Block 0 is in use and no block number reaches 2^32, so the
      allocator never hands out a number that reads as "no block". */
  predicate Reserved(blocks: seq<seq<bv8>>, perGroup: nat)
  {
    |blocks| > 0 && |blocks[0]| > 0 && Used(blocks[0], 0) && |blocks| * perGroup < Two32
  }

  /** The number of direct blocks data of `size` bytes spans. */
  function Span(size: nat, bs: nat): (n: nat)
    requires bs > 0
    ensures n <= Direct
  {
    if size == 0 then 0 else if (size - 1) / bs + 1 < Direct then (size - 1) / bs + 1 else Direct
  }

  // ---------------------------------------------------------------
  // Positions

  /** A placed data byte is inside the device, below 4 GiB. */
  lemma PosBelow(raw: seq<byte>, bs: nat, n: nat, size: nat, j: nat)
    requires |raw| == InodeSize && Placed(raw, bs, n, size) && j / bs < n
    ensures Pos(raw, bs, j) < size && Pos(raw, bs, j) < Two32
  {
    DivMod(j, bs);
    BlockEnd(Pointer(raw, j / bs), bs, j % bs);
  }

  /** Two data bytes of placed blocks are held at two device bytes. */
  lemma PosDistinct(raw: seq<byte>, bs: nat, n: nat, size: nat, i: nat, j: nat)
    requires |raw| == InodeSize && Placed(raw, bs, n, size) && i / bs < n && j / bs < n && i != j
    ensures Pos(raw, bs, i) != Pos(raw, bs, j)
  {
    var p, q := Pointer(raw, i / bs), Pointer(raw, j / bs);
    assert i / bs != j / bs ==> p != q;
    DistinctPlaces(i, j, bs, p, q);
  }

  /** Two offsets of data, in blocks that are one block only when they
      are one data block, are two places on the device. */
  lemma DistinctPlaces(i: nat, j: nat, bs: nat, p: nat, q: nat)
    requires bs > 0 && i != j && (i / bs != j / bs ==> p != q)
    ensures p * bs + i % bs != q * bs + j % bs
  {
    DivMod(i, bs);
    DivMod(j, bs);
    if p * bs + i % bs == q * bs + j % bs {
      DivisionIn(p, bs, i % bs);
      DivisionIn(q, bs, j % bs);
    }
  }

  /** Byte `j` of the data is the device byte at its position. */
  lemma ContentPos(disk: seq<byte>, raw: seq<byte>, bs: nat, j: nat)
    requires Addressable(raw, bs) && j < SizeOf(raw) && j / bs < Direct
    requires (Pointer(raw, j / bs) + 1) * bs <= |disk| && (Pointer(raw, j / bs) + 1) * bs <= Two32
    ensures Pos(raw, bs, j) < |disk| && Content(disk, raw, bs)[j] == disk[Pos(raw, bs, j)]
  {
    var p, b, x := Pointer(raw, j / bs), j / bs, j % bs;
    DivMod(j, bs);
    ContentBlocks(disk, raw, bs, b, x);
    assert ReadBlock(disk, raw, bs, b) == Read(disk, U32(p * bs), bs);
    BlockRead(disk, p, bs, x);
  }

  /** Byte `x` of a block inside the device and below 4 GiB. */
  lemma BlockRead(disk: seq<byte>, p: nat, bs: nat, x: nat)
    requires x < bs && (p + 1) * bs <= |disk| && (p + 1) * bs <= Two32
    ensures p * bs + x < |disk| && Read(disk, U32(p * bs), bs)[x] == disk[p * bs + x]
  {
    BlockEnd(p, bs, x);
  }

  /** A place inside a block that ends by `A` is below `A`. */
  lemma BlockEnd(p: nat, bs: nat, x: nat)
    requires x < bs
    ensures p * bs + x < (p + 1) * bs && (p + 1) * bs == p * bs + bs
  {
  }

  // ---------------------------------------------------------------
  // One pass of the loop

  /** An allocation under `Reserved` gives a nonzero number, and keeps
      block 0 in use. */
  lemma AllocateReserved(blocks: seq<seq<bv8>>, perGroup: nat)
    requires Reserved(blocks, perGroup)
    ensures U32(Allocate(blocks, 0, perGroup).result) != 0
    ensures Reserved(Allocate(blocks, 0, perGroup).maps, perGroup)
  {
    var bytes := perGroup / 8;
    match FirstFree(blocks, bytes, 0)
    case None =>
    case Some(s) =>
      var a := Allocate(blocks, 0, perGroup);
      NumberBelow(0, perGroup, s, |blocks|);
      assert s.group != 0 || s.index != 0;
      if s.group == 0 {
        MarkUsed(blocks[0], s.index);
      }
  }

  /** Claiming under `Reserved` leaves a nonzero pointer for the
      block, and `Reserved` holds after it. */
  lemma ClaimReserved(im: Image, geo: Geometry, b: nat)
    requires Shaped(im, geo) && b < Direct && Reserved(im.blocks, geo.blocksPerGroup)
    ensures Pointer(Claim(im, geo, b).raw, b) != 0
    ensures Reserved(Claim(im, geo, b).blocks, geo.blocksPerGroup)
  {
    if Pointer(im.raw, b) == 0 {
      AllocateReserved(im.blocks, geo.blocksPerGroup);
      SetPointerFields(im.raw, b, Allocate(im.blocks, 0, geo.blocksPerGroup).result);
    }
  }

  /** `d` with the bytes of `src` stored at the data positions from
      `cur` on, one after the other (a position outside `d` is
      dropped). */
  function Scatter(d: seq<byte>, raw: seq<byte>, bs: nat, cur: nat, src: seq<byte>): (e: seq<byte>)
    requires |raw| == InodeSize && bs > 0
    ensures |e| == |d|
    decreases |src|
  {
    if |src| == 0 then d
    else
      var e := if cur / bs < Direct && Pos(raw, bs, cur) < |d| then d[Pos(raw, bs, cur) := src[0]] else d;
      Scatter(e, raw, bs, cur + 1, src[1..])
  }

  /** Scattering `a` and then `b` is scattering `a + b`. */
  lemma {:induction false} ScatterJoin(d: seq<byte>, raw: seq<byte>, bs: nat, cur: nat, a: seq<byte>, b: seq<byte>)
    requires |raw| == InodeSize && bs > 0
    ensures Scatter(Scatter(d, raw, bs, cur, a), raw, bs, cur + |a|, b) == Scatter(d, raw, bs, cur, a + b)
    decreases |a|
  {
    if |a| > 0 {
      var e := if cur / bs < Direct && Pos(raw, bs, cur) < |d| then d[Pos(raw, bs, cur) := a[0]] else d;
      assert (a + b)[0] == a[0] && (a + b)[1..] == a[1..] + b;
      ScatterJoin(e, raw, bs, cur + 1, a[1..], b);
    } else {
      assert a + b == b;
    }
  }

  /** Scattering bytes that stay inside one block is one store at the
      position of the first. */
  lemma {:induction false} ScatterBlock(d: seq<byte>, raw: seq<byte>, bs: nat, cur: nat, part: seq<byte>)
    requires |raw| == InodeSize && bs > 0 && |part| > 0 && cur / bs < Direct
    requires (cur + |part| - 1) / bs == cur / bs && Pos(raw, bs, cur) + |part| <= |d|
    ensures Scatter(d, raw, bs, cur, part) == Store(d, Pos(raw, bs, cur), part)
    decreases |part|
  {
    var a := Pos(raw, bs, cur);
    var e := d[a := part[0]];
    assert Store(d, a, [part[0]]) == e;
    if |part| > 1 {
      NextPos(raw, bs, cur, |part|);
      ScatterBlock(e, raw, bs, cur + 1, part[1..]);
      StoreAdjacent(d, a, [part[0]], part[1..]);
      assert [part[0]] + part[1..] == part;
    } else {
      assert part == [part[0]];
    }
  }

  /** The next data byte of the same block is the next device byte. */
  lemma NextPos(raw: seq<byte>, bs: nat, cur: nat, len: nat)
    requires |raw| == InodeSize && bs > 0 && cur / bs < Direct && len > 1 && (cur + len - 1) / bs == cur / bs
    ensures (cur + 1) / bs == cur / bs && (cur + 1 + (len - 1) - 1) / bs == cur / bs
    ensures Pos(raw, bs, cur + 1) == Pos(raw, bs, cur) + 1
  {
    DivMono(cur, cur + 1, bs);
    DivMono(cur + 1, cur + len - 1, bs);
    DivMod(cur, bs);
    DivMod(cur + 1, bs);
  }

  /** A device byte that holds none of the data bytes is left as it
      was. */
  lemma {:induction false} ScatterElsewhere(d: seq<byte>, raw: seq<byte>, bs: nat, cur: nat, src: seq<byte>, a: nat)
    requires |raw| == InodeSize && bs > 0 && a < |d| && Missed(raw, bs, cur, cur + |src|, a)
    ensures Scatter(d, raw, bs, cur, src)[a] == d[a]
    decreases |src|
  {
    if |src| > 0 {
      var e := if cur / bs < Direct && Pos(raw, bs, cur) < |d| then d[Pos(raw, bs, cur) := src[0]] else d;
      assert e[a] == d[a];
      ScatterElsewhere(e, raw, bs, cur + 1, src[1..], a);
    }
  }

  /** With placed blocks, each data byte ends up holding its byte of
      `src`. */
  lemma {:induction false} ScatterAt(d: seq<byte>, raw: seq<byte>, bs: nat, n: nat, cur: nat, src: seq<byte>, j: nat)
    requires |raw| == InodeSize && Placed(raw, bs, n, |d|) && (cur + |src| - 1) / bs < n
    requires cur <= j < cur + |src|
    ensures j / bs < n && Pos(raw, bs, j) < |d| && Scatter(d, raw, bs, cur, src)[Pos(raw, bs, j)] == src[j - cur]
    decreases |src|
  {
    DivMono(j, cur + |src| - 1, bs);
    DivMono(cur, cur + |src| - 1, bs);
    PosBelow(raw, bs, n, |d|, j);
    PosBelow(raw, bs, n, |d|, cur);
    var e := d[Pos(raw, bs, cur) := src[0]];
    if j == cur {
      forall i | cur + 1 <= i < cur + |src| && i / bs < Direct
        ensures Pos(raw, bs, i) != Pos(raw, bs, j)
      {
        DivMono(i, cur + |src| - 1, bs);
        PosDistinct(raw, bs, n, |d|, i, j);
      }
      ScatterElsewhere(e, raw, bs, cur + 1, src[1..], Pos(raw, bs, j));
    } else {
      ScatterAt(e, raw, bs, n, cur + 1, src[1..], j);
    }
  }

  /** What scattering `src` from `cur` leaves at the data positions and
      elsewhere. */
  lemma ScatterMeaning(d: seq<byte>, raw: seq<byte>, bs: nat, n: nat, cur: nat, src: seq<byte>)
    requires |raw| == InodeSize && Placed(raw, bs, n, |d|) && (cur + |src| - 1) / bs < n
    ensures forall j {:trigger Pos(raw, bs, j)} | cur <= j < cur + |src| ::
      j / bs < n && Pos(raw, bs, j) < |d| && Scatter(d, raw, bs, cur, src)[Pos(raw, bs, j)] == src[j - cur]
    ensures forall a | 0 <= a < |d| && Missed(raw, bs, cur, cur + |src|, a) :: Scatter(d, raw, bs, cur, src)[a] == d[a]
  {
    forall j | cur <= j < cur + |src|
      ensures j / bs < n && Pos(raw, bs, j) < |d| && Scatter(d, raw, bs, cur, src)[Pos(raw, bs, j)] == src[j - cur]
    {
      ScatterAt(d, raw, bs, n, cur, src, j);
    }
    forall a | 0 <= a < |d| && Missed(raw, bs, cur, cur + |src|, a)
      ensures Scatter(d, raw, bs, cur, src)[a] == d[a]
    {
      ScatterElsewhere(d, raw, bs, cur, src, a);
    }
  }

  /** The device write of one pass, at the position of the pointer
      that `raw` holds for block `cur / bs`, scatters its bytes. */
  lemma StepStores(d: seq<byte>, raw: seq<byte>, bs: nat, n: nat, cur: nat, part: seq<byte>)
    requires |raw| == InodeSize && Placed(raw, bs, n, |d|) && cur / bs < n && |part| > 0
    requires (cur + |part| - 1) / bs == cur / bs
    ensures Store(d, U32(Pointer(raw, BlockIndex(cur, bs)) * bs + cur % bs), part) == Scatter(d, raw, bs, cur, part)
  {
    PosBelow(raw, bs, n, |d|, cur + |part| - 1);
    LastPos(raw, bs, cur, |part|);
    var a := Pos(raw, bs, cur);
    ScatterBlock(d, raw, bs, cur, part);
    assert U32(Pointer(raw, BlockIndex(cur, bs)) * bs + cur % bs) == a;
  }

  /** The last data byte of a stretch inside one block is as far from
      the first on the device as in the data. */
  lemma LastPos(raw: seq<byte>, bs: nat, cur: nat, len: nat)
    requires |raw| == InodeSize && bs > 0 && cur / bs < Direct && len > 0 && (cur + len - 1) / bs == cur / bs
    ensures Pos(raw, bs, cur + len - 1) == Pos(raw, bs, cur) + (len - 1)
  {
    DivMod(cur, bs);
    DivMod(cur + len - 1, bs);
  }

  // ---------------------------------------------------------------
  // The loop

  /** One pass ends in block `cur / bs`, keeps `Reserved`, and writes
      what it takes at the position of the pointer it claimed. */
  lemma PassStep(im: Image, geo: Geometry, cur: nat, src: seq<byte>)
    requires Shaped(im, geo) && geo.blockSize % Sector == 0 && Reserved(im.blocks, geo.blocksPerGroup)
    requires |src| > 0 && cur + |src| < Two32 && cur / geo.blockSize < Direct
    ensures var bs, k := geo.blockSize, Took(im, geo, cur, src);
      var c, next := Claim(im, geo, BlockIndex(cur, bs)), Step(im, geo, cur, src);
      1 <= k <= |src| && (cur + k - 1) / bs == cur / bs && cur + k < Two32 &&
      Reserved(next.blocks, geo.blocksPerGroup) && Shaped(next, geo) &&
      next.raw == c.raw && Pointer(c.raw, BlockIndex(cur, bs)) != 0
  {
    var b := BlockIndex(cur, geo.blockSize);
    StepInBlock(im, geo, cur, src, Took(im, geo, cur, src));
    ClaimReserved(im, geo, b);
  }

  /** The device after one pass: what it takes, stored at the position
      of the pointer it claimed. */
  lemma PassDisk(im: Image, geo: Geometry, cur: nat, src: seq<byte>)
    requires Shaped(im, geo) && cur / geo.blockSize < Direct
    ensures var bs, k := geo.blockSize, Took(im, geo, cur, src);
      var c := Claim(im, geo, BlockIndex(cur, bs));
      Step(im, geo, cur, src).disk == Store(im.disk, U32(Pointer(c.raw, BlockIndex(cur, bs)) * bs + cur % bs), src[..k])
  {
  }

  /** After one pass, the rest of the loop runs from `cur + k`. */
  lemma PassRest(im: Image, geo: Geometry, cur: nat, src: seq<byte>)
    requires Shaped(im, geo) && geo.blockSize % Sector == 0
    requires |src| > 0 && cur + |src| < Two32 && cur / geo.blockSize < Direct
    ensures var k, next := Took(im, geo, cur, src), Step(im, geo, cur, src);
      WriteLoop(next, geo, cur + k, src[k..]) == WriteLoop(im, geo, cur, src)
  {
    var k := Took(im, geo, cur, src);
    WriteLoopStep(im, geo, cur, src, k, Step(im, geo, cur, src));
    assert U32(cur + k) == cur + k;
  }

  /** After one pass the block keeps the pointer it was claimed with to
      the end of the loop. */
  lemma Pass(im: Image, geo: Geometry, cur: nat, src: seq<byte>, r: Image)
    requires Shaped(im, geo) && geo.blockSize % Sector == 0 && Reserved(im.blocks, geo.blocksPerGroup)
    requires |src| > 0 && cur + |src| < Two32 && cur / geo.blockSize < Direct
    requires WriteLoop(im, geo, cur, src) == Some(r)
    ensures var bs, k := geo.blockSize, Took(im, geo, cur, src);
      var c, next := Claim(im, geo, BlockIndex(cur, bs)), Step(im, geo, cur, src);
      WriteLoop(next, geo, cur + k, src[k..]) == Some(r) &&
      Pointer(r.raw, BlockIndex(cur, bs)) == Pointer(c.raw, BlockIndex(cur, bs)) &&
      (k == |src| ==> r == next)
  {
    var b := BlockIndex(cur, geo.blockSize);
    var k := Took(im, geo, cur, src);
    var next := Step(im, geo, cur, src);
    PassStep(im, geo, cur, src);
    PassRest(im, geo, cur, src);
    if k < |src| {
      WriteLoopKeeps(next, geo, cur + k, src[k..]);
      assert Pointer(next.raw, b) != 0;
    } else {
      assert WriteLoop(next, geo, cur + k, src[k..]) == Some(next);
    }
  }

  /** One pass under placed pointers scatters its bytes. */
  lemma PassScatters(im: Image, geo: Geometry, cur: nat, src: seq<byte>, n: nat, r: Image)
    requires Shaped(im, geo) && geo.blockSize % Sector == 0 && Reserved(im.blocks, geo.blocksPerGroup)
    requires |src| > 0 && cur + |src| < Two32 && cur + |src| <= n * geo.blockSize
    requires WriteLoop(im, geo, cur, src) == Some(r) && Placed(r.raw, geo.blockSize, n, |im.disk|)
    ensures var k, next := Took(im, geo, cur, src), Step(im, geo, cur, src);
      1 <= k <= |src| && cur + k < Two32 &&
      Reserved(next.blocks, geo.blocksPerGroup) && Shaped(next, geo) &&
      WriteLoop(next, geo, cur + k, src[k..]) == Some(r) && |next.disk| == |im.disk| &&
      next.disk == Scatter(im.disk, r.raw, geo.blockSize, cur, src[..k]) &&
      (k == |src| ==> r == next)
  {
    var bs := geo.blockSize;
    DivBelow(cur, n, bs);
    var k := Took(im, geo, cur, src);
    PassStep(im, geo, cur, src);
    PassDisk(im, geo, cur, src);
    Pass(im, geo, cur, src, r);
    StepStores(im.disk, r.raw, bs, n, cur, src[..k]);
  }

  /** An offset below `n` blocks is in one of the first `n`. */
  lemma DivBelow(x: nat, n: nat, bs: nat)
    requires bs > 0 && x < n * bs
    ensures 0 <= x / bs < n
  {
    var m := n - 1;
    assert m * bs + (bs - 1) == n * bs - 1;
    DivisionIn(m, bs, bs - 1);
    DivMono(x, m * bs + (bs - 1), bs);
  }

  /** A scatter of `src[..k]` followed by one of `src[k..]` from where
      it ended is a scatter of `src`. */
  lemma ScatterSplit(d: seq<byte>, mid: seq<byte>, fin: seq<byte>, raw: seq<byte>, bs: nat, cur: nat, src: seq<byte>, k: nat)
    requires |raw| == InodeSize && bs > 0 && k <= |src| && mid == Scatter(d, raw, bs, cur, src[..k])
    requires k < |src| ==> fin == Scatter(mid, raw, bs, cur + k, src[k..])
    requires k == |src| ==> fin == mid
    ensures fin == Scatter(d, raw, bs, cur, src)
  {
    ScatterJoin(d, raw, bs, cur, src[..k], src[k..]);
    assert src[..k] + src[k..] == src;
  }

  /** The loop scatters `src` over the data positions of the pointers
      it ends with. */
  lemma {:induction false} WriteLoopScatters(im: Image, geo: Geometry, cur: nat, src: seq<byte>, n: nat, r: Image)
    requires Shaped(im, geo) && geo.blockSize % Sector == 0 && Reserved(im.blocks, geo.blocksPerGroup)
    requires |src| > 0 && cur + |src| < Two32 && cur + |src| <= n * geo.blockSize
    requires WriteLoop(im, geo, cur, src) == Some(r) && Placed(r.raw, geo.blockSize, n, |im.disk|)
    ensures r.disk == Scatter(im.disk, r.raw, geo.blockSize, cur, src)
    decreases |src|
  {
    var k := Took(im, geo, cur, src);
    var next := Step(im, geo, cur, src);
    PassScatters(im, geo, cur, src, n, r);
    if k < |src| {
      WriteLoopScatters(next, geo, cur + k, src[k..], n, r);
    }
    ScatterSplit(im.disk, next.disk, r.disk, r.raw, geo.blockSize, cur, src, k);
  }

  // ---------------------------------------------------------------
  // The whole write, read back

  /** `a` and `b` hold the same direct pointers. */
  predicate Alike(a: seq<byte>, b: seq<byte>)
    requires |a| == InodeSize && |b| == InodeSize
  {
    forall i | 0 <= i < Direct :: Pointer(a, i) == Pointer(b, i)
  }

  /** Placement depends on the direct pointers only. */
  lemma PlacedAlike(a: seq<byte>, b: seq<byte>, bs: nat, n: nat, size: nat)
    requires |a| == InodeSize && |b| == InodeSize && Alike(a, b) && Placed(a, bs, n, size)
    ensures Placed(b, bs, n, size)
  {
    assert forall i | 0 <= i < n :: Pointer(a, i) == Pointer(b, i);
  }

  /** Data of `n` direct blocks or fewer is reachable. */
  lemma AddressableWithin(raw: seq<byte>, bs: nat, n: nat)
    requires |raw| == InodeSize && bs > 0 && n <= Direct && SizeOf(raw) <= n * bs
    ensures Addressable(raw, bs)
  {
    MulLe(n, Direct + bs / 4, bs);
  }

  /** A data byte of blocks apart from `len` bytes at `o` is outside
      them. */
  lemma PosApart(raw: seq<byte>, bs: nat, n: nat, o: nat, len: nat, j: nat)
    requires |raw| == InodeSize && bs > 0 && j / bs < n && n <= Direct && Apart(raw, bs, n, o, len)
    ensures Pos(raw, bs, j) < o || o + len <= Pos(raw, bs, j)
  {
    DivMod(j, bs);
    BlockEnd(Pointer(raw, j / bs), bs, j % bs);
  }

  /** What a completed write is made of: the loop, then the record with
      its new size stored at its place on the device. */
  lemma WriteBack(im: Image, geo: Geometry, number: nat, off: nat, src: seq<byte>)
    requires Shaped(im, geo) && Located(geo, number) && SizeOf(im.raw) < Two31 && 0 < |src| && off + |src| < Two31
    requires NodeWrite(im, geo, number, off, src).Some? && RecordOffset(geo, number) + InodeSize < Two32
    ensures WriteLoop(im, geo, off, src).Some? && off <= SizeOf(im.raw)
    ensures var l, m := WriteLoop(im, geo, off, src).value, NodeWrite(im, geo, number, off, src).value;
      Alike(l.raw, m.raw) && Keeps(im.raw, l.raw) && |l.disk| == |im.disk| &&
      SizeOf(m.raw) == (if off + |src| > SizeOf(im.raw) then off + |src| else SizeOf(im.raw)) &&
      m.disk == Store(l.disk, RecordOffset(geo, number), m.raw)
  {
    var l := WriteLoop(im, geo, off, src).value;
    WriteLoopKeeps(im, geo, off, src);
    ResizedSize(l.raw, off, |src|);
    SpreadStores(l.disk, RecordOffset(geo, number), Resized(l.raw, off, |src|));
  }

  /** The facts about one completed write that the read-back lemmas
      share. */
  predicate Laid(im: Image, geo: Geometry, number: nat, off: nat, src: seq<byte>, n: nat)
  {
    Shaped(im, geo) && Located(geo, number) && geo.blockSize % Sector == 0 && Reserved(im.blocks, geo.blocksPerGroup) &&
    Addressable(im.raw, geo.blockSize) && SizeOf(im.raw) < Two31 && 0 < |src| && off + |src| < Two31 &&
    Mapped(im.raw, 0, (SizeOf(im.raw) - 1) / geo.blockSize) &&
    NodeWrite(im, geo, number, off, src).Some? &&
    var m, o := NodeWrite(im, geo, number, off, src).value, RecordOffset(geo, number);
    Placed(m.raw, geo.blockSize, n, |im.disk|) && SizeOf(m.raw) <= n * geo.blockSize &&
    o + InodeSize <= |im.disk| && o + InodeSize < Two32 && Apart(m.raw, geo.blockSize, n, o, InodeSize)
  }

  /** The device `d` and record `raw` before a write, the device `ld`
      and record `lraw` after its loop, and the device `md` after the
      record `mraw` was stored at `o`: the loop scattered `src` from
      `off`, the data lies in `n` placed direct blocks apart from the
      record, and every old byte had a block. */
  predicate Written(d: seq<byte>, raw: seq<byte>, ld: seq<byte>, md: seq<byte>, lraw: seq<byte>, mraw: seq<byte>,
                    bs: nat, n: nat, o: nat, off: nat, src: seq<byte>)
  {
    Addressable(raw, bs) && |lraw| == InodeSize && Addressable(mraw, bs) &&
    Keeps(raw, lraw) && Alike(lraw, mraw) && Mapped(raw, 0, (SizeOf(raw) - 1) / bs) &&
    Placed(lraw, bs, n, |d|) && Placed(mraw, bs, n, |d|) && Apart(mraw, bs, n, o, InodeSize) &&
    ld == Scatter(d, lraw, bs, off, src) && md == Store(ld, o, mraw) &&
    off + |src| <= SizeOf(mraw) && SizeOf(raw) <= SizeOf(mraw) <= n * bs
  }

  /** What a completed write leaves, in the terms the read-back lemmas
      use: the loop scattered `src`, then the record was stored at its
      place. */
  lemma LaidParts(im: Image, geo: Geometry, number: nat, off: nat, src: seq<byte>, n: nat)
    requires Laid(im, geo, number, off, src, n)
    ensures WriteLoop(im, geo, off, src).Some?
    ensures var bs, o := geo.blockSize, RecordOffset(geo, number);
      var l, m := WriteLoop(im, geo, off, src).value, NodeWrite(im, geo, number, off, src).value;
      SizeOf(m.raw) == (if off + |src| > SizeOf(im.raw) then off + |src| else SizeOf(im.raw)) &&
      Written(im.disk, im.raw, l.disk, m.disk, l.raw, m.raw, bs, n, o, off, src)
  {
    var bs := geo.blockSize;
    WriteBack(im, geo, number, off, src);
    var l, m := WriteLoop(im, geo, off, src).value, NodeWrite(im, geo, number, off, src).value;
    PlacedAlike(m.raw, l.raw, bs, n, |im.disk|);
    AddressableWithin(m.raw, bs, n);
    WriteLoopScatters(im, geo, off, src, n, l);
  }

  /** A written byte reads back as the byte of `src` written there:
      `ld` is the device after the loop, `md` after the record `mraw`
      was stored at `o`. */
  lemma NewByte(d: seq<byte>, raw: seq<byte>, ld: seq<byte>, md: seq<byte>, lraw: seq<byte>, mraw: seq<byte>,
                bs: nat, n: nat, o: nat, off: nat, src: seq<byte>, j: nat)
    requires Written(d, raw, ld, md, lraw, mraw, bs, n, o, off, src) && off <= j < off + |src|
    ensures j < SizeOf(mraw) && Content(md, mraw, bs)[j] == src[j - off]
  {
    DivBelow(off + |src| - 1, n, bs);
    ScatterAt(d, lraw, bs, n, off, src, j);
    assert Pos(mraw, bs, j) == Pos(lraw, bs, j);
    PosApart(mraw, bs, n, o, InodeSize, j);
    ContentPos(md, mraw, bs, j);
  }

  /** A byte the write did not reach reads back as it read before:
      `d` and `raw` are the device and the record before the write. */
  lemma OldByte(d: seq<byte>, raw: seq<byte>, ld: seq<byte>, md: seq<byte>, lraw: seq<byte>, mraw: seq<byte>,
                bs: nat, n: nat, o: nat, off: nat, src: seq<byte>, j: nat)
    requires Written(d, raw, ld, md, lraw, mraw, bs, n, o, off, src)
    requires j < SizeOf(raw) && (j < off || off + |src| <= j)
    ensures j < SizeOf(mraw) && Content(md, mraw, bs)[j] == Content(d, raw, bs)[j]
  {
    DivBelow(j, n, bs);
    DivMono(j, SizeOf(raw) - 1, bs);
    var b := j / bs;
    assert Pointer(raw, b) != 0;
    assert Pointer(lraw, b) == Pointer(raw, b);
    var a := Pos(lraw, bs, j);
    forall i | off <= i < off + |src| && i / bs < Direct
      ensures Pos(lraw, bs, i) != a
    {
      DivBelow(i, n, bs);
      PosDistinct(lraw, bs, n, |d|, i, j);
    }
    PosBelow(lraw, bs, n, |d|, j);
    ScatterElsewhere(d, lraw, bs, off, src, a);
    assert Pos(mraw, bs, j) == a && Pos(raw, bs, j) == a;
    PosApart(mraw, bs, n, o, InodeSize, j);
    ContentPos(md, mraw, bs, j);
    ContentPos(d, raw, bs, j);
  }

  /** Every written byte reads back as its byte of `src`. */
  lemma NewBytes(d: seq<byte>, raw: seq<byte>, ld: seq<byte>, md: seq<byte>, lraw: seq<byte>, mraw: seq<byte>,
                 bs: nat, n: nat, o: nat, off: nat, src: seq<byte>)
    requires Written(d, raw, ld, md, lraw, mraw, bs, n, o, off, src)
    ensures Content(md, mraw, bs)[off..off + |src|] == src
  {
    var c := Content(md, mraw, bs);
    forall j | off <= j < off + |src|
      ensures c[j] == src[j - off]
    {
      NewByte(d, raw, ld, md, lraw, mraw, bs, n, o, off, src, j);
    }
  }

  /** Every byte the write did not reach reads back as before. */
  lemma OldBytes(d: seq<byte>, raw: seq<byte>, ld: seq<byte>, md: seq<byte>, lraw: seq<byte>, mraw: seq<byte>,
                 bs: nat, n: nat, o: nat, off: nat, src: seq<byte>)
    requires Written(d, raw, ld, md, lraw, mraw, bs, n, o, off, src)
    ensures forall j | 0 <= j < SizeOf(raw) && (j < off || off + |src| <= j) ::
      Content(md, mraw, bs)[j] == Content(d, raw, bs)[j]
  {
    forall j | 0 <= j < SizeOf(raw) && (j < off || off + |src| <= j)
      ensures Content(md, mraw, bs)[j] == Content(d, raw, bs)[j]
    {
      OldByte(d, raw, ld, md, lraw, mraw, bs, n, o, off, src, j);
    }
  }

  /** Read-after-write for `Node::write_all`: when the node's data lies
      in `n` direct blocks that are apart from each other and from the
      inode record, inside the device and below 4 GiB, and its old bytes
      all had blocks, the data read back holds `src` at `off` and its
      old bytes everywhere else, and is as long as the larger of the old
      size and the end of the write. */
  lemma NodeWriteData(im: Image, geo: Geometry, number: nat, off: nat, src: seq<byte>, n: nat)
    requires Laid(im, geo, number, off, src, n)
    ensures var m := NodeWrite(im, geo, number, off, src).value;
      Addressable(m.raw, geo.blockSize) &&
      |Content(m.disk, m.raw, geo.blockSize)| == (if off + |src| > SizeOf(im.raw) then off + |src| else SizeOf(im.raw)) &&
      Content(m.disk, m.raw, geo.blockSize)[off..off + |src|] == src &&
      forall j | 0 <= j < SizeOf(im.raw) && (j < off || off + |src| <= j) ::
        Content(m.disk, m.raw, geo.blockSize)[j] == Content(im.disk, im.raw, geo.blockSize)[j]
  {
    var bs, o := geo.blockSize, RecordOffset(geo, number);
    LaidParts(im, geo, number, off, src, n);
    var l, m := WriteLoop(im, geo, off, src).value, NodeWrite(im, geo, number, off, src).value;
    NewBytes(im.disk, im.raw, l.disk, m.disk, l.raw, m.raw, bs, n, o, off, src);
    OldBytes(im.disk, im.raw, l.disk, m.disk, l.raw, m.raw, bs, n, o, off, src);
  }

  /** A write at the end of the data, `createDirectoryEntry`'s, leaves
      the old data followed by the bytes written. */
  lemma NodeWriteAppends(im: Image, geo: Geometry, number: nat, src: seq<byte>, n: nat)
    requires |im.raw| == InodeSize && Laid(im, geo, number, SizeOf(im.raw), src, n)
    ensures var m := NodeWrite(im, geo, number, SizeOf(im.raw), src).value;
      Addressable(m.raw, geo.blockSize) &&
      Content(m.disk, m.raw, geo.blockSize) == Content(im.disk, im.raw, geo.blockSize) + src
  {
    var off := SizeOf(im.raw);
    NodeWriteData(im, geo, number, off, src, n);
    var m := NodeWrite(im, geo, number, off, src).value;
    Grown(Content(im.disk, im.raw, geo.blockSize), Content(m.disk, m.raw, geo.blockSize), src);
  }

  /** A write inside the data, `deleteFromDirectory`'s, keeps the size
      and leaves the old data with the bytes written spliced in. */
  lemma NodeWriteOver(im: Image, geo: Geometry, number: nat, off: nat, src: seq<byte>, n: nat)
    requires Laid(im, geo, number, off, src, n) && off + |src| <= SizeOf(im.raw)
    ensures var m := NodeWrite(im, geo, number, off, src).value;
      Addressable(m.raw, geo.blockSize) && SizeOf(m.raw) == SizeOf(im.raw) && m.blocks == im.blocks &&
      Content(m.disk, m.raw, geo.blockSize) == Splice(Content(im.disk, im.raw, geo.blockSize), off, src)
  {
    NodeWriteData(im, geo, number, off, src, n);
    OverKeepsBlocks(im, geo, number, off, src);
    var m := NodeWrite(im, geo, number, off, src).value;
    Overwritten(Content(im.disk, im.raw, geo.blockSize), Content(m.disk, m.raw, geo.blockSize), off, src);
  }

  /** A write inside mapped data allocates no block. */
  lemma OverKeepsBlocks(im: Image, geo: Geometry, number: nat, off: nat, src: seq<byte>)
    requires Shaped(im, geo) && Located(geo, number) && geo.blockSize % Sector == 0
    requires 0 < |src| && off + |src| <= SizeOf(im.raw) && Mapped(im.raw, 0, (SizeOf(im.raw) - 1) / geo.blockSize)
    requires NodeWrite(im, geo, number, off, src).Some?
    ensures NodeWrite(im, geo, number, off, src).value.blocks == im.blocks
  {
    MappedInside(im.raw, geo.blockSize, off, off + |src| - 1, SizeOf(im.raw) - 1);
    NodeWriteAllocatesNothing(im, geo, number, off, src);
  }

  /** The blocks of bytes `lo` to `hi` of data whose blocks up to byte
      `top` are all mapped are mapped. */
  lemma MappedInside(raw: seq<byte>, bs: nat, lo: nat, hi: nat, top: nat)
    requires |raw| == InodeSize && bs > 0 && lo <= hi <= top && Mapped(raw, 0, top / bs)
    ensures Mapped(raw, lo / bs, hi / bs)
  {
    var h, t := hi / bs, top / bs;
    DivMono(hi, top, bs);
    forall b | lo / bs <= b <= h && b < Direct
      ensures Pointer(raw, b) != 0
    {
      assert 0 <= b <= t;
    }
  }

  /** Data of the old length that holds `src` at `off` and its old
      bytes elsewhere is the old data with `src` spliced in. */
  lemma Overwritten(c: seq<byte>, c2: seq<byte>, off: nat, src: seq<byte>)
    requires |c2| == |c| && off + |src| <= |c| && c2[off..off + |src|] == src
    requires forall j | 0 <= j < |c| && (j < off || off + |src| <= j) :: c2[j] == c[j]
    ensures c2 == Splice(c, off, src)
  {
    SpliceAt(c, off, src);
    forall j | 0 <= j < |c2|
      ensures c2[j] == Splice(c, off, src)[j]
    {
      if off <= j < off + |src| {
        assert c2[off..off + |src|][j - off] == src[j - off];
      }
    }
  }

  /** Data that kept its old bytes and holds `rec` right after them is
      the old data followed by `rec`. */
  lemma Grown(c: seq<byte>, c2: seq<byte>, rec: seq<byte>)
    requires |c2| == |c| + |rec| && c2[|c|..|c| + |rec|] == rec
    requires forall j | 0 <= j < |c| :: c2[j] == c[j]
    ensures c2 == c + rec
  {
    forall j | 0 <= j < |c2|
      ensures c2[j] == (c + rec)[j]
    {
      if j >= |c| {
        assert c2[|c|..|c| + |rec|][j - |c|] == rec[j - |c|];
      }
    }
  }
}
