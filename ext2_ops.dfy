/** What the ext2 driver's compound operations do, stated on values:
    the inode record `createInode` builds, and (further down) the
    deletion of directory entries and nodes and the creation of nodes. */
module Ext2Ops {
  import opened Bytes
  import CString
  import opened Device
  import opened Ext2Layout
  import opened Ext2Bitmap
  import opened Ext2Dir
  import opened Ext2Node

  // ---------------------------------------------------------------
  // A new inode record

  /** The record `createInode` has built before its pointer loop: the
      type at 0, size 0 at 4 and one link at 26. Every other byte is
      whatever the stack buffer held, here `junk`. */
  function Fresh(fileType: nat, junk: seq<byte>): (r: seq<byte>)
    requires |junk| == InodeSize
    ensures |r| == InodeSize
  {
    Splice(Splice(Splice(junk, 0, Bytes16(fileType)), 4, Bytes32(0)), 26, Bytes16(1))
  }

  /** ... and once the loop has zeroed the fifteen block pointers. */
  function NewInode(fileType: nat, junk: seq<byte>): (r: seq<byte>)
    requires |junk| == InodeSize
    ensures |r| == InodeSize
  {
    Splice(Fresh(fileType, junk), PointersAt, Zeros(4 * PointerCount))
  }

  /** A new record has the given type, size 0, one link and no blocks. */
  lemma NewInodeFields(fileType: nat, junk: seq<byte>)
    requires |junk| == InodeSize && fileType < Two16
    ensures var r := NewInode(fileType, junk);
      Mode(r) == fileType && SizeOf(r) == 0 && Links(r) == 1 &&
      (forall i | 0 <= i < PointerCount :: Pointer(r, i) == 0)
  {
    var a := Splice(junk, 0, Bytes16(fileType));
    var b := Splice(a, 4, Bytes32(0));
    var c := Splice(b, 26, Bytes16(1));
    var r := Splice(c, PointersAt, Zeros(4 * PointerCount));
    SpliceAt(junk, 0, Bytes16(fileType));
    SpliceAt(a, 4, Bytes32(0));
    SpliceAt(b, 26, Bytes16(1));
    SpliceAt(c, PointersAt, Zeros(4 * PointerCount));
    LE16Bytes16(junk, 0, fileType);
    LE32Bytes32(a, 4, 0);
    LE16Bytes16(b, 26, 1);
    assert r[0..2] == a[0..2] && r[4..8] == b[4..8] && r[26..28] == c[26..28];
    LE16Local(r, a, 0, 0);
    LE32Local(r, b, 4, 4);
    LE16Local(r, c, 26, 26);
    ZeroedPointers(c);
  }

  /** Zeroing the pointer area zeroes every pointer. */
  lemma ZeroedPointers(c: seq<byte>)
    requires |c| == InodeSize
    ensures forall i | 0 <= i < PointerCount :: Pointer(Splice(c, PointersAt, Zeros(4 * PointerCount)), i) == 0
  {
    var r := Splice(c, PointersAt, Zeros(4 * PointerCount));
    SpliceAt(c, PointersAt, Zeros(4 * PointerCount));
    forall i | 0 <= i < PointerCount
      ensures Pointer(r, i) == 0
    {
      var o := PointersAt + 4 * i;
      assert r[o] == 0 && r[o + 1] == 0 && r[o + 2] == 0 && r[o + 3] == 0;
    }
  }

  /** The bytes of a new record between those fields are left as they
      were. */
  lemma NewInodeLeaves(fileType: nat, junk: seq<byte>)
    requires |junk| == InodeSize
    ensures var r := NewInode(fileType, junk);
      r[2..4] == junk[2..4] && r[8..26] == junk[8..26] && r[28..PointersAt] == junk[28..PointersAt] &&
      r[PointersAt + 4 * PointerCount..] == junk[PointersAt + 4 * PointerCount..]
  {
    var a := Splice(junk, 0, Bytes16(fileType));
    var b := Splice(a, 4, Bytes32(0));
    var c := Splice(b, 26, Bytes16(1));
    var r := Splice(c, PointersAt, Zeros(4 * PointerCount));
    SpliceAt(junk, 0, Bytes16(fileType));
    SpliceAt(a, 4, Bytes32(0));
    SpliceAt(b, 26, Bytes16(1));
    SpliceAt(c, PointersAt, Zeros(4 * PointerCount));
    assert r[2..4] == junk[2..4] && r[8..26] == junk[8..26] && r[28..PointersAt] == junk[28..PointersAt];
    assert r[PointersAt + 4 * PointerCount..] == junk[PointersAt + 4 * PointerCount..];
  }

  // ---------------------------------------------------------------
  // Deleting a directory entry

  /** `deleteFromDirectory(t)` on the node with record `im.raw`: the
      first record numbered `t` in the node's data, if any, is written
      over with a tombstone of its length by `Node::write_all`; None is
      that write's panic. */
  function Unlink(im: Image, geo: Geometry, number: nat, t: nat): (r: Option<Image>)
    requires Shaped(im, geo) && Located(geo, number) && Addressable(im.raw, geo.blockSize)
    requires Chain(Content(im.disk, im.raw, geo.blockSize), 0)
    ensures r.Some? ==> Shaped(r.value, geo)
  {
    var d := Content(im.disk, im.raw, geo.blockSize);
    match FirstWith(d, 0, t)
    case None => Some(im)
    case Some(o) => NodeWrite(im, geo, number, o, Tombstone(RecLenAt(d, o)))
  }

  /** `Unlink` once the scan's result is known. */
  lemma UnlinkAt(im: Image, geo: Geometry, number: nat, t: nat, at: Option<nat>, len: nat)
    requires Shaped(im, geo) && Located(geo, number) && Addressable(im.raw, geo.blockSize)
    requires Chain(Content(im.disk, im.raw, geo.blockSize), 0)
    requires at == FirstWith(Content(im.disk, im.raw, geo.blockSize), 0, t)
    requires at.Some? ==> len == RecLenAt(Content(im.disk, im.raw, geo.blockSize), at.value)
    ensures at.None? ==> Unlink(im, geo, number, t) == Some(im)
    ensures at.Some? ==> at.value < Two32 && len < Two32
    ensures at.Some? ==> Unlink(im, geo, number, t) == NodeWrite(im, geo, number, at.value, Tombstone(len))
  {
  }

  /** The record `tombstone` write keeps every block bitmap's length. */
  lemma UnlinkAlike(im: Image, geo: Geometry, number: nat, t: nat)
    requires Shaped(im, geo) && Located(geo, number) && Addressable(im.raw, geo.blockSize)
    requires Chain(Content(im.disk, im.raw, geo.blockSize), 0)
    ensures Unlink(im, geo, number, t).Some? ==> Alike(im.blocks, Unlink(im, geo, number, t).value.blocks)
  {
    var d := Content(im.disk, im.raw, geo.blockSize);
    match FirstWith(d, 0, t)
    case None =>
    case Some(o) => NodeWriteAlike(im, geo, number, o, Tombstone(RecLenAt(d, o)));
  }

  // ---------------------------------------------------------------
  // Deleting a node

  /** What deleting nodes touches: the device and both sets of
      bitmaps. */
  datatype Volume = Volume(disk: seq<byte>, inodes: seq<seq<bv8>>, blocks: seq<seq<bv8>>)

  /** One inode bitmap and one block bitmap per group, each with a bit
      for every structure of its group. */
  predicate Sound(v: Volume, geo: Geometry)
  {
    geo.blockSize > 0 && 0 < geo.blocksPerGroup && 0 < geo.inodesPerGroup &&
    |v.inodes| == |geo.table| && |v.blocks| == |geo.table| &&
    Covers(v.inodes, geo.inodesPerGroup) && Covers(v.blocks, geo.blocksPerGroup)
  }

  /** A sound volume with a 128-byte record is a shape node writes take. */
  lemma SoundShaped(v: Volume, geo: Geometry, raw: seq<byte>)
    requires Sound(v, geo) && |raw| == InodeSize
    ensures Shaped(Image(v.disk, v.blocks, raw), geo)
  {
    forall h | 0 <= h < |v.blocks|
      ensures geo.blocksPerGroup / 8 <= |v.blocks[h]|
    {
    }
  }

  /** The block loop of `deleteNode` from pointer `i`: pointers are
      freed in order up to the first that is 0 or the fifteenth. None
      when a pointer names a block past the last group, where
      `freeBlock` would index outside the bitmap table. */
  function Release(blocks: seq<seq<bv8>>, raw: seq<byte>, perGroup: nat, i: nat): (r: Option<seq<seq<bv8>>>)
    requires |raw| == InodeSize && perGroup > 0 && Covers(blocks, perGroup) && i <= PointerCount
    ensures r.Some? ==> Alike(blocks, r.value)
    decreases PointerCount - i
  {
    if i == PointerCount || Pointer(raw, i) == 0 then Some(blocks)
    else if Pointer(raw, i) / perGroup >= |blocks| then None
    else Release(Free(blocks, Pointer(raw, i), perGroup), raw, perGroup, i + 1)
  }

  /** The block loop has reached pointer `i` with bitmaps `blocks`,
      and the whole loop gives `goal`. */
  predicate Pending(goal: Option<seq<seq<bv8>>>, blocks: seq<seq<bv8>>, raw: seq<byte>, perGroup: nat, i: nat)
  {
    |raw| == InodeSize && perGroup > 0 && Covers(blocks, perGroup) && i <= PointerCount &&
    goal == Release(blocks, raw, perGroup, i)
  }

  /** One pass of the loop, with the bitmaps after it named. */
  lemma ReleaseStep(blocks: seq<seq<bv8>>, raw: seq<byte>, perGroup: nat, i: nat, next: seq<seq<bv8>>)
    requires |raw| == InodeSize && perGroup > 0 && Covers(blocks, perGroup) && i < PointerCount
    requires Pointer(raw, i) != 0 && Pointer(raw, i) / perGroup < |blocks|
    requires next == Free(blocks, Pointer(raw, i), perGroup)
    ensures Covers(next, perGroup) && Release(blocks, raw, perGroup, i) == Release(next, raw, perGroup, i + 1)
  {
  }

  /** The loop ends at the fifteenth pointer or the first that is 0. */
  lemma ReleaseDone(blocks: seq<seq<bv8>>, raw: seq<byte>, perGroup: nat, i: nat)
    requires |raw| == InodeSize && perGroup > 0 && Covers(blocks, perGroup) && i <= PointerCount
    requires i == PointerCount || Pointer(raw, i) == 0
    ensures Release(blocks, raw, perGroup, i) == Some(blocks)
  {
  }

  /** Block `k` of group `g` is one that the loop from pointer `i`
      frees. */
  predicate Listed(raw: seq<byte>, perGroup: nat, i: nat, g: nat, k: nat)
    requires |raw| == InodeSize && perGroup > 0 && i <= PointerCount
    decreases PointerCount - i
  {
    i < PointerCount && Pointer(raw, i) != 0 &&
    ((Pointer(raw, i) / perGroup == g && Pointer(raw, i) % perGroup == k) || Listed(raw, perGroup, i + 1, g, k))
  }

  /** The block loop from pointer `i` clears exactly the bits of the
      blocks it lists, and every other bit keeps its value. */
  lemma {:induction false} ReleaseClears(blocks: seq<seq<bv8>>, raw: seq<byte>, perGroup: nat, i: nat)
    requires |raw| == InodeSize && perGroup > 0 && Covers(blocks, perGroup) && i <= PointerCount
    ensures var r := Release(blocks, raw, perGroup, i);
      r.Some? ==>
        forall g, k | 0 <= g < |blocks| && 0 <= k < 8 * |blocks[g]| ::
          Used(r.value[g], k) == (Used(blocks[g], k) && !Listed(raw, perGroup, i, g, k))
    decreases PointerCount - i
  {
    if i < PointerCount && Pointer(raw, i) != 0 && Pointer(raw, i) / perGroup < |blocks| {
      var p := Pointer(raw, i);
      var next := Free(blocks, p, perGroup);
      ReleaseStep(blocks, raw, perGroup, i, next);
      FreeUsed(blocks, p, perGroup);
      ReleaseClears(next, raw, perGroup, i + 1);
      var r := Release(next, raw, perGroup, i + 1);
      if r.Some? {
        ClearsStep(blocks, next, r.value, raw, perGroup, i);
      }
    }
  }

  /** Freeing pointer `i`'s block and then the blocks listed from
      `i + 1` clears the blocks listed from `i`. */
  lemma ClearsStep(a: seq<seq<bv8>>, b: seq<seq<bv8>>, c: seq<seq<bv8>>, raw: seq<byte>, perGroup: nat, i: nat)
    requires |raw| == InodeSize && perGroup > 0 && i < PointerCount && Pointer(raw, i) != 0
    requires Alike(a, b) && Alike(b, c)
    requires forall g, k | 0 <= g < |a| && 0 <= k < 8 * |a[g]| ::
      Used(b[g], k) == (Used(a[g], k) && !(g == Pointer(raw, i) / perGroup && k == Pointer(raw, i) % perGroup))
    requires forall g, k | 0 <= g < |b| && 0 <= k < 8 * |b[g]| ::
      Used(c[g], k) == (Used(b[g], k) && !Listed(raw, perGroup, i + 1, g, k))
    ensures forall g, k | 0 <= g < |a| && 0 <= k < 8 * |a[g]| ::
      Used(c[g], k) == (Used(a[g], k) && !Listed(raw, perGroup, i, g, k))
  {
  }

  /** Whether `deleteNode` frees the node's blocks: all but a symbolic
      link shorter than 60 bytes. */
  predicate FreesBlocks(kind: nat, self: seq<byte>)
    requires |self| == InodeSize
  {
    !(IsSymlink(kind) && SizeOf(self) < 60)
  }

  /** The block bitmaps after `deleteNode`'s block loop: the bits of
      the node's listed blocks are clear when its blocks are freed, and
      every other bit is as before. */
  lemma FreedClears(v: Volume, geo: Geometry, kind: nat, self: seq<byte>)
    requires Sound(v, geo) && |self| == InodeSize
    ensures var r := Freed(v, geo, kind, self);
      r.Some? ==>
        forall g, k | 0 <= g < |v.blocks| && 0 <= k < 8 * |v.blocks[g]| ::
          Used(r.value[g], k) ==
            (Used(v.blocks[g], k) && !(FreesBlocks(kind, self) && Listed(self, geo.blocksPerGroup, 0, g, k)))
  {
    if FreesBlocks(kind, self) {
      ReleaseClears(v.blocks, self, geo.blocksPerGroup, 0);
    }
  }

  /** The outcome of `deleteNode`: the volume with the node's and its
      parent's in-memory records; a panic; or a fault, which is running
      out of `fuel` (the recursion need not end) or a read or free
      outside what the driver can reach. */
  datatype Outcome = Done(v: Volume, self: seq<byte>, parent: seq<byte>) | Panic | Fault

  /** The outcome `r` of `deleteNode` whose unlinking from the parent
      gave `w`, once inode `t` is freed in the inode bitmaps `inodes`. */
  predicate Unhooked(r: Outcome, w: Option<Image>, inodes: seq<seq<bv8>>, t: nat, perGroup: nat)
  {
    (w.None? ==> r == Panic) &&
    (w.Some? ==>
       perGroup > 0 && U32(t - 1) / perGroup < |inodes| && Covers(inodes, perGroup) &&
       r.Done? && r.parent == w.value.raw &&
       r.v == Volume(w.value.disk, Free(inodes, U32(t - 1), perGroup), w.value.blocks))
  }

  /** A run of `deleteNode` that ends as `r` says: it panicked exactly
      when `r` is a panic, and otherwise left the volume `now` and the
      parent's record `parent` that `r` names. */
  predicate Reached(r: Outcome, panicked: bool, now: Volume, parent: seq<byte>)
  {
    (panicked <==> r.Panic?) && (!panicked ==> r.Done? && now == r.v && parent == r.parent)
  }

  /** ... and, when it did not panic, the node's own record is as `r`
      has it. */
  predicate Ended(r: Outcome, panicked: bool, now: Volume, self: seq<byte>, parent: seq<byte>)
  {
    Reached(r, panicked, now, parent) && (!panicked ==> self == r.self)
  }

  /** The inode number `deleteNode` reads from the first record of a
      nonempty directory; 0, which names no child, otherwise. */
  function Head(disk: seq<byte>, raw: seq<byte>, bs: nat, kind: nat): nat
    requires |raw| == InodeSize
    requires IsDir(kind) && SizeOf(raw) > 0 ==> Addressable(raw, bs) && SizeOf(raw) >= 4
  {
    if IsDir(kind) && SizeOf(raw) > 0 then LE32(Content(disk, raw, bs), 0) else 0
  }

  /** A bound on the depth of `deleteNode`'s recursion: none left, or
      one step more than `rest`. */
  datatype Fuel = Spent | More(rest: Fuel)

  /** `deleteNode(parent)` on inode `number` of type `kind` with record
      `self`, whose parent is inode `up` with record `parent`. A
      directory first deletes the node its first record names, unless
      that is 0 or the directory itself, with this node as the child's
      parent and one step of fuel less; the loop stops after that one
      record; then `Remove`. The recursion need not end, so `fuel`
      bounds it: a Fault when it runs out. */
  function Deletion(v: Volume, geo: Geometry, number: nat, kind: nat, self: seq<byte>,
                    up: nat, parent: seq<byte>, fuel: Fuel): (r: Outcome)
    requires Sound(v, geo) && Located(geo, number) && |self| == InodeSize && |parent| == InodeSize
    ensures r.Done? ==> Sound(r.v, geo) && |r.self| == InodeSize && |r.parent| == InodeSize
    decreases fuel
  {
    if fuel.Spent? then Fault
    else if IsDir(kind) && SizeOf(self) > 0 && !(Addressable(self, geo.blockSize) && SizeOf(self) >= 4) then Fault
    else
      var ino := Head(v.disk, self, geo.blockSize, kind);
      if ino == 0 || ino == number then Remove(v, geo, number, kind, self, up, parent)
      else if !Located(geo, ino) then Fault
      else
        var child := Read(v.disk, RecordOffset(geo, ino), InodeSize);
        match Deletion(v, geo, ino, Kind(Mode(child)), child, number, self, fuel.rest)
        case Done(w, _, s) => Remove(w, geo, number, kind, s, up, parent)
        case Panic => Panic
        case Fault => Fault
  }

  /** The block loop of `deleteNode`: the bitmaps once the data blocks
      are freed, which is skipped for a symbolic link shorter than 60
      bytes, whose target lives in the record. */
  function Freed(v: Volume, geo: Geometry, kind: nat, self: seq<byte>): (r: Option<seq<seq<bv8>>>)
    requires Sound(v, geo) && |self| == InodeSize
    ensures r.Some? ==> Alike(v.blocks, r.value)
  {
    if !FreesBlocks(kind, self) then Some(v.blocks)
    else Release(v.blocks, self, geo.blocksPerGroup, 0)
  }

  /** Whether the rest of `deleteNode` stays inside what the driver can
      reach: every freed block in a group, and a parent record that
      addresses its data and holds a well-formed chain of records. */
  predicate Removable(v: Volume, geo: Geometry, number: nat, kind: nat, self: seq<byte>,
                      up: nat, parent: seq<byte>)
    requires Sound(v, geo) && |self| == InodeSize && |parent| == InodeSize
  {
    Freed(v, geo, kind, self).Some? && Located(geo, up) && Addressable(parent, geo.blockSize) &&
    Chain(Content(v.disk, parent, geo.blockSize), 0)
  }

  lemma FreedShaped(v: Volume, geo: Geometry, number: nat, kind: nat, self: seq<byte>,
                    up: nat, parent: seq<byte>)
    requires Sound(v, geo) && |self| == InodeSize && |parent| == InodeSize
    requires Removable(v, geo, number, kind, self, up, parent)
    ensures Sound(v.(blocks := Freed(v, geo, kind, self).value), geo)
    ensures Shaped(Image(v.disk, Freed(v, geo, kind, self).value, parent), geo)
  {
    SoundShaped(v.(blocks := Freed(v, geo, kind, self).value), geo, parent);
  }

  /** The rest of `deleteNode`: the data blocks are freed, then the
      parent's record for the node is tombstoned and the inode freed. */
  function Remove(v: Volume, geo: Geometry, number: nat, kind: nat, self: seq<byte>,
                  up: nat, parent: seq<byte>): (r: Outcome)
    requires Sound(v, geo) && Located(geo, number) && |self| == InodeSize && |parent| == InodeSize
    ensures r.Done? ==> Sound(r.v, geo) && r.self == self && |r.parent| == InodeSize
  {
    if !Removable(v, geo, number, kind, self, up, parent) then Fault
    else
      var blocks := Freed(v, geo, kind, self).value;
      var im := Image(v.disk, blocks, parent);
      FreedShaped(v, geo, number, kind, self, up, parent);
      UnlinkAlike(im, geo, up, number);
      match Unlink(im, geo, up, number)
      case None => Panic
      case Some(u) => Done(Volume(u.disk, Free(v.inodes, U32(number - 1), geo.inodesPerGroup), u.blocks), self, u.raw)
  }

  /** `Remove` once its blocks are free: what the record's unlinking
      from the parent's image `im` gives. */
  lemma RemoveUnlinks(v: Volume, geo: Geometry, number: nat, kind: nat, self: seq<byte>,
                      up: nat, parent: seq<byte>, im: Image, w: Option<Image>)
    requires Sound(v, geo) && Located(geo, number) && |self| == InodeSize && |parent| == InodeSize
    requires Removable(v, geo, number, kind, self, up, parent)
    requires im == Image(v.disk, Freed(v, geo, kind, self).value, parent) && Shaped(im, geo)
    requires w == Unlink(im, geo, up, number)
    ensures w.None? ==> Remove(v, geo, number, kind, self, up, parent) == Panic
    ensures w.Some? ==>
      Remove(v, geo, number, kind, self, up, parent) ==
        Done(Volume(w.value.disk, Free(v.inodes, U32(number - 1), geo.inodesPerGroup), w.value.blocks), self, w.value.raw)
  {
  }

  /** A `Deletion` that is no fault has fuel left, and a directory
      among them can read its first record. */
  lemma DeletionStart(v: Volume, geo: Geometry, number: nat, kind: nat, self: seq<byte>,
                     up: nat, parent: seq<byte>, fuel: Fuel)
    requires Sound(v, geo) && Located(geo, number) && |self| == InodeSize && |parent| == InodeSize
    requires Deletion(v, geo, number, kind, self, up, parent, fuel) != Fault
    ensures fuel.More?
    ensures IsDir(kind) && SizeOf(self) > 0 ==> Addressable(self, geo.blockSize) && SizeOf(self) >= 4
  {
  }

  lemma DeletionLeaf(v: Volume, geo: Geometry, number: nat, kind: nat, self: seq<byte>,
                    up: nat, parent: seq<byte>, fuel: Fuel)
    requires Sound(v, geo) && Located(geo, number) && |self| == InodeSize && |parent| == InodeSize
    requires Deletion(v, geo, number, kind, self, up, parent, fuel) != Fault
    requires IsDir(kind) && SizeOf(self) > 0 ==> Addressable(self, geo.blockSize) && SizeOf(self) >= 4
    requires Head(v.disk, self, geo.blockSize, kind) in {0, number}
    ensures Removable(v, geo, number, kind, self, up, parent)
    ensures Deletion(v, geo, number, kind, self, up, parent, fuel) == Remove(v, geo, number, kind, self, up, parent)
  {
  }

  lemma DeletionChild(v: Volume, geo: Geometry, number: nat, kind: nat, self: seq<byte>,
                     up: nat, parent: seq<byte>, fuel: Fuel, ino: nat) returns (child: seq<byte>, c: Outcome)
    requires Sound(v, geo) && Located(geo, number) && |self| == InodeSize && |parent| == InodeSize
    requires Deletion(v, geo, number, kind, self, up, parent, fuel) != Fault
    requires IsDir(kind) && SizeOf(self) > 0 ==> Addressable(self, geo.blockSize) && SizeOf(self) >= 4
    requires ino == Head(v.disk, self, geo.blockSize, kind) && ino != 0 && ino != number
    ensures Located(geo, ino) && fuel.More?
    ensures child == Read(v.disk, RecordOffset(geo, ino), InodeSize)
    ensures c == Deletion(v, geo, ino, Kind(Mode(child)), child, number, self, fuel.rest) && c != Fault
  {
    child := Read(v.disk, RecordOffset(geo, ino), InodeSize);
    c := Deletion(v, geo, ino, Kind(Mode(child)), child, number, self, fuel.rest);
  }

  lemma DeletionAfter(v: Volume, geo: Geometry, number: nat, kind: nat, self: seq<byte>,
                     up: nat, parent: seq<byte>, fuel: Fuel, ino: nat, c: Outcome)
    requires Sound(v, geo) && Located(geo, number) && |self| == InodeSize && |parent| == InodeSize
    requires Deletion(v, geo, number, kind, self, up, parent, fuel) != Fault
    requires IsDir(kind) && SizeOf(self) > 0 ==> Addressable(self, geo.blockSize) && SizeOf(self) >= 4
    requires ino == Head(v.disk, self, geo.blockSize, kind) && ino != 0 && ino != number
    requires Located(geo, ino) && fuel.More?
    requires c == Deletion(v, geo, ino, Kind(Mode(Read(v.disk, RecordOffset(geo, ino), InodeSize))),
                           Read(v.disk, RecordOffset(geo, ino), InodeSize), number, self, fuel.rest)
    ensures c.Panic? ==> Deletion(v, geo, number, kind, self, up, parent, fuel) == Panic
    ensures c.Done? ==> Sound(c.v, geo) && |c.parent| == InodeSize
    ensures c.Done? ==> Removable(c.v, geo, number, kind, c.parent, up, parent)
    ensures c.Done? ==> Deletion(v, geo, number, kind, self, up, parent, fuel) == Remove(c.v, geo, number, kind, c.parent, up, parent)
  {
  }

  /** The outcome of a deletion through its first child: the child's
      `c` and then the removal of this node, as the caller ends them. */
  lemma DeletionEnded(v: Volume, geo: Geometry, number: nat, kind: nat, self: seq<byte>,
                      up: nat, parent: seq<byte>, fuel: Fuel, ino: nat, c: Outcome,
                      panicked: bool, now: Volume, selfNow: seq<byte>, parentNow: seq<byte>)
    requires Sound(v, geo) && Located(geo, number) && |self| == InodeSize && |parent| == InodeSize
    requires Deletion(v, geo, number, kind, self, up, parent, fuel) != Fault
    requires IsDir(kind) && SizeOf(self) > 0 ==> Addressable(self, geo.blockSize) && SizeOf(self) >= 4
    requires ino == Head(v.disk, self, geo.blockSize, kind) && ino != 0 && ino != number
    requires Located(geo, ino) && fuel.More?
    requires c == Deletion(v, geo, ino, Kind(Mode(Read(v.disk, RecordOffset(geo, ino), InodeSize))),
                           Read(v.disk, RecordOffset(geo, ino), InodeSize), number, self, fuel.rest)
    requires c.Panic? ==> panicked
    requires c.Done? ==> Sound(c.v, geo) && |c.parent| == InodeSize && Removable(c.v, geo, number, kind, c.parent, up, parent)
    requires c.Done? ==> Ended(Remove(c.v, geo, number, kind, c.parent, up, parent), panicked, now, selfNow, parentNow)
    ensures Ended(Deletion(v, geo, number, kind, self, up, parent, fuel), panicked, now, selfNow, parentNow)
  {
    DeletionAfter(v, geo, number, kind, self, up, parent, fuel, ino, c);
  }
}
