/** The directory tree the driver builds and walks, on the device
    bytes, the block bitmaps and the inode records as values: the record
    `createDirectoryEntry` appends to a directory, the records
    `createNode` gives a new directory, and the path walk of
    `Ext2::find`. */
module Ext2Tree {
  import opened Bytes
  import CString
  import opened Device
  import opened Ext2Layout
  import opened Ext2Bitmap
  import opened Ext2Node
  import opened Ext2Dir
  import Ext2Data
  import opened Ext2Ops

  /** `createNode`'s `fileType` for a type indicator: a regular file
      for 1, a symbolic link for 7, a directory for anything else. */
  function FileType(t: byte): nat
  {
    if t == FileEntry then FileMode else if t == LinkEntry then SymlinkMode else DirMode
  }

  /** The inode number `findAvailableInode` hands `createNode`, when it
      is at least 1, has a block group. */
  lemma TakenLocated(maps: seq<seq<bv8>>, geo: Geometry)
    requires 0 < geo.inodesPerGroup && Fit(maps, geo.inodesPerGroup / 8) && |maps| == |geo.table|
    ensures var r := Allocate(maps, 1, geo.inodesPerGroup).result;
      r >= 1 ==> Located(geo, r)
  {
    var r := Allocate(maps, 1, geo.inodesPerGroup).result;
    AllocatedBelow(maps, 1, geo.inodesPerGroup);
    if r >= 1 {
      Ext2Data.DivBelow(r - 1, |maps|, geo.inodesPerGroup);
      assert U32(r - 1) == r - 1;
    }
  }

  /** `createInode(fileType, number)`'s write: the fresh record of
      type `FileType(t)` in the slot of inode `number`. */
  function Seeded(d: seq<byte>, geo: Geometry, number: nat, t: byte, junk: seq<byte>): (r: seq<byte>)
    requires Located(geo, number) && |junk| == InodeSize
    ensures |r| == |d|
  {
    Spread(d, RecordOffset(geo, number), NewInode(FileType(t), junk))
  }

  /** The node `get_node` then reads for inode `number` has the fresh
      record: size 0, and the kind its type indicator names, through
      `get_node`'s `typesAndPermissions & 0xF000`. */
  lemma SeededNode(d: seq<byte>, geo: Geometry, number: nat, t: byte, junk: seq<byte>)
    requires Located(geo, number) && |junk| == InodeSize
    requires RecordOffset(geo, number) + InodeSize <= |d| && RecordOffset(geo, number) + InodeSize < Two32
    ensures var h := Fetch(Seeded(d, geo, number, t, junk), geo, number);
      h.raw == NewInode(FileType(t), junk) && SizeOf(h.raw) == 0 &&
      (IsFile(h.kind) <==> t == FileEntry) && (IsSymlink(h.kind) <==> t == LinkEntry) &&
      (IsDir(h.kind) <==> t != FileEntry && t != LinkEntry)
  {
    SpreadRead(d, RecordOffset(geo, number), NewInode(FileType(t), junk));
    NewInodeFields(FileType(t), junk);
  }

  /** The bytes `createDirectoryEntry(name, inode, t, dir)` appends:
      the record for the C string `name`, its padding taken from `junk`,
      the three bytes the stack buffer held there. */
  function DirRecord(name: seq<byte>, inode: int, t: byte, junk: seq<byte>): (r: seq<byte>)
    requires CString.Terminated(name) && |junk| == 3
    ensures |r| == RecLen(CString.Len(name))
  {
    var n := CString.Len(name);
    Record(inode, CString.Content(name), t, junk[..RecLen(n) - 8 - n])
  }

  /** The bytes of `DirRecord` one by one: the header fields, then the
      name, then the padding from `junk`. */
  lemma DirRecordAt(name: seq<byte>, inode: int, t: byte, junk: seq<byte>)
    requires CString.Terminated(name) && |junk| == 3
    ensures var r := DirRecord(name, inode, t, junk);
      var n := CString.Len(name);
      (forall k | 0 <= k < 4 :: r[k] == Bytes32(inode)[k]) &&
      (forall k | 4 <= k < 6 :: r[k] == Bytes16(RecLen(n))[k - 4]) &&
      r[6] == n % 256 && r[7] == t &&
      (forall k | 8 <= k < 8 + n :: r[k] == name[k - 8]) &&
      (forall k | 8 + n <= k < |r| :: r[k] == junk[k - 8 - n])
  {
  }

  /** A well-formed directory's entries. */
  function Listing(d: seq<byte>): seq<Entry>
    requires |d| < Two32 && Tiled(d, 0)
  {
    TiledChain(d, 0);
    Entries(d, 0)
  }

  /** `createDirectoryEntry` on values: `dir->write_all` of the record at
      `dir->size_in_bytes()`; None when that write panics. */
  function Entered(im: Image, geo: Geometry, number: nat, name: seq<byte>, inode: int, t: byte,
                   junk: seq<byte>): Option<Image>
    requires Shaped(im, geo) && Located(geo, number)
    requires CString.Terminated(name) && |name| < Two32 - 10 && |junk| == 3
  {
    NodeWrite(im, geo, number, SizeOf(im.raw), DirRecord(name, inode, t, junk))
  }

  /** The data of a directory that was written as a whole number of
      records gets exactly one entry more, at the end: the new inode
      number with the name. This holds when the write's blocks are
      placed as `Ext2Data.Laid` states, the inode number is nonzero in
      32 bits and the name fits its 8-bit length field. */
  lemma EnteredEntries(im: Image, geo: Geometry, number: nat, name: seq<byte>, inode: int, t: byte,
                       junk: seq<byte>, n: nat)
    requires Shaped(im, geo) && Located(geo, number)
    requires CString.Terminated(name) && |name| < Two32 - 10 && |junk| == 3
    requires Ext2Data.Laid(im, geo, number, SizeOf(im.raw), DirRecord(name, inode, t, junk), n)
    requires Tiled(Content(im.disk, im.raw, geo.blockSize), 0)
    requires U32(inode) != 0 && CString.Len(name) < 256
    ensures Entered(im, geo, number, name, inode, t, junk).Some?
    ensures var m := Entered(im, geo, number, name, inode, t, junk).value;
      Addressable(m.raw, geo.blockSize) && Tiled(Content(m.disk, m.raw, geo.blockSize), 0) &&
      Listing(Content(m.disk, m.raw, geo.blockSize)) ==
        Listing(Content(im.disk, im.raw, geo.blockSize)) + [Entry(U32(inode), CString.Content(name))]
  {
    Ext2Data.NodeWriteAppends(im, geo, number, DirRecord(name, inode, t, junk), n);
    EnteredListing(im, geo, number, name, inode, t, junk);
  }

  /** `EnteredEntries` once the write is known to have appended the
      record to the data. */
  lemma EnteredListing(im: Image, geo: Geometry, number: nat, name: seq<byte>, inode: int, t: byte,
                       junk: seq<byte>)
    requires Shaped(im, geo) && Located(geo, number)
    requires CString.Terminated(name) && |name| < Two32 - 10 && |junk| == 3
    requires Addressable(im.raw, geo.blockSize) && Tiled(Content(im.disk, im.raw, geo.blockSize), 0)
    requires U32(inode) != 0 && CString.Len(name) < 256
    requires Entered(im, geo, number, name, inode, t, junk).Some?
    requires var m := Entered(im, geo, number, name, inode, t, junk).value;
      Addressable(m.raw, geo.blockSize) &&
      Content(m.disk, m.raw, geo.blockSize) == Content(im.disk, im.raw, geo.blockSize) + DirRecord(name, inode, t, junk)
    ensures var m := Entered(im, geo, number, name, inode, t, junk).value;
      Tiled(Content(m.disk, m.raw, geo.blockSize), 0) &&
      Listing(Content(m.disk, m.raw, geo.blockSize)) ==
        Listing(Content(im.disk, im.raw, geo.blockSize)) + [Entry(U32(inode), CString.Content(name))]
  {
    var len := CString.Len(name);
    RecordHolds(inode, CString.Content(name), t, junk[..RecLen(len) - 8 - len]);
    AppendListing(Content(im.disk, im.raw, geo.blockSize), DirRecord(name, inode, t, junk),
                  Entry(U32(inode), CString.Content(name)));
  }

  /** Appending one record to a well-formed directory appends its entry. */
  lemma AppendListing(c: seq<byte>, rec: seq<byte>, e: Entry)
    requires Tiled(c, 0) && Holds(rec, e) && |c| + |rec| < Two32
    ensures Tiled(c + rec, 0) && Listing(c + rec) == Listing(c) + [e]
  {
    AppendTiled(c, 0, rec, e);
    AppendEntries(c, 0, rec, e);
  }

  /** `deleteFromDirectory(t)` on a well-formed directory takes the
      first entry for `t` out of its listing and leaves every other
      entry and the directory's size as they were; when no entry has
      `t`, nothing is written. This holds when the tombstone's write is
      placed as `Ext2Data.Laid` states. */
  lemma UnlinkDeletes(im: Image, geo: Geometry, number: nat, t: nat, n: nat)
    requires Shaped(im, geo) && Located(geo, number) && Addressable(im.raw, geo.blockSize) && t != 0
    requires var d := Content(im.disk, im.raw, geo.blockSize);
      Tiled(d, 0) && Chain(d, 0) &&
      (FirstWith(d, 0, t).Some? ==>
         Ext2Data.Laid(im, geo, number, FirstWith(d, 0, t).value, Tombstone(RecLenAt(d, FirstWith(d, 0, t).value)), n))
    ensures Unlink(im, geo, number, t).Some?
    ensures var d, u := Content(im.disk, im.raw, geo.blockSize), Unlink(im, geo, number, t).value;
      Addressable(u.raw, geo.blockSize) && SizeOf(u.raw) == SizeOf(im.raw) && u.blocks == im.blocks &&
      Tiled(Content(u.disk, u.raw, geo.blockSize), 0) &&
      Listing(Content(u.disk, u.raw, geo.blockSize)) == RemoveFirst(Listing(d), t)
    ensures FirstIndex(Listing(Content(im.disk, im.raw, geo.blockSize)), t).None? ==> Unlink(im, geo, number, t) == Some(im)
  {
    var d := Content(im.disk, im.raw, geo.blockSize);
    DeleteEntry(d, t);
    FirstWithInside(d, 0, t);
    if FirstWith(d, 0, t).Some? {
      var o := FirstWith(d, 0, t).value;
      Ext2Data.NodeWriteOver(im, geo, number, o, Tombstone(RecLenAt(d, o)), n);
    }
  }

  /** The tombstone write that removing node `number` from its
      parent's data makes is placed as `Ext2Data.Laid` states, on a
      well-formed parent directory. */
  predicate Detachable(v: Volume, geo: Geometry, number: nat, kind: nat, self: seq<byte>,
                       up: nat, parent: seq<byte>, n: nat)
    requires Sound(v, geo) && |self| == InodeSize && |parent| == InodeSize
    requires Removable(v, geo, number, kind, self, up, parent)
  {
    var d := Content(v.disk, parent, geo.blockSize);
    Tiled(d, 0) &&
    (FirstWith(d, 0, number).Some? ==>
       Ext2Data.Laid(Image(v.disk, Freed(v, geo, kind, self).value, parent), geo, up,
                     FirstWith(d, 0, number).value, Tombstone(RecLenAt(d, FirstWith(d, 0, number).value)), n))
  }

  /** The outcome `r` of removing node `number` (of type `kind`, with
      record `self`) from the volume `v` and its parent's record
      `parent`: it completes with the node's record as given, and then
      the parent, the inode bitmaps and the block bitmaps are as
      `Unlisted`, `InodeCleared` and `BlocksCleared` say. */
  predicate Detached(r: Outcome, v: Volume, geo: Geometry, number: nat, kind: nat, self: seq<byte>, parent: seq<byte>)
    requires Sound(v, geo) && |self| == InodeSize && Addressable(parent, geo.blockSize)
    requires Tiled(Content(v.disk, parent, geo.blockSize), 0)
  {
    r.Done? && r.self == self && Unlisted(r.v.disk, r.parent, v.disk, parent, geo.blockSize, number) &&
    InodeCleared(v.inodes, r.v.inodes, U32(number - 1), geo.inodesPerGroup) &&
    BlocksCleared(v.blocks, r.v.blocks, geo.blocksPerGroup, kind, self)
  }

  /** The parent record `now` on the device `disk` keeps the size of
      `parent` on `old0` and lists every entry it listed except the
      first for `number`. */
  predicate Unlisted(disk: seq<byte>, now: seq<byte>, old0: seq<byte>, parent: seq<byte>, bs: nat, number: nat)
    requires Addressable(parent, bs) && Tiled(Content(old0, parent, bs), 0)
  {
    Addressable(now, bs) && SizeOf(now) == SizeOf(parent) && Tiled(Content(disk, now, bs), 0) &&
    Listing(Content(disk, now, bs)) == RemoveFirst(Listing(Content(old0, parent, bs)), number)
  }

  /** Of the inode bits exactly that of structure `s` is cleared. */
  predicate InodeCleared(a: seq<seq<bv8>>, b: seq<seq<bv8>>, s: nat, perGroup: nat)
    requires perGroup > 0
  {
    Alike(a, b) &&
    forall g, k | 0 <= g < |a| && 0 <= k < 8 * |a[g]| ::
      Used(b[g], k) == (Used(a[g], k) && !(g == s / perGroup && k == s % perGroup))
  }

  /** Of the block bits exactly those of the node's listed blocks are
      cleared, when its blocks are freed. */
  predicate BlocksCleared(a: seq<seq<bv8>>, b: seq<seq<bv8>>, perGroup: nat, kind: nat, self: seq<byte>)
    requires perGroup > 0 && |self| == InodeSize
  {
    Alike(a, b) &&
    forall g, k | 0 <= g < |a| && 0 <= k < 8 * |a[g]| ::
      Used(b[g], k) == (Used(a[g], k) && !(FreesBlocks(kind, self) && Listed(self, perGroup, 0, g, k)))
  }

  /** The end of `deleteNode`: removing a node whose tombstone write is
      placed detaches it as `Detached` says. */
  lemma RemoveDetaches(v: Volume, geo: Geometry, number: nat, kind: nat, self: seq<byte>,
                       up: nat, parent: seq<byte>, n: nat)
    requires Sound(v, geo) && Located(geo, number) && |self| == InodeSize && |parent| == InodeSize && number != 0
    requires Removable(v, geo, number, kind, self, up, parent)
    requires Detachable(v, geo, number, kind, self, up, parent, n)
    ensures Detached(Remove(v, geo, number, kind, self, up, parent), v, geo, number, kind, self, parent)
  {
    var blocks := Freed(v, geo, kind, self).value;
    var im := Image(v.disk, blocks, parent);
    FreedShaped(v, geo, number, kind, self, up, parent);
    var w := Unlink(im, geo, up, number);
    UnlinkDeletes(im, geo, up, number, n);
    UnlinkAlike(im, geo, up, number);
    RemoveUnlinks(v, geo, number, kind, self, up, parent, im, w);
    var inodes := Free(v.inodes, U32(number - 1), geo.inodesPerGroup);
    FreeUsed(v.inodes, U32(number - 1), geo.inodesPerGroup);
    FreedClears(v, geo, kind, self);
    DetachedParts(Remove(v, geo, number, kind, self, up, parent), v, geo, number, kind, self, parent,
                  w.value, inodes);
  }

  /** `Detached` from its parts: the unlinked parent image `u`, the
      inode bitmaps `inodes` and the freed block bitmaps. */
  lemma DetachedParts(r: Outcome, v: Volume, geo: Geometry, number: nat, kind: nat, self: seq<byte>, parent: seq<byte>,
                      u: Image, inodes: seq<seq<bv8>>)
    requires Sound(v, geo) && |self| == InodeSize && Addressable(parent, geo.blockSize)
    requires Tiled(Content(v.disk, parent, geo.blockSize), 0)
    requires r == Done(Volume(u.disk, inodes, u.blocks), self, u.raw)
    requires Unlisted(u.disk, u.raw, v.disk, parent, geo.blockSize, number)
    requires InodeCleared(v.inodes, inodes, U32(number - 1), geo.inodesPerGroup)
    requires BlocksCleared(v.blocks, u.blocks, geo.blocksPerGroup, kind, self)
    ensures Detached(r, v, geo, number, kind, self, parent)
  {
  }

  /** The volume and the node's own record with which `deleteNode`
      comes to remove the node: those it was given when it deletes no
      child first, else those the child's deletion left. A completed
      deletion is that removal. */
  function Prior(v: Volume, geo: Geometry, number: nat, kind: nat, self: seq<byte>,
                 up: nat, parent: seq<byte>, fuel: Fuel): (p: (Volume, seq<byte>))
    requires Sound(v, geo) && Located(geo, number) && |self| == InodeSize && |parent| == InodeSize
    requires Deletion(v, geo, number, kind, self, up, parent, fuel).Done?
    ensures Sound(p.0, geo) && |p.1| == InodeSize && Removable(p.0, geo, number, kind, p.1, up, parent)
    ensures Deletion(v, geo, number, kind, self, up, parent, fuel) == Remove(p.0, geo, number, kind, p.1, up, parent)
    ensures (IsDir(kind) && SizeOf(self) > 0 ==> Addressable(self, geo.blockSize) && SizeOf(self) >= 4) &&
            (Head(v.disk, self, geo.blockSize, kind) in {0, number} ==> p == (v, self))
  {
    DeletionStart(v, geo, number, kind, self, up, parent, fuel);
    var ino := Head(v.disk, self, geo.blockSize, kind);
    if ino == 0 || ino == number then
      DeletionLeaf(v, geo, number, kind, self, up, parent, fuel);
      (v, self)
    else
      var child := Read(v.disk, RecordOffset(geo, ino), InodeSize);
      var c := Deletion(v, geo, ino, Kind(Mode(child)), child, number, self, fuel.rest);
      DeletionAfter(v, geo, number, kind, self, up, parent, fuel, ino, c);
      (c.v, c.parent)
  }

  /** A completed `deleteNode` detaches the node from its parent as
      `Detached` says, measured from the volume it removes the node
      from. */
  lemma DeletionDetaches(v: Volume, geo: Geometry, number: nat, kind: nat, self: seq<byte>,
                         up: nat, parent: seq<byte>, fuel: Fuel, n: nat)
    requires Sound(v, geo) && Located(geo, number) && |self| == InodeSize && |parent| == InodeSize && number != 0
    requires Deletion(v, geo, number, kind, self, up, parent, fuel).Done?
    requires var p := Prior(v, geo, number, kind, self, up, parent, fuel);
      Detachable(p.0, geo, number, kind, p.1, up, parent, n)
    ensures var p := Prior(v, geo, number, kind, self, up, parent, fuel);
      Detached(Deletion(v, geo, number, kind, self, up, parent, fuel), p.0, geo, number, kind, p.1, parent)
  {
    var p := Prior(v, geo, number, kind, self, up, parent, fuel);
    RemoveDetaches(p.0, geo, number, kind, p.1, up, parent, n);
  }

  /** The C strings "." and "..". */
  function DotName(): (s: seq<byte>)
    ensures CString.Terminated(s) && CString.Len(s) == 1 && CString.Content(s) == ['.' as int]
  {
    CString.Make(['.' as int])
  }

  function DotDotName(): (s: seq<byte>)
    ensures CString.Terminated(s) && CString.Len(s) == 2 && CString.Content(s) == ['.' as int, '.' as int]
  {
    CString.Make(['.' as int, '.' as int])
  }

  /** A record of size 0 lists no entries. */
  lemma EmptyListing(disk: seq<byte>, raw: seq<byte>, bs: nat)
    requires Addressable(raw, bs) && SizeOf(raw) == 0
    ensures Tiled(Content(disk, raw, bs), 0) && Listing(Content(disk, raw, bs)) == []
  {
    var c := Content(disk, raw, bs);
    assert |c| == 0;
    assert Tiled(c, 0);
    assert Entries(c, 0) == [];
  }

  /** The two records `createNode` gives a new directory `number`: "."
      for itself, then ".." for `parent`, the directory it was made in. */
  function Dots(im: Image, geo: Geometry, number: nat, parent: int, junk: seq<byte>): Option<Image>
    requires Shaped(im, geo) && Located(geo, number) && |junk| == 3
  {
    match Entered(im, geo, number, DotName(), number, DirEntry, junk)
    case None => None
    case Some(a) => Entered(a, geo, number, DotDotName(), parent, DirEntry, junk)
  }

  /** A new directory, whose record has size 0, lists "." as itself
      and then ".." as its parent, when both writes are placed. */
  lemma DotsEntries(im: Image, geo: Geometry, number: nat, parent: int, junk: seq<byte>, a: Image, n1: nat, n2: nat)
    requires Shaped(im, geo) && Located(geo, number) && |junk| == 3 && SizeOf(im.raw) == 0
    requires U32(number) != 0 && U32(parent) != 0
    requires Ext2Data.Laid(im, geo, number, 0, DirRecord(DotName(), number, DirEntry, junk), n1)
    requires Entered(im, geo, number, DotName(), number, DirEntry, junk) == Some(a)
    requires Ext2Data.Laid(a, geo, number, SizeOf(a.raw), DirRecord(DotDotName(), parent, DirEntry, junk), n2)
    ensures Dots(im, geo, number, parent, junk).Some?
    ensures var m := Dots(im, geo, number, parent, junk).value;
      Addressable(m.raw, geo.blockSize) && Tiled(Content(m.disk, m.raw, geo.blockSize), 0) &&
      Listing(Content(m.disk, m.raw, geo.blockSize)) ==
        [Entry(U32(number), ['.' as int]), Entry(U32(parent), ['.' as int, '.' as int])]
  {
    EmptyListing(im.disk, im.raw, geo.blockSize);
    EnteredEntries(im, geo, number, DotName(), number, DirEntry, junk, n1);
    EnteredEntries(a, geo, number, DotDotName(), parent, DirEntry, junk, n2);
    var m := Entered(a, geo, number, DotDotName(), parent, DirEntry, junk).value;
    TwoAppended(Listing(Content(im.disk, im.raw, geo.blockSize)), Listing(Content(a.disk, a.raw, geo.blockSize)),
                Listing(Content(m.disk, m.raw, geo.blockSize)),
                Entry(U32(number), ['.' as int]), Entry(U32(parent), ['.' as int, '.' as int]));
  }

  /** Two entries appended to no entries. */
  lemma TwoAppended(l0: seq<Entry>, l1: seq<Entry>, l2: seq<Entry>, e1: Entry, e2: Entry)
    requires l0 == [] && l1 == l0 + [e1] && l2 == l1 + [e2]
    ensures l2 == [e1, e2]
  {
  }

  /** `createNode(dir, name, t)` once inode `number` was handed out, on
      values: the fresh record of type `FileType(t)` written to its slot,
      the entry appended to `dir` (record `im.raw`, number `dirNumber`),
      and for a directory the "." and ".." entries of the node
      `get_node(number)` then reads. The result holds the device and
      block bitmaps at the end and `dir`'s record; None when a write
      panics. */
  function Made(im: Image, geo: Geometry, dirNumber: nat, number: nat, name: seq<byte>, t: byte,
                junk: seq<byte>): Option<Image>
    requires Shaped(im, geo) && Located(geo, dirNumber) && Located(geo, number)
    requires CString.Terminated(name) && |name| < Two32 - 10 && |junk| == InodeSize
  {
    match Entered(im.(disk := Seeded(im.disk, geo, number, t, junk)), geo, dirNumber, name, number, t, junk[..3])
    case None => None
    case Some(a) =>
      if t != DirEntry then Some(a)
      else
        var raw := Read(a.disk, RecordOffset(geo, number), InodeSize);
        match Dots(Image(a.disk, a.blocks, raw), geo, number, dirNumber, junk[..3])
        case None => None
        case Some(b) => Some(Image(b.disk, b.blocks, a.raw))
  }

  /** A node the walk stands on: its number, its record and its type. */
  datatype Held = Held(number: nat, raw: seq<byte>, kind: nat)

  /** Where `find` ends: on a node; on the null reference; in a panic;
      or Stuck, outside what the driver covers: a directory whose
      records cannot be walked (a zero record length, on which `entries`
      never stops, or a record past the data), or an entry whose number
      has no block group. */
  datatype Walked = Found(node: Held) | Null | Panics | Stuck

  /** The first byte from `i` on that is not '/'. */
  function SkipSlashes(path: seq<byte>, i: nat): (r: nat)
    requires CString.Terminated(path) && i <= CString.Len(path)
    ensures i <= r <= CString.Len(path) && path[r] != CString.Slash
    ensures forall k | i <= k < r :: path[k] == CString.Slash
    decreases CString.Len(path) - i
  {
    if path[i] == CString.Slash then SkipSlashes(path, i + 1) else i
  }

  /** The end of the component that starts at `i`: the next '/' or the
      terminator. */
  function PartEnd(path: seq<byte>, i: nat): (r: nat)
    requires CString.Terminated(path) && i <= CString.Len(path)
    ensures i <= r <= CString.Len(path) && (path[r] == CString.NUL || path[r] == CString.Slash)
    ensures forall k | i <= k < r :: path[k] != CString.NUL && path[k] != CString.Slash
    decreases CString.Len(path) - i
  {
    if path[i] == CString.NUL || path[i] == CString.Slash then i else PartEnd(path, i + 1)
  }

  /** The records of the node with record `raw` can be walked. */
  predicate Walkable(d: seq<byte>, raw: seq<byte>, bs: nat)
  {
    Addressable(raw, bs) && Chain(Content(d, raw, bs), 0) && Named(Content(d, raw, bs), 0)
  }

  /** The node `get_node(number)` makes. */
  function Fetch(d: seq<byte>, geo: Geometry, number: nat): Held
    requires Located(geo, number)
  {
    var raw := Read(d, RecordOffset(geo, number), InodeSize);
    Held(number, raw, Kind(Mode(raw)))
  }

  /** `Ext2::find(current, path)` from byte `i` of the path: skip a run
      of '/'; stop on a null node or at the terminator; otherwise look
      the next component up in the current directory (a component of
      257 bytes or more fails `ASSERT(i < 256)`, a node that is not a
      directory fails `entries`' `ASSERT(is_dir())`), stop on null
      when it is missing, and go on from the node it names. */
  function Resolve(d: seq<byte>, geo: Geometry, at: Option<Held>, path: seq<byte>, i: nat): Walked
    requires CString.Terminated(path) && i <= CString.Len(path)
    decreases CString.Len(path) - i
  {
    var s := SkipSlashes(path, i);
    if at.None? then Null
    else if path[s] == CString.NUL then Found(at.value)
    else
      var e := PartEnd(path, s);
      var h := at.value;
      if e - s > 256 then Panics
      else if !IsDir(h.kind) then Panics
      else if !Walkable(d, h.raw, geo.blockSize) then Stuck
      else
        var found := FindIn(Entries(Content(d, h.raw, geo.blockSize), 0), path[s..e]);
        if found == 0 then Null
        else if !Located(geo, found) then Stuck
        else Resolve(d, geo, Some(Fetch(d, geo, found)), path, e)
  }

  /** A run of '/' before the rest of the path changes nothing. */
  lemma ResolveSkips(d: seq<byte>, geo: Geometry, at: Option<Held>, path: seq<byte>, i: nat)
    requires CString.Terminated(path) && i <= CString.Len(path)
    ensures Resolve(d, geo, at, path, i) == Resolve(d, geo, at, path, SkipSlashes(path, i))
  {
    var s := SkipSlashes(path, i);
    assert SkipSlashes(path, s) == s;
  }

  /** An empty path, or one of slashes only, leaves `find` on the node it
      started from; a null start stays null. */
  lemma ResolveEmpty(d: seq<byte>, geo: Geometry, at: Option<Held>, path: seq<byte>, i: nat)
    requires CString.Terminated(path) && i <= CString.Len(path)
    requires forall k | i <= k < CString.Len(path) :: path[k] == CString.Slash
    ensures Resolve(d, geo, at, path, i) == if at.None? then Null else Found(at.value)
  {
  }

  /** The next component, when it can be looked up: null when the
      directory has no entry by that name, the walk from the node it
      names otherwise. */
  lemma ResolveStep(d: seq<byte>, geo: Geometry, h: Held, path: seq<byte>, i: nat)
    requires CString.Terminated(path) && i <= CString.Len(path)
    requires path[SkipSlashes(path, i)] != CString.NUL
    requires PartEnd(path, SkipSlashes(path, i)) - SkipSlashes(path, i) <= 256
    requires IsDir(h.kind) && Walkable(d, h.raw, geo.blockSize)
    ensures var s := SkipSlashes(path, i);
      var e := PartEnd(path, s);
      var found := FindIn(Entries(Content(d, h.raw, geo.blockSize), 0), path[s..e]);
      Resolve(d, geo, Some(h), path, i) ==
        if found == 0 then Null
        else if !Located(geo, found) then Stuck
        else Resolve(d, geo, Some(Fetch(d, geo, found)), path, e)
  {
  }

  /** A walk that does not leave what the driver covers can look the
      next component up in a directory, and the entry it finds has a
      block group. */
  lemma ResolveWalks(d: seq<byte>, geo: Geometry, h: Held, path: seq<byte>, i: nat)
    requires CString.Terminated(path) && i <= CString.Len(path)
    requires path[SkipSlashes(path, i)] != CString.NUL
    requires PartEnd(path, SkipSlashes(path, i)) - SkipSlashes(path, i) <= 256
    requires IsDir(h.kind) && Resolve(d, geo, Some(h), path, i) != Stuck
    ensures Walkable(d, h.raw, geo.blockSize)
    ensures var s := SkipSlashes(path, i);
      var e := PartEnd(path, s);
      var found := FindIn(Entries(Content(d, h.raw, geo.blockSize), 0), path[s..e]);
      (found != 0 ==> Located(geo, found)) &&
      Resolve(d, geo, Some(h), path, i) ==
        if found == 0 then Null else Resolve(d, geo, Some(Fetch(d, geo, found)), path, e)
  {
  }

  /** A component of more than 256 bytes, or a lookup in a node that is
      not a directory, panics. */
  lemma ResolvePanics(d: seq<byte>, geo: Geometry, h: Held, path: seq<byte>, i: nat)
    requires CString.Terminated(path) && i <= CString.Len(path)
    requires path[SkipSlashes(path, i)] != CString.NUL
    requires PartEnd(path, SkipSlashes(path, i)) - SkipSlashes(path, i) > 256 || !IsDir(h.kind)
    ensures Resolve(d, geo, Some(h), path, i) == Panics
  {
  }

  /** The C string of `slashes` bytes '/' and then `name`. */
  function Path(slashes: nat, name: seq<byte>): (p: seq<byte>)
    requires CString.NoNul(name)
    ensures CString.Terminated(p) && CString.Len(p) == slashes + |name|
  {
    var p := seq(slashes, _ => CString.Slash) + name + [CString.NUL];
    assert CString.NoNul(p[..slashes + |name|]) by {
      forall k | 0 <= k < slashes + |name| ensures p[k] != CString.NUL {
        if k >= slashes {
          assert p[k] == name[k - slashes];
        }
      }
    }
    CString.LenAt(p, slashes + |name|);
    p
  }

  /** Such a path is one component, `name`, after the slashes. */
  lemma PathParts(slashes: nat, name: seq<byte>)
    requires 0 < |name| && CString.NoNul(name) && forall k | 0 <= k < |name| :: name[k] != CString.Slash
    ensures var p := Path(slashes, name);
      SkipSlashes(p, 0) == slashes && PartEnd(p, slashes) == slashes + |name| &&
      p[slashes..slashes + |name|] == name
  {
    var p := Path(slashes, name);
    assert p == seq(slashes, _ => CString.Slash) + name + [CString.NUL];
    var s := SkipSlashes(p, 0);
    assert p[slashes] == name[0];
    var e := PartEnd(p, slashes);
    assert p[slashes..slashes + |name|] == name;
  }

  /** `find` after `createDirectoryEntry`: in a directory whose last
      entry is (`number`, `name`), the path `name` (after any run of
      '/') leads to the node `get_node(number)` makes, even when an
      earlier entry has the same name. */
  lemma ResolveAppended(d: seq<byte>, geo: Geometry, h: Held, es: seq<Entry>, number: nat,
                        name: seq<byte>, slashes: nat)
    requires IsDir(h.kind) && Walkable(d, h.raw, geo.blockSize)
    requires Entries(Content(d, h.raw, geo.blockSize), 0) == es + [Entry(number, name)]
    requires 0 < |name| <= 256 && CString.NoNul(name) && forall k | 0 <= k < |name| :: name[k] != CString.Slash
    requires Located(geo, number)
    ensures Resolve(d, geo, Some(h), Path(slashes, name), 0) == Found(Fetch(d, geo, number))
  {
    var path := Path(slashes, name);
    PathParts(slashes, name);
    var entry := Entry(number, name);
    FindAppended(es, entry);
    assert EntryName(entry) == name by {
      CString.LenAt(name + [CString.NUL], |name|);
      assert (name + [CString.NUL])[..|name|] == name;
    }
    assert number != 0 by {
      var all := Entries(Content(d, h.raw, geo.blockSize), 0);
      assert all[|es|] == entry;
    }
    ResolveStep(d, geo, h, path, 0);
    ResolveEmpty(d, geo, Some(Fetch(d, geo, number)), path, slashes + |name|);
  }
}
