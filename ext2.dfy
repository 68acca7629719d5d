/** The ext2 driver's two objects: the mounted file system `Ext2`, which
    holds the device, the superblock fields it uses, the group descriptor
    table and one usage bitmap per group for blocks and for inodes; and
    `Node`, which holds its own copy of one 128-byte inode record and
    reads and writes that inode's data. */
module FileSystem {
  import opened Bytes
  import CString
  import opened Device
  import opened Ext2Layout
  import opened Ext2Bitmap
  import opened Ext2Dir
  import opened Ext2Node
  import opened Ext2Ops
  import opened Ext2Tree
  import Ext2Data
  import LibK

  /** The bitmaps as the values they hold. */
  ghost function Views(ms: seq<array<bv8>>): (v: seq<seq<bv8>>)
    reads ms
    ensures |v| == |ms| && forall g | 0 <= g < |ms| :: v[g] == ms[g][..]
  {
    seq(|ms|, g requires 0 <= g < |ms| reads ms => ms[g][..])
  }

  /** None of the bitmaps `ms` is the byte array `a`. Arrays of
      different element types may still be one object as far as the
      verifier knows, so this is stated outright. */
  predicate Clear(ms: seq<array<bv8>>, a: array<byte>)
  {
    forall g | 0 <= g < |ms| :: ms[g] as object != a
  }

  predicate Apart(ms: seq<array<bv8>>)
  {
    forall g, h | 0 <= g < h < |ms| :: ms[g] != ms[h]
  }

  /** Device bytes read into a bitmap. */
  function Bits(b: seq<byte>): (m: seq<bv8>)
    ensures |m| == |b| && forall i | 0 <= i < |b| :: m[i] == b[i] as bv8
  {
    seq(|b|, i requires 0 <= i < |b| => b[i] as bv8)
  }

  /** What mounting takes for granted of the superblock on the device:
      a block size that did not shift out to 0, nonzero structures per
      group with each group's bitmap inside one block, a descriptor
      table shorter than 4 GiB, and a group for the root inode 2. The
      driver checks none of these. */
  predicate Mountable(d: seq<byte>)
  {
    var sb := DecodeSuper(Read(d, SuperOffset, SuperSize));
    var bs := Ext2Layout.BlockSize(sb.shift);
    bs > 0 && 0 < sb.blocksPerGroup <= 8 * bs && 0 < sb.inodesPerGroup <= 8 * bs &&
    DivisionRoundUp(sb.totalBlocks, sb.blocksPerGroup) * DescriptorSize < Two32 &&
    1 / sb.inodesPerGroup < DivisionRoundUp(sb.totalBlocks, sb.blocksPerGroup)
  }

  /** A 16-bit store into a byte buffer, `*(uint16_t *) (a + off) = v`. */
  method Put16(a: array<byte>, off: nat, v: int)
    requires off + 2 <= a.Length
    modifies a
    ensures a[..] == Splice(old(a[..]), off, Bytes16(v))
  {
    var b := Bytes16(v);
    a[off] := b[0];
    a[off + 1] := b[1];
  }

  /** A 32-bit store, `*(uint32_t *) (a + off) = v`. */
  method Put32(a: array<byte>, off: nat, v: int)
    requires off + 4 <= a.Length
    modifies a
    ensures a[..] == Splice(old(a[..]), off, Bytes32(v))
  {
    var b := Bytes32(v);
    a[off] := b[0];
    a[off + 1] := b[1];
    a[off + 2] := b[2];
    a[off + 3] := b[3];
  }

  /** The zeroed pointers grow by one pointer per pass. */
  lemma ZeroMore(s: seq<byte>, i: nat)
    requires PointersAt + 4 * i + 4 <= |s|
    ensures Splice(Splice(s, PointersAt, Zeros(4 * i)), PointersAt + 4 * i, Bytes32(0)) ==
            Splice(s, PointersAt, Zeros(4 * i + 4))
  {
    SpliceAdjacent(s, PointersAt, Zeros(4 * i), Bytes32(0));
    assert Zeros(4 * i) + Bytes32(0) == Zeros(4 * i + 4);
  }

  class Ext2 {
    const ide: Disk
    const superBlock: Super
    const numBlockGroups: nat
    const blockGroupTable: seq<Group>
    const inodeUsage: seq<array<bv8>>
    const blockUsage: seq<array<bv8>>
    var root: Node?

    /** `get_block_size()`, `1024 << blockSizeShift`, fixed at mount. */
    const blockSize: nat

    function BlockSize(): nat
    {
      blockSize
    }

    function Geo(): Geometry
    {
      Geometry(BlockSize(), superBlock.blocksPerGroup, superBlock.inodesPerGroup, blockGroupTable)
    }

    /** One descriptor and two bitmaps of one block each per group, all
        bitmaps distinct, and the shape `Mountable` guarantees. */
    predicate Valid()
    {
      |blockGroupTable| == numBlockGroups && |inodeUsage| == numBlockGroups &&
      |blockUsage| == numBlockGroups &&
      BlockSize() > 0 && BlockSize() % Sector == 0 &&
      0 < superBlock.blocksPerGroup <= 8 * BlockSize() &&
      0 < superBlock.inodesPerGroup <= 8 * BlockSize() &&
      (forall g | 0 <= g < numBlockGroups ::
         inodeUsage[g].Length == BlockSize() && blockUsage[g].Length == BlockSize()) &&
      Apart(inodeUsage) && Apart(blockUsage) &&
      (forall g, h | 0 <= g < numBlockGroups && 0 <= h < numBlockGroups :: inodeUsage[g] != blockUsage[h]) &&
      Clear(inodeUsage, ide.data) && Clear(blockUsage, ide.data)
    }

    ghost function Inodes(): seq<seq<bv8>>
      reads inodeUsage
    {
      Views(inodeUsage)
    }

    ghost function Blocks(): seq<seq<bv8>>
      reads blockUsage
    {
      Views(blockUsage)
    }

    /** The device and both sets of bitmaps as values. */
    ghost function Now(): Volume
      reads ide.data, inodeUsage,
        blockUsage
    {
      Volume(ide.data[..], Inodes(), Blocks())
    }

    /** Mount: the superblock at byte 1024, the descriptor table at
        `TableAddress`, then each group's two bitmaps, then the root
        directory, inode 2. */
    constructor (ide: Disk)
      requires Mountable(ide.data[..])
      ensures this.ide == ide && Valid()
      ensures blockSize == Ext2Layout.BlockSize(superBlock.shift)
      ensures superBlock == DecodeSuper(Read(ide.data[..], SuperOffset, SuperSize))
      ensures numBlockGroups == DivisionRoundUp(superBlock.totalBlocks, superBlock.blocksPerGroup)
      ensures blockGroupTable ==
        DecodeGroups(Read(ide.data[..], TableAddress(BlockSize()), numBlockGroups * DescriptorSize), numBlockGroups)
      ensures forall g | 0 <= g < numBlockGroups ::
        inodeUsage[g][..] == Bits(Read(ide.data[..], U32(blockGroupTable[g].inodeUsage * BlockSize()), BlockSize())) &&
        blockUsage[g][..] == Bits(Read(ide.data[..], U32(blockGroupTable[g].blockUsage * BlockSize()), BlockSize()))
      ensures forall g | 0 <= g < numBlockGroups :: fresh(inodeUsage[g]) && fresh(blockUsage[g])
      ensures root != null && root.Valid() && root.fs == this && root.number == 2 && fresh(root.inode)
      ensures root.inode[..] == Read(ide.data[..], RecordOffset(Geo(), 2), InodeSize)
    {
      this.ide := ide;
      var sb, bs, n, table := ReadTables(ide);
      superBlock := sb;
      blockSize := bs;
      numBlockGroups := n;
      blockGroupTable := table;
      var inodes, blocks := LoadBitmaps(ide, table, n, bs);
      inodeUsage := inodes;
      blockUsage := blocks;
      new;
      root := new Node(this, 2);
    }

    /** The first half of mount: the superblock, the block size it
        gives, the group count and the descriptor table. */
    static method ReadTables(ide: Disk) returns (sb: Super, bs: nat, n: nat, table: seq<Group>)
      requires Mountable(ide.data[..])
      ensures sb == DecodeSuper(Read(ide.data[..], SuperOffset, SuperSize))
      ensures bs == Ext2Layout.BlockSize(sb.shift) && bs > 0 && bs % Sector == 0
      ensures 0 < sb.blocksPerGroup <= 8 * bs && 0 < sb.inodesPerGroup <= 8 * bs
      ensures n == DivisionRoundUp(sb.totalBlocks, sb.blocksPerGroup) && 1 / sb.inodesPerGroup < n
      ensures table == DecodeGroups(Read(ide.data[..], TableAddress(bs), n * DescriptorSize), n)
    {
      var sbBytes := ide.ReadAll(SuperOffset, SuperSize);
      sb := DecodeSuper(sbBytes);
      bs := Ext2Layout.BlockSize(sb.shift);
      BlockSizeSectors(sb.shift);
      n := DivisionRoundUp(sb.totalBlocks, sb.blocksPerGroup);
      var tableBytes := ide.ReadAll(TableAddress(bs), U32(n * DescriptorSize));
      table := DecodeGroups(tableBytes, n);
    }

    /** The bitmap loop of mount: for each group a fresh copy of its
        inode bitmap and of its block bitmap, one block each, read from
        the block the descriptor names. */
    static method LoadBitmaps(ide: Disk, table: seq<Group>, n: nat, bs: nat)
      returns (inodes: seq<array<bv8>>, blocks: seq<array<bv8>>)
      requires n <= |table|
      ensures |inodes| == n && |blocks| == n
      ensures forall g | 0 <= g < n ::
        fresh(inodes[g]) && fresh(blocks[g]) && inodes[g].Length == bs && blocks[g].Length == bs
      ensures forall g | 0 <= g < n ::
        inodes[g][..] == Bits(Read(ide.data[..], U32(table[g].inodeUsage * bs), bs)) &&
        blocks[g][..] == Bits(Read(ide.data[..], U32(table[g].blockUsage * bs), bs))
      ensures Apart(inodes) && Apart(blocks)
      ensures forall g, h | 0 <= g < n && 0 <= h < n :: inodes[g] != blocks[h]
    {
      inodes := [];
      blocks := [];
      var i := 0;
      while i < n
        invariant i <= n && |inodes| == i && |blocks| == i
        invariant forall g | 0 <= g < i ::
          fresh(inodes[g]) && fresh(blocks[g]) && inodes[g].Length == bs && blocks[g].Length == bs
        invariant forall g | 0 <= g < i ::
          inodes[g][..] == Bits(Read(ide.data[..], U32(table[g].inodeUsage * bs), bs)) &&
          blocks[g][..] == Bits(Read(ide.data[..], U32(table[g].blockUsage * bs), bs))
        invariant Apart(inodes) && Apart(blocks)
        invariant forall g, h | 0 <= g < i && 0 <= h < i :: inodes[g] != blocks[h]
      {
        var im := LoadBitmap(ide, U32(table[i].inodeUsage * bs), bs);
        var bm := LoadBitmap(ide, U32(table[i].blockUsage * bs), bs);
        inodes := inodes + [im];
        blocks := blocks + [bm];
        i := i + 1;
      }
    }

    /** `new char[bs]` filled by `read_all(addr, bs, ...)`. */
    static method LoadBitmap(ide: Disk, addr: nat, bs: nat) returns (m: array<bv8>)
      ensures fresh(m) && m.Length == bs && m[..] == Bits(Read(ide.data[..], addr, bs))
    {
      var b := ide.ReadAll(addr, bs);
      m := new bv8[bs](j requires 0 <= j < bs => b[j] as bv8);
      assert m[..] == Bits(b);
    }

    /** `findAvailableStructure(start, maps, perGroup)`: the groups in
        order, in each the bits of the first `perGroup / 8` bytes from
        the most significant bit down; the first clear bit is set and
        its number returned, -1 when there is none. */
    method FindAvailableStructure(start: nat, maps: seq<array<bv8>>, perGroup: nat) returns (r: int)
      requires Valid() && (maps == inodeUsage || maps == blockUsage) && start < Two32
      requires perGroup <= 8 * BlockSize()
      modifies maps
      ensures Fit(old(Views(maps)), perGroup / 8)
      ensures Views(maps) == Allocate(old(Views(maps)), start, perGroup).maps
      ensures r == Allocate(old(Views(maps)), start, perGroup).result
    {
      var bytes := perGroup / 8;
      var slot, curNumber := ScanGroups(maps, bytes, start);
      if slot.None? {
        return -1;
      }
      SetBit(maps, slot.value.group, slot.value.index);
      r := I32(U32(curNumber));
    }

    /** The group loop of `findAvailableStructure`: the first group whose
        scan finds a clear bit, and the running structure count, which
        starts at `start` and goes up by one for every bit passed. */
    static method ScanGroups(maps: seq<array<bv8>>, bytes: nat, start: nat) returns (slot: Option<Slot>, curNumber: nat)
      requires forall h | 0 <= h < |maps| :: bytes <= maps[h].Length
      requires start < Two32
      ensures Fit(Views(maps), bytes)
      ensures slot == FirstFree(Views(maps), bytes, 0)
      ensures slot.Some? ==> curNumber == Number(start, bytes, slot.value)
    {
      ghost var before := Views(maps);
      curNumber := start;
      var g := 0;
      while g < |maps|
        invariant g <= |maps|
        invariant curNumber == start + g * (8 * bytes)
        invariant forall h | 0 <= h < g :: FirstZero(before[h], bytes, 0).None?
      {
        var k := ScanBitmap(maps[g], bytes);
        if k.Some? {
          FoundAt(before, bytes, start, g, k.value);
          slot := Some(Slot(g, k.value));
          curNumber := curNumber + k.value;
          return;
        }
        assert (g + 1) * (8 * bytes) == g * (8 * bytes) + 8 * bytes;
        curNumber := curNumber + 8 * bytes;
        g := g + 1;
      }
      FirstFreeSkip(before, bytes, 0, g);
      slot := None;
    }

    /** Sets bit `i` of bitmap `g`, leaving the other bitmaps alone. */
    static method SetBit(maps: seq<array<bv8>>, g: nat, i: nat)
      requires Apart(maps) && g < |maps| && i < 8 * maps[g].Length
      modifies maps[g]
      ensures Views(maps) == old(Views(maps))[g := Mark(old(Views(maps))[g], i)]
    {
      ghost var before := Views(maps);
      maps[g][i / 8] := WithBit(maps[g][i / 8], i % 8);
      assert maps[g][..] == Mark(before[g], i);
      assert Views(maps) == before[g := Mark(before[g], i)];
    }

    /** The bit scan of one group: byte by byte, and in each byte from
        the most significant bit down. */
    static method ScanBitmap(m: array<bv8>, bytes: nat) returns (k: Option<nat>)
      requires bytes <= m.Length
      ensures k == FirstZero(m[..], bytes, 0)
    {
      ghost var at := 0;
      var curByte := 0;
      while curByte < bytes
        invariant curByte <= bytes && at == 8 * curByte
        invariant forall i | 0 <= i < at :: Used(m[..], i)
      {
        var bitShift: int := 7;
        while bitShift >= 0
          invariant -1 <= bitShift <= 7 && at == 8 * curByte + (7 - bitShift)
          invariant forall i | 0 <= i < at :: Used(m[..], i)
        {
          var curBit := LowBit(m[curByte], bitShift as nat);
          UsedAt(m[..], curByte, bitShift as nat);
          if curBit == 0 {
            ScannedTo(m[..], bytes, 0, at);
            return Some(8 * curByte + (7 - bitShift));
          }
          at := at + 1;
          bitShift := bitShift - 1;
        }
        curByte := curByte + 1;
      }
      ScannedTo(m[..], bytes, 0, at);
      return None;
    }

    /** `findAvailableBlock()`: block numbers count from 0. */
    method FindAvailableBlock() returns (r: int)
      requires Valid()
      modifies blockUsage
      ensures Blocks() == Allocate(old(Blocks()), 0, superBlock.blocksPerGroup).maps
      ensures r == Allocate(old(Blocks()), 0, superBlock.blocksPerGroup).result
    {
      r := FindAvailableStructure(0, blockUsage, superBlock.blocksPerGroup);
    }

    /** `findAvailableInode()`: inode numbers count from 1. */
    method FindAvailableInode() returns (r: int)
      requires Valid()
      modifies inodeUsage
      ensures Inodes() == Allocate(old(Inodes()), 1, superBlock.inodesPerGroup).maps
      ensures r == Allocate(old(Inodes()), 1, superBlock.inodesPerGroup).result
    {
      r := FindAvailableStructure(1, inodeUsage, superBlock.inodesPerGroup);
    }

    /** `freeStructure(number, maps, perGroup)`: clears the bit of
        structure `number % perGroup` in group `number / perGroup`. */
    method FreeStructure(number: nat, maps: seq<array<bv8>>, perGroup: nat)
      requires Valid() && (maps == inodeUsage || maps == blockUsage)
      requires 0 < perGroup <= 8 * BlockSize() && number / perGroup < numBlockGroups
      modifies maps
      ensures Views(maps) == Free(old(Views(maps)), number, perGroup)
    {
      var g := number / perGroup;
      var index := number % perGroup;
      ghost var before := Views(maps);
      maps[g][index / 8] := WithoutBit(maps[g][index / 8], index % 8);
      assert maps[g][..] == Unmark(before[g], index);
      assert Views(maps) == before[g := Unmark(before[g], index)];
    }

    /** `freeBlock(n)`. */
    method FreeBlock(n: nat)
      requires Valid() && n / superBlock.blocksPerGroup < numBlockGroups
      modifies blockUsage
      ensures Blocks() == Free(old(Blocks()), n, superBlock.blocksPerGroup)
    {
      FreeStructure(n, blockUsage, superBlock.blocksPerGroup);
    }

    /** The inode bitmaps are as they were while none of their buffers
        changed. */
    twostate lemma InodesKept()
      requires forall g | 0 <= g < |inodeUsage| :: unchanged(inodeUsage[g])
      ensures Inodes() == old(Inodes())
    {
    }

    /** `freeInode(n)`: inode `n` is structure `n - 1`, in 32 bits. */
    method FreeInode(n: nat)
      requires Valid() && U32(n - 1) / superBlock.inodesPerGroup < numBlockGroups
      modifies inodeUsage
      ensures Inodes() == Free(old(Inodes()), U32(n - 1), superBlock.inodesPerGroup)
      ensures Blocks() == old(Blocks()) && ide.data[..] == old(ide.data[..])
    {
      FreeStructure(U32(n - 1), inodeUsage, superBlock.inodesPerGroup);
    }

    /** `Ext2::write_all(off, buffer, n)`: device writes until the `int`
        count of bytes left is no longer positive, so nothing at all is
        written when `n` is 2^31 or more. */
    method WriteAll(off: nat, src: seq<byte>)
      requires off < Two32 && |src| < Two32
      modifies ide.data
      ensures ide.data[..] == if |src| < Two31 then Spread(old(ide.data[..]), off, src) else old(ide.data[..])
    {
      var remaining := I32(|src|);
      var cur: nat := off;
      var pos: nat := 0;
      while remaining > 0
        invariant cur < Two32 && pos <= |src|
        invariant |src| < Two31 ==>
          remaining == |src| - pos && Spread(old(ide.data[..]), off, src) == Spread(ide.data[..], cur, src[pos..])
        invariant |src| >= Two31 ==> remaining < 0 && ide.data[..] == old(ide.data[..])
        decreases remaining
      {
        var k := ide.Write(cur, src[pos..]);
        assert src[pos..][k..] == src[pos + k..];
        pos := pos + k;
        cur := U32(cur + k);
        remaining := remaining - k;
      }
    }

    /** `createInode(fileType, n)`: panics when `n` is below 1; writes a
        fresh record for inode `n`, built in a stack buffer whose other
        bytes are `junk`. */
    method CreateInode(fileType: nat, n: int, junk: seq<byte>) returns (panicked: bool)
      requires Valid() && fileType < Two16 && |junk| == InodeSize
      requires n >= 1 ==> Located(Geo(), n)
      modifies ide.data
      ensures panicked <==> n < 1
      ensures n < 1 ==> ide.data[..] == old(ide.data[..])
      ensures n >= 1 ==> ide.data[..] == Spread(old(ide.data[..]), RecordOffset(Geo(), n), NewInode(fileType, junk))
    {
      if n < 1 {
        return true;
      }
      var buffer := BuildInode(fileType, junk);
      WriteAll(RecordOffset(Geo(), n), buffer[..]);
      return false;
    }

    /** The stack buffer of `createInode`: type, size and link count
        stored at offsets 0, 4 and 26, then the fifteen pointers from
        offset 40 zeroed one by one. */
    static method BuildInode(fileType: nat, junk: seq<byte>) returns (buffer: array<byte>)
      requires |junk| == InodeSize
      ensures fresh(buffer) && buffer[..] == NewInode(fileType, junk)
    {
      buffer := new byte[InodeSize](i requires 0 <= i < InodeSize => junk[i]);
      assert buffer[..] == junk;
      Put16(buffer, 0, fileType);
      Put32(buffer, 4, 0);
      Put16(buffer, 26, 1);
      SpliceEmpty(Fresh(fileType, junk), PointersAt);
      var blockIndex := 0;
      while blockIndex < PointerCount
        invariant blockIndex <= PointerCount
        invariant buffer[..] == Splice(Fresh(fileType, junk), PointersAt, Zeros(4 * blockIndex))
      {
        Put32(buffer, PointersAt + 4 * blockIndex, 0);
        ZeroMore(Fresh(fileType, junk), blockIndex);
        blockIndex := blockIndex + 1;
      }
    }

    /** `createNode(dir, name, typeIndicator)`: false, with nothing
        written, when no inode is free; otherwise the new inode is taken
        in its bitmap and `Populate` writes it. */
    method CreateNode(dir: Node, name: seq<byte>, t: byte, junk: seq<byte>) returns (created: bool, panicked: bool)
      requires Valid() && dir.Valid() && dir.fs == this
      requires CString.Terminated(name) && |name| < Two32 - 10 && |junk| == InodeSize
      modifies inodeUsage, ide.data, dir.inode, blockUsage
      ensures var a := Allocate(old(Inodes()), 1, superBlock.inodesPerGroup);
        Inodes() == a.maps && (created ==> !panicked) &&
        (a.result == -1 <==> !created && !panicked) &&
        (a.result == -1 ==> ide.data[..] == old(ide.data[..]) && Blocks() == old(Blocks()) &&
                            dir.inode[..] == old(dir.inode[..])) &&
        (a.result != -1 && a.result < 1 ==> panicked) &&
        (a.result >= 1 ==>
           Located(Geo(), a.result) &&
           var w := Made(old(dir.State()), Geo(), dir.number, a.result, name, t, junk);
           (panicked <==> w.None?) && (!panicked ==> dir.State() == w.value))
    {
      TakenLocated(Inodes(), Geo());
      var inodeNumber := FindAvailableInode();
      if inodeNumber == -1 {
        return false, false;
      }
      assert dir.State() == old(dir.State());
      label taken:
      panicked := Populate(dir, inodeNumber, name, t, junk);
      InodesKept@taken();
      created := !panicked;
    }

    /** The rest of `createNode` once inode `n` is taken: its record,
        typed by `FileType`, then its entry in `dir`, then for a
        directory "." and "..", which `Made` states. */
    method Populate(dir: Node, n: int, name: seq<byte>, t: byte, junk: seq<byte>) returns (panicked: bool)
      requires Valid() && dir.Valid() && dir.fs == this
      requires CString.Terminated(name) && |name| < Two32 - 10 && |junk| == InodeSize
      requires n >= 1 ==> Located(Geo(), n)
      modifies ide.data, dir.inode, blockUsage
      ensures n < 1 ==> panicked
      ensures n >= 1 ==>
        var w := Made(old(dir.State()), Geo(), dir.number, n, name, t, junk);
        (panicked <==> w.None?) && (!panicked ==> dir.State() == w.value)
    {
      ghost var before := dir.State();
      var fileType := FileType(t);
      panicked := CreateInode(fileType, n, junk);
      if panicked {
        return;
      }
      assert dir.State() == before.(disk := Seeded(before.disk, Geo(), n, t, junk));
      panicked := CreateDirectoryEntry(name, n, t, dir, junk[..3]);
      if panicked || t != DirEntry {
        return;
      }
      ghost var a := dir.State();
      var node := GetNode(n);
      assert node.State() == Image(a.disk, a.blocks, Read(a.disk, RecordOffset(Geo(), n), InodeSize));
      panicked := AddDots(node, dir.number, junk[..3]);
      assert dir.inode[..] == a.raw;
    }

    /** `find(current, path)`: the walk `Resolve` states, from the node
        `current` refers to, on an image whose directories on the way can
        be walked. */
    method Find(current: Node?, path: seq<byte>) returns (r: Node?, panicked: bool)
      requires Valid() && CString.Terminated(path)
      requires current != null ==> current.Valid() && current.fs == this
      requires Resolve(ide.data[..], Geo(), Start(current), path, 0) != Stuck
      ensures var w := Resolve(ide.data[..], Geo(), Start(current), path, 0);
        (panicked <==> w == Panics) && (!panicked && r == null <==> w == Null) &&
        (!panicked && r != null ==> r.Valid() && r.fs == this && w == Found(Start(r).value))
    {
      ghost var d, geo := ide.data[..], Geo();
      ghost var goal := Resolve(d, geo, Start(current), path, 0);
      var part := new byte[257];
      var idx := 0;
      r := current;
      while true
        invariant idx <= CString.Len(path)
        invariant r != null ==> r.Valid() && r.fs == this && r.inode != part
        invariant Resolve(d, geo, Start(r), path, idx) == goal
        decreases CString.Len(path) - idx
      {
        ResolveSkips(d, geo, Start(r), path, idx);
        ghost var s := SkipSlashes(path, idx);
        while path[idx] == CString.Slash
          invariant idx <= s && SkipSlashes(path, idx) == s
          decreases s - idx
        {
          idx := idx + 1;
        }
        if r == null || path[idx] == CString.NUL {
          return r, false;
        }
        ghost var h := Start(r).value;
        var next, tooLong := CopyPart(path, idx, part);
        if tooLong || !IsDir(r.kind) {
          ResolvePanics(d, geo, h, path, idx);
          return null, true;
        }
        ResolveWalks(d, geo, h, path, idx);
        var number := r.Find(part[..]);
        if number == 0 {
          return null, false;
        }
        r := GetNode(number);
        idx := next;
      }
    }

    /** `get_node(number)`. */
    method GetNode(number: nat) returns (node: Node)
      requires Valid() && Located(Geo(), number)
      ensures node.Valid() && node.fs == this && node.number == number && fresh(node.inode)
      ensures node.inode[..] == Read(ide.data[..], RecordOffset(Geo(), number), InodeSize)
      ensures node.kind == Kind(Mode(node.inode[..]))
    {
      node := new Node(this, number);
    }
  }

  /** The node a `Node` reference stands for in the path walk. */
  ghost function Start(n: Node?): Option<Held>
    reads if n != null then {n.inode} else {}
  {
    if n == null then None else Some(Held(n.number, n.inode[..], n.kind))
  }

  class Node {
    const number: nat
    const blockSize: nat
    const fs: Ext2
    const inode: array<byte>
    const kind: nat

    /** The record copy is a buffer of its own, of 128 bytes. */
    predicate Valid()
    {
      fs.Valid() && inode.Length == InodeSize && blockSize == fs.BlockSize() &&
      Located(fs.Geo(), number) && inode != fs.ide.data &&
      Clear(fs.inodeUsage, inode) && Clear(fs.blockUsage, inode)
    }

    /** `Node(block_size, number, fs)`: reads record `number` from the
        device and keeps its type, `typesAndPermissions & 0xF000`. */
    constructor (fs: Ext2, number: nat)
      requires fs.Valid() && Located(fs.Geo(), number)
      ensures Valid() && this.fs == fs && this.number == number && fresh(inode)
      ensures inode[..] == Read(fs.ide.data[..], RecordOffset(fs.Geo(), number), InodeSize)
      ensures kind == Kind(Mode(inode[..]))
    {
      this.number := number;
      this.fs := fs;
      blockSize := fs.BlockSize();
      var raw := fs.ide.ReadAll(RecordOffset(fs.Geo(), number), InodeSize);
      inode := new byte[InodeSize](i requires 0 <= i < InodeSize => raw[i]);
      kind := Kind(Mode(raw));
      new;
      assert inode[..] == raw;
    }

    /** What a write of the node touches. */
    ghost function State(): Image
      reads inode, fs.ide.data, fs.blockUsage
    {
      Image(fs.ide.data[..], Views(fs.blockUsage), inode[..])
    }

    /** The node's data, `size_in_bytes()` bytes long. */
    function Data(): (c: seq<byte>)
      requires Valid() && Addressable(inode[..], blockSize)
      reads inode, fs.ide.data
      ensures |c| == SizeOf(inode[..])
    {
      Content(fs.ide.data[..], inode[..], blockSize)
    }

    /** `read_block(i)`. */
    method ReadBlock(i: nat) returns (b: seq<byte>)
      requires Valid() && i < Two32 && (i >= Direct ==> 4 * (i - Direct) + 4 <= blockSize)
      ensures b == Ext2Node.ReadBlock(fs.ide.data[..], inode[..], blockSize, i)
    {
      if i < Direct {
        var blockAddress := LE32(inode[..], PointersAt + 4 * i);
        b := fs.ide.ReadAll(U32(blockAddress * blockSize), blockSize);
      } else {
        var blockAddress := LE32(inode[..], PointersAt + 4 * Direct);
        var table := fs.ide.ReadAll(U32(blockAddress * blockSize), blockSize);
        blockAddress := LE32(table, 4 * (i - Direct));
        b := fs.ide.ReadAll(U32(blockAddress * blockSize), blockSize);
      }
    }

    /** `read_all(off, n)`, block by block: the bytes of the data from
        `off` on, cut at `n` and at the end of the data. */
    method ReadAll(off: nat, n: nat) returns (r: seq<byte>)
      requires Valid() && Addressable(inode[..], blockSize)
      ensures r == Window(Data(), off, n)
    {
      var size := SizeOf(inode[..]);
      var lo := if off < size then off else size;
      var hi := if off + n < size then off + n else size;
      ghost var c := Data();
      r := [];
      var j := lo;
      while j < hi
        invariant lo <= j <= hi && r == c[lo..j]
        decreases hi - j
      {
        var within := j % blockSize;
        var take := if hi - j < blockSize - within then hi - j else blockSize - within;
        ContentRun(fs.ide.data[..], inode[..], blockSize, j, take);
        var blk := ReadBlock(j / blockSize);
        ReadOn(c, r, lo, j, take, blk[within..within + take]);
        r := r + blk[within..within + take];
        j := j + take;
      }
    }

    /** The record, device and block bitmaps have the shape the write
        functions take. */
    lemma StateShaped()
      requires Valid()
      ensures Shaped(State(), fs.Geo())
    {
    }

    /** One pass of `write_all`'s loop for a direct block: the block is
        claimed, then one device write at its address. */
    method WriteStep(cur: nat, rest: seq<byte>) returns (k: nat)
      requires Valid() && cur / blockSize < Direct && |rest| > 0
      modifies inode, fs.ide.data, fs.blockUsage
      ensures Shaped(old(State()), fs.Geo())
      ensures k == Took(old(State()), fs.Geo(), cur, rest)
      ensures State() == Step(old(State()), fs.Geo(), cur, rest)
    {
      StateShaped();
      ghost var before := State();
      var blockNumber := cur / blockSize;
      ClaimBlock(blockNumber);
      ghost var claimed := State();
      var blockAddress := LE32(inode[..], PointersAt + 4 * blockNumber);
      var writeAddress := U32(blockAddress * blockSize + cur % blockSize);
      assert writeAddress == Address(claimed, fs.Geo(), cur);
      k := fs.ide.Write(writeAddress, rest);
      assert State() == claimed.(disk := fs.ide.data[..]);
    }

    /** `if (blockAddresses[b] == 0) blockAddresses[b] = findAvailableBlock()`. */
    method ClaimBlock(b: nat)
      requires Valid() && b < Direct
      modifies inode, fs.blockUsage
      ensures Shaped(old(State()), fs.Geo())
      ensures State() == Claim(old(State()), fs.Geo(), b)
    {
      StateShaped();
      ghost var disk, raw := fs.ide.data[..], inode[..];
      if LE32(inode[..], PointersAt + 4 * b) == 0 {
        var a := fs.FindAvailableBlock();
        ghost var maps := Views(fs.blockUsage);
        Put32(inode, PointersAt + 4 * b, a);
        assert fs.ide.data[..] == disk;
        assert Views(fs.blockUsage) == maps;
      }
    }

    /** `write_all(off, src, n)`: panics when `off` is past the end of
        the data or a block index of 12 or more is reached; otherwise the
        size grows to cover the write and the record is written back to
        its slot in the inode table. */
    method WriteAll(off: nat, src: seq<byte>) returns (panicked: bool)
      requires Valid() && off < Two32 && |src| < Two32
      modifies inode, fs.ide.data, fs.blockUsage
      ensures Shaped(old(State()), fs.Geo())
      ensures panicked <==> NodeWrite(old(State()), fs.Geo(), number, off, src).None?
      ensures !panicked ==> State() == NodeWrite(old(State()), fs.Geo(), number, off, src).value
    {
      StateShaped();
      ghost var start := State();
      if off > SizeOf(inode[..]) {
        return true;
      }
      if 0 < |src| < Two31 {
        panicked := WriteBlocks(off, src);
        if panicked {
          return;
        }
      }
      ghost var m := State();
      assert (if 0 < |src| < Two31 then WriteLoop(start, fs.Geo(), off, src) else Some(start)) == Some(m);
      Resize(off, |src|);
      ghost var raw := inode[..];
      fs.WriteAll(RecordOffset(fs.Geo(), number), inode[..]);
      ghost var fin := State();
      assert fin == m.(raw := raw, disk := Spread(m.disk, RecordOffset(fs.Geo(), number), raw));
      assert NodeWrite(start, fs.Geo(), number, off, src) == Some(fin);
      return false;
    }

    /** The loop of `write_all`, run when the byte count taken as an
        `int` is positive: one block-bounded device write per pass. */
    method WriteBlocks(off: nat, src: seq<byte>) returns (panicked: bool)
      requires Valid() && off < Two32 && 0 < |src| < Two31
      modifies inode, fs.ide.data, fs.blockUsage
      ensures Shaped(old(State()), fs.Geo())
      ensures panicked <==> WriteLoop(old(State()), fs.Geo(), off, src).None?
      ensures !panicked ==> State() == WriteLoop(old(State()), fs.Geo(), off, src).value
    {
      StateShaped();
      ghost var goal := WriteLoop(State(), fs.Geo(), off, src);
      var remaining := |src|;
      var cur: nat := off;
      var pos: nat := 0;
      while remaining > 0
        invariant cur < Two32 && pos <= |src| && remaining == |src| - pos
        invariant Shaped(State(), fs.Geo())
        invariant goal == WriteLoop(State(), fs.Geo(), cur, src[pos..])
        decreases remaining
      {
        if cur / blockSize >= Direct {
          assert goal == None;
          return true;
        }
        ghost var before := State();
        var k := WriteStep(cur, src[pos..]);
        WriteLoopStep(before, fs.Geo(), cur, src[pos..], k, State());
        assert src[pos..][k..] == src[pos + k..];
        cur := U32(cur + k);
        pos := pos + k;
        remaining := remaining - k;
      }
      assert src[pos..] == [];
      assert goal == Some(State());
      return false;
    }

    /** The size update at the end of `write_all`. */
    method Resize(off: nat, n: nat)
      requires Valid()
      modifies inode
      ensures inode[..] == Resized(old(inode[..]), off, n)
    {
      var addedBytes := I32(U32(off + n - SizeOf(inode[..])));
      if addedBytes > 0 {
        Put32(inode, 4, SizeOf(inode[..]) + addedBytes);
      }
    }

    /** `entries(work)`: the walk hands the callback each used record's
        number and name, in order; here the walk returns them. */
    method EntryList() returns (es: seq<Entry>)
      requires Valid() && IsDir(kind) && Addressable(inode[..], blockSize)
      requires Chain(Data(), 0) && Named(Data(), 0)
      ensures es == Entries(Data(), 0)
    {
      var size := SizeOf(inode[..]);
      var d := ReadAll(0, size);
      assert d == Data() by {
        assert Data()[0..size] == Data();
      }
      es := WalkEntries(d);
    }

    /** `entry_count()`: the number of used records, which is the
        number of entries the walk visits. */
    method EntryCount() returns (n: nat)
      requires Valid() && Addressable(inode[..], blockSize) && Chain(Data(), 0)
      ensures n == Live(Data(), 0)
      ensures Named(Data(), 0) ==> n == |Entries(Data(), 0)|
    {
      var size := SizeOf(inode[..]);
      var buffer := ReadAll(0, size);
      assert buffer == Data() by {
        assert Data()[0..size] == Data();
      }
      n := CountUsed(buffer);
      if Named(buffer, 0) {
        LiveEntries(buffer, 0);
      }
    }

    /** `Node::find(name)`: every entry whose name equals `name` sets
        the result, so the last one wins; 0 when none does. */
    method Find(name: seq<byte>) returns (out: nat)
      requires Valid() && IsDir(kind) && Addressable(inode[..], blockSize)
      requires Chain(Data(), 0) && Named(Data(), 0) && CString.Terminated(name)
      ensures out == FindIn(Entries(Data(), 0), CString.Content(name))
    {
      var es := EntryList();
      out := 0;
      var i := 0;
      while i < |es|
        invariant i <= |es| && out == FindIn(es[..i], CString.Content(name))
      {
        FindStep(es, i, CString.Content(name));
        var nm := es[i].name + [CString.NUL];
        assert nm[|es[i].name|] == CString.NUL;
        var same := LibK.StrEq(name, nm);
        if same {
          out := es[i].inode;
        }
        i := i + 1;
      }
      assert es[..i] == es;
    }

    /** `get_entry_names(buf, max_size)`: each name and its NUL, one
        after the other, then one more NUL; `max_size` is not looked
        at, so the buffer must hold the whole list. */
    method GetEntryNames(buf: array<byte>, maxSize: nat)
      requires Valid() && IsDir(kind) && Addressable(inode[..], blockSize)
      requires Chain(Data(), 0) && Named(Data(), 0)
      requires buf != inode && buf != fs.ide.data && |Names(Entries(Data(), 0))| <= buf.Length
      modifies buf
      ensures buf[..|Names(Entries(Data(), 0))|] == Names(Entries(Data(), 0))
      ensures buf[|Names(Entries(Data(), 0))|..] == old(buf[|Names(Entries(Data(), 0))|..])
    {
      var es := EntryList();
      PutNames(buf, es);
    }

    /** `get_symbol(buf)`: a link target over 60 bytes is read from the
        data; a shorter one is held in the pointer area of the record
        and copied out with a NUL after it. */
    method GetSymbol(buf: array<byte>)
      requires Valid() && buf != inode && buf != fs.ide.data
      requires SizeOf(inode[..]) > 60 ==> Addressable(inode[..], blockSize) && SizeOf(inode[..]) <= buf.Length
      requires SizeOf(inode[..]) <= 60 ==> SizeOf(inode[..]) < buf.Length
      modifies buf
      ensures SizeOf(inode[..]) > 60 ==>
        buf[..SizeOf(inode[..])] == Data() && buf[SizeOf(inode[..])..] == old(buf[SizeOf(inode[..])..])
      ensures SizeOf(inode[..]) <= 60 ==>
        buf[..SizeOf(inode[..])] == inode[PointersAt..PointersAt + SizeOf(inode[..])] &&
        buf[SizeOf(inode[..])] == CString.NUL &&
        buf[SizeOf(inode[..]) + 1..] == old(buf[SizeOf(inode[..]) + 1..])
    {
      var size := SizeOf(inode[..]);
      if size > 60 {
        var r := ReadAll(0, size);
        forall i | 0 <= i < size {
          buf[i] := r[i];
        }
      } else {
        var i := 0;
        while i < size
          invariant i <= size
          invariant buf[..i] == inode[PointersAt..PointersAt + i]
          invariant buf[i..] == old(buf[i..])
        {
          buf[i] := inode[PointersAt + i];
          i := i + 1;
        }
        buf[size] := CString.NUL;
      }
    }

    /** `deleteFromDirectory(t)`: the first record numbered `t` is
        overwritten, through `write_all`, with a tombstone of its own
        length; nothing is written when no record has that number. */
    method DeleteFromDirectory(t: nat, ghost im: Image, ghost w: Option<Image>) returns (panicked: bool)
      requires Valid() && State() == im && Shaped(im, fs.Geo())
      requires Addressable(im.raw, blockSize) && Chain(Content(im.disk, im.raw, blockSize), 0)
      requires w == Unlink(im, fs.Geo(), number, t)
      modifies inode, fs.ide.data, fs.blockUsage
      ensures panicked <==> w.None?
      ensures !panicked ==> State() == w.value
    {
      var at, entrySize := LocateRecord(t);
      UnlinkAt(im, fs.Geo(), number, t, at, entrySize);
      if at.None? {
        return false;
      }
      var zeroEntry := BuildTombstone(entrySize);
      panicked := WriteAll(at.value, zeroEntry[..]);
    }

    /** The first half of `deleteFromDirectory`: the data is read and
        scanned for the first record numbered `t`. */
    method LocateRecord(t: nat) returns (at: Option<nat>, entrySize: nat)
      requires Valid() && Addressable(inode[..], blockSize) && Chain(Data(), 0)
      ensures at == FirstWith(Data(), 0, t)
      ensures at.Some? ==> entrySize == RecLenAt(Data(), at.value) < Two16
    {
      var size := SizeOf(inode[..]);
      var buffer := ReadAll(0, size);
      assert buffer == Data() by {
        assert Data()[0..size] == Data();
      }
      at := FindRecord(buffer, t);
      entrySize := if at.Some? then RecLenAt(buffer, at.value) else 0;
    }

    /** `deleteNode(parent)`, with `fuel` bounding the recursion into
        a directory's first record, which need not end. `v`, `self` and
        `raw` are the volume, this node's record and the parent's record
        before. The volume is sound whenever `Valid()` holds, which the
        second clause states for `Deletion`. */
    method DeleteNode(parent: Node, ghost fuel: Fuel, ghost v: Volume,
                      ghost self: seq<byte>, ghost raw: seq<byte>) returns (panicked: bool)
      requires Valid() && parent.Valid() && parent.fs == fs && parent != this && parent.inode != inode
      requires fs.Now() == v && inode[..] == self && parent.inode[..] == raw && Sound(v, fs.Geo())
      requires Deletion(v, fs.Geo(), number, kind, self, parent.number, raw, fuel) != Fault
      modifies inode, parent.inode, fs.ide.data, fs.inodeUsage, fs.blockUsage
      ensures Ended(Deletion(v, fs.Geo(), number, kind, self, parent.number, raw, fuel), panicked, fs.Now(), inode[..], parent.inode[..])
      decreases fuel, 2
    {
      DeletionStart(v, fs.Geo(), number, kind, self, parent.number, raw, fuel);
      var ino := FirstNumber();
      assert fs.Now() == v && inode[..] == self && parent.inode[..] == raw;
      if ino != 0 && ino != number {
        ghost var child, c := DeletionChild(v, fs.Geo(), number, kind, self, parent.number, raw, fuel, ino);
        DeletionAfter(v, fs.Geo(), number, kind, self, parent.number, raw, fuel, ino, c);
        panicked := DeleteBelow(parent, ino, fuel, v, self, raw, child, c);
        DeletionEnded(v, fs.Geo(), number, kind, self, parent.number, raw, fuel, ino, c,
                      panicked, fs.Now(), inode[..], parent.inode[..]);
      } else {
        DeletionLeaf(v, fs.Geo(), number, kind, self, parent.number, raw, fuel);
        panicked := Detach(parent, v, self, raw);
      }
    }

    /** `deleteNode` on a directory whose first record names another
        node `ino`, whose record is `child` and whose deletion ends as
        `c`: that node first, then this one. */
    method DeleteBelow(parent: Node, ino: nat, ghost fuel: Fuel, ghost v: Volume, ghost self: seq<byte>,
                       ghost raw: seq<byte>, ghost child: seq<byte>, ghost c: Outcome) returns (panicked: bool)
      requires Valid() && parent.Valid() && parent.fs == fs && parent != this && parent.inode != inode
      requires fs.Now() == v && inode[..] == self && parent.inode[..] == raw && Sound(v, fs.Geo())
      requires Located(fs.Geo(), ino) && ino != number
      requires child == Read(v.disk, RecordOffset(fs.Geo(), ino), InodeSize)
      requires fuel.More? && c == Deletion(v, fs.Geo(), ino, Kind(Mode(child)), child, number, self, fuel.rest) && c != Fault
      requires c.Done? ==> Sound(c.v, fs.Geo()) && |c.parent| == InodeSize
      requires c.Done? ==> Removable(c.v, fs.Geo(), number, kind, c.parent, parent.number, raw)
      modifies inode, parent.inode, fs.ide.data, fs.inodeUsage, fs.blockUsage
      ensures c.Panic? ==> panicked
      ensures c.Done? ==> Ended(Remove(c.v, fs.Geo(), number, kind, c.parent, parent.number, raw),
                                panicked, fs.Now(), inode[..], parent.inode[..])
      decreases fuel, 1
    {
      panicked := DeleteChild(ino, fuel, v, self, child);
      if panicked {
        return;
      }
      assert parent.inode[..] == raw;
      panicked := Detach(parent, c.v, c.parent, raw);
    }

    /** The body of the loop of `deleteNode`: the node the first record
        names, whose record is `child`, is deleted with this directory
        as its parent; `v` and `self` are the volume and this node's
        record before. */
    method DeleteChild(ino: nat, ghost fuel: Fuel, ghost v: Volume, ghost self: seq<byte>, ghost child: seq<byte>)
        returns (panicked: bool)
      requires Valid() && fs.Now() == v && inode[..] == self && Sound(v, fs.Geo())
      requires Located(fs.Geo(), ino) && ino != number
      requires child == Read(v.disk, RecordOffset(fs.Geo(), ino), InodeSize)
      requires fuel.More? && Deletion(v, fs.Geo(), ino, Kind(Mode(child)), child, number, self, fuel.rest) != Fault
      modifies inode, fs.ide.data, fs.inodeUsage, fs.blockUsage
      ensures Reached(Deletion(v, fs.Geo(), ino, Kind(Mode(child)), child, number, self, fuel.rest), panicked, fs.Now(), inode[..])
      decreases fuel, 0
    {
      var node := fs.GetNode(ino);
      panicked := node.DeleteNode(this, fuel.rest, v, child, self);
    }

    /** The loop of `deleteNode` over a directory, which reads the
        number in the first record and stops: 0 for anything else. */
    method FirstNumber() returns (ino: nat)
      requires Valid()
      requires IsDir(kind) && SizeOf(inode[..]) > 0 ==> Addressable(inode[..], blockSize) && SizeOf(inode[..]) >= 4
      ensures ino == Head(fs.ide.data[..], inode[..], blockSize, kind)
    {
      if IsDir(kind) && SizeOf(inode[..]) > 0 {
        var b := ReadAll(0, 4);
        ino := LE32(b, 0);
      } else {
        ino := 0;
      }
    }

    /** `deleteNode` after the child: the blocks, the parent's record,
        the inode. */
    method Detach(parent: Node, ghost v: Volume, ghost self: seq<byte>, ghost raw: seq<byte>) returns (panicked: bool)
      requires Valid() && parent.Valid() && parent.fs == fs && parent != this && parent.inode != inode
      requires fs.Now() == v && inode[..] == self && parent.inode[..] == raw && Sound(v, fs.Geo())
      requires Removable(v, fs.Geo(), number, kind, self, parent.number, raw)
      modifies parent.inode, fs.ide.data
      modifies fs.inodeUsage
      modifies fs.blockUsage
      ensures Reached(Remove(v, fs.Geo(), number, kind, self, parent.number, raw), panicked, fs.Now(), parent.inode[..])
    {
      FreedShaped(v, fs.Geo(), number, kind, self, parent.number, raw);
      FreeOwnBlocks();
      ghost var im := Image(v.disk, Freed(v, fs.Geo(), kind, self).value, raw);
      assert parent.State() == im && fs.Inodes() == v.inodes;
      ghost var w := Unlink(im, fs.Geo(), parent.number, number);
      RemoveUnlinks(v, fs.Geo(), number, kind, self, parent.number, raw, im, w);
      panicked := Unhook(parent, v.inodes, im, w, Remove(v, fs.Geo(), number, kind, self, parent.number, raw));
    }

    /** `deleteNode` once its blocks are free: the record's unlinking
        from the parent's image `im`, which gives `w`, and the inode,
        ending as `r`. */
    method Unhook(parent: Node, ghost inodes: seq<seq<bv8>>, ghost im: Image, ghost w: Option<Image>, ghost r: Outcome)
        returns (panicked: bool)
      requires parent.Valid() && parent.fs == fs && Located(fs.Geo(), number)
      requires parent.State() == im && fs.Inodes() == inodes
      requires Shaped(im, fs.Geo()) && Addressable(im.raw, parent.blockSize)
      requires Chain(Content(im.disk, im.raw, parent.blockSize), 0)
      requires w == Unlink(im, fs.Geo(), parent.number, number)
      requires Unhooked(r, w, inodes, number, fs.superBlock.inodesPerGroup)
      modifies parent.inode, fs.ide.data, fs.inodeUsage, fs.blockUsage
      ensures Reached(r, panicked, fs.Now(), parent.inode[..])
    {
      panicked := parent.Forget(number, im, inodes, w, r);
    }

    /** The block loop of `deleteNode` over the node's own pointers. */
    method FreeOwnBlocks()
      requires Valid() && Sound(fs.Now(), fs.Geo())
      requires Freed(fs.Now(), fs.Geo(), kind, inode[..]).Some?
      modifies fs.blockUsage
      ensures fs.Now() == old(fs.Now()).(blocks := Freed(old(fs.Now()), fs.Geo(), kind, inode[..]).value)
    {
      if !(IsSymlink(kind) && SizeOf(inode[..]) < 60) {
        ghost var disk, inodes := fs.ide.data[..], fs.Inodes();
        ReleaseBlocks(fs, inode[..]);
        assert fs.ide.data[..] == disk && fs.Inodes() == inodes;
      }
    }

    /** What the child asks of this directory once it is gone:
        `deleteFromDirectory(t)`, then `freeInode(t)`. */
    method Forget(t: nat, ghost im: Image, ghost inodes: seq<seq<bv8>>, ghost w: Option<Image>, ghost r: Outcome)
        returns (panicked: bool)
      requires Valid() && State() == im && fs.Inodes() == inodes && Located(fs.Geo(), t)
      requires Shaped(im, fs.Geo()) && Addressable(im.raw, blockSize) && Chain(Content(im.disk, im.raw, blockSize), 0)
      requires w == Unlink(im, fs.Geo(), number, t)
      requires Unhooked(r, w, inodes, t, fs.superBlock.inodesPerGroup)
      modifies inode, fs.ide.data, fs.inodeUsage, fs.blockUsage
      ensures Reached(r, panicked, fs.Now(), inode[..])
    {
      panicked := DeleteFromDirectory(t, im, w);
      if panicked {
        return;
      }
      fs.InodesKept();
      fs.FreeInode(t);
    }
  }

  /** The block loop of `deleteNode` over the pointers of `raw`. */
  method ReleaseBlocks(fs: Ext2, raw: seq<byte>)
    requires fs.Valid() && |raw| == InodeSize && Covers(fs.Blocks(), fs.superBlock.blocksPerGroup)
    requires Release(fs.Blocks(), raw, fs.superBlock.blocksPerGroup, 0).Some?
    modifies fs.blockUsage
    ensures Release(old(fs.Blocks()), raw, fs.superBlock.blocksPerGroup, 0) == Some(fs.Blocks())
  {
    var perGroup := fs.superBlock.blocksPerGroup;
    ghost var goal := Release(fs.Blocks(), raw, perGroup, 0);
    var i: nat := 0;
    while i < PointerCount && LE32(raw, PointersAt + 4 * i) != 0
      invariant Pending(goal, fs.Blocks(), raw, perGroup, i)
    {
      ReleaseOne(fs, raw, i, LE32(raw, PointersAt + 4 * i), goal);
      i := i + 1;
    }
    ReleaseDone(fs.Blocks(), raw, perGroup, i);
  }

  /** One pass of the block loop: `blockAddress`, pointer `i` of
      `raw`, is not 0 and is freed; `goal` is what the whole loop
      gives. */
  method ReleaseOne(fs: Ext2, raw: seq<byte>, i: nat, blockAddress: nat, ghost goal: Option<seq<seq<bv8>>>)
    requires fs.Valid() && Pending(goal, fs.Blocks(), raw, fs.superBlock.blocksPerGroup, i) && goal.Some?
    requires i < PointerCount && blockAddress == Pointer(raw, i) != 0
    modifies fs.blockUsage
    ensures Pending(goal, fs.Blocks(), raw, fs.superBlock.blocksPerGroup, i + 1)
  {
    ghost var blocks := fs.Blocks();
    fs.FreeBlock(blockAddress);
    ReleaseStep(blocks, raw, fs.superBlock.blocksPerGroup, i, fs.Blocks());
  }

  /** The walk's accumulated entries take one more from the front of
      the rest. */
  lemma Regroup(es: seq<Entry>, e: Entry, rest: seq<Entry>)
    ensures es + ([e] + rest) == (es + [e]) + rest
  {
  }

  /** The loop of `entries` over the directory's bytes `d`: read the
      number and length at `offset`, hand on a used record's name, and
      advance by the length. */
  method WalkEntries(d: seq<byte>) returns (es: seq<Entry>)
    requires Chain(d, 0) && Named(d, 0)
    ensures es == Entries(d, 0)
  {
    var offset: nat := 0;
    es := [];
    while offset < |d|
      invariant Chain(d, offset) && Named(d, offset)
      invariant es + Entries(d, offset) == Entries(d, 0)
      decreases |d| - offset
    {
      EntriesStep(d, offset);
      var ino := InodeAt(d, offset);
      var next := offset + RecLenAt(d, offset);
      if ino != 0 {
        var name := d[offset + 8..offset + 8 + NameLenAt(d, offset)];
        Regroup(es, Entry(ino, name), Entries(d, next));
        es := es + [Entry(ino, name)];
      }
      offset := next;
    }
  }

  /** `get_entry_names`' copying: each name with `strcpy` at `byte`,
      which then moves past the name and its NUL; one more NUL at the
      end. */
  method PutNames(buf: array<byte>, es: seq<Entry>)
    requires |Names(es)| <= buf.Length
    modifies buf
    ensures buf[..|Names(es)|] == Names(es)
    ensures buf[|Names(es)|..] == old(buf[|Names(es)|..])
  {
    var byte: nat := 0;
    var i := 0;
    while i < |es|
      invariant i <= |es| && byte == |NameList(es[..i])| && byte <= |NameList(es)|
      invariant buf[..byte] == NameList(es[..i])
      invariant buf[byte..] == old(buf[byte..])
    {
      NamesStep(es, i);
      NameListGrows(es, i + 1);
      ghost var before := buf[..];
      var next := PutName(buf, byte, es[i]);
      Later(before, old(buf[..]), byte, next);
      byte := next;
      i := i + 1;
    }
    assert es[..i] == es;
    ghost var before := buf[..];
    buf[byte] := CString.NUL;
    assert buf[..byte + 1] == buf[..byte] + [CString.NUL];
    Later(before, old(buf[..]), byte, byte + 1);
    assert buf[byte + 1..] == before[byte + 1..];
  }

  /** One pass of the copying: `strcpy` of the entry's name at `at`,
      which ends at the next free byte. */
  method PutName(buf: array<byte>, at: nat, e: Entry) returns (next: nat)
    requires at + |EntryName(e)| < buf.Length
    modifies buf
    ensures next == at + |EntryName(e)| + 1
    ensures buf[..next] == old(buf[..at]) + EntryName(e) + [CString.NUL]
    ensures buf[next..] == old(buf[next..])
  {
    var nm := e.name + [CString.NUL];
    assert nm[|e.name|] == CString.NUL;
    var copied := LibK.StrCpy(buf, at, nm);
    assert buf[..at + copied + 1] == buf[..at] + buf[at..at + copied] + [buf[at + copied]];
    next := at + copied + 1;
  }

  /** Agreement from `x` on gives agreement from any later `y`. */
  lemma Later(a: seq<byte>, b: seq<byte>, x: nat, y: nat)
    requires x <= y <= |a| == |b| && a[x..] == b[x..]
    ensures a[y..] == b[y..]
  {
    assert a[y..] == a[x..][y - x..];
    assert b[y..] == b[x..][y - x..];
  }

  /** `entry_count`'s scan of the data read into `buffer`. */
  method CountUsed(buffer: seq<byte>) returns (n: nat)
    requires Chain(buffer, 0)
    ensures n == Live(buffer, 0)
  {
    n := 0;
    var curByte: nat := 0;
    while curByte < |buffer|
      invariant Chain(buffer, curByte)
      invariant n + Live(buffer, curByte) == Live(buffer, 0)
      decreases |buffer| - curByte
    {
      var inodeNumber := LE32(buffer, curByte);
      var entrySize := LE16(buffer, curByte + 4);
      curByte := curByte + entrySize;
      if inodeNumber > 0 {
        n := n + 1;
      }
    }
  }

  /** `deleteFromDirectory`'s scan: the offset of the first record
      numbered `t`, where the loop stops. */
  method FindRecord(buffer: seq<byte>, t: nat) returns (at: Option<nat>)
    requires Chain(buffer, 0)
    ensures at == FirstWith(buffer, 0, t)
  {
    var curByte: nat := 0;
    while curByte < |buffer|
      invariant Chain(buffer, curByte)
      invariant FirstWith(buffer, 0, t) == FirstWith(buffer, curByte, t)
      decreases |buffer| - curByte
    {
      var inodeNumber := LE32(buffer, curByte);
      var entrySize := LE16(buffer, curByte + 4);
      if inodeNumber == t {
        return Some(curByte);
      }
      curByte := curByte + entrySize;
    }
    return None;
  }

  /** The stack buffer of `createDirectoryEntry`: the inode number @0,
      the record length @4 and the name length @6, both truncated to
      their fields, the type @7, then the name copied byte by byte; the
      padding keeps what the buffer held. */
  method BuildRecord(name: seq<byte>, inodeNumber: int, t: byte, junk: seq<byte>) returns (buffer: array<byte>)
    requires CString.Terminated(name) && |junk| == 3
    ensures fresh(buffer) && buffer[..] == DirRecord(name, inodeNumber, t, junk)
  {
    var nameLength := LibK.StrLen(name);
    var directorySize := 8 + nameLength;
    if directorySize % 4 != 0 {
      directorySize := directorySize + (4 - directorySize % 4);
    }
    assert directorySize == RecLen(nameLength);
    ghost var want := DirRecord(name, inodeNumber, t, junk);
    buffer := RecordHeader(name, inodeNumber, t, junk, nameLength, directorySize);
    var i := 0;
    while i < nameLength
      invariant i <= nameLength
      invariant forall k | 0 <= k < 8 + i :: buffer[k] == want[k]
      invariant forall k | 8 + nameLength <= k < directorySize :: buffer[k] == want[k]
    {
      buffer[8 + i] := name[i];
      i := i + 1;
    }
    assert buffer[..] == want;
  }

  /** The buffer of `BuildRecord` before the name is copied: the four
      header fields stored, and the padding what the stack held. */
  method RecordHeader(name: seq<byte>, inodeNumber: int, t: byte, junk: seq<byte>, nameLength: nat, directorySize: nat)
    returns (buffer: array<byte>)
    requires CString.Terminated(name) && |junk| == 3
    requires nameLength == CString.Len(name) && directorySize == RecLen(nameLength)
    ensures fresh(buffer) && buffer.Length == directorySize
    ensures var r := DirRecord(name, inodeNumber, t, junk);
      (forall k | 0 <= k < 8 :: buffer[k] == r[k]) &&
      (forall k | 8 + nameLength <= k < directorySize :: buffer[k] == r[k])
  {
    DirRecordAt(name, inodeNumber, t, junk);
    buffer := new byte[directorySize](i requires 0 <= i < directorySize =>
      if i < 8 + nameLength then 0 else junk[i - 8 - nameLength]);
    Put32(buffer, 0, inodeNumber);
    Put16(buffer, 4, directorySize);
    buffer[6] := nameLength % 256;
    buffer[7] := t;
  }

  /** `createDirectoryEntry(name, inodeNumber, typeIndicator, dir)`:
      the record appended with `dir->write_all` at
      `dir->size_in_bytes()`. */
  method CreateDirectoryEntry(name: seq<byte>, inodeNumber: int, t: byte, dir: Node, junk: seq<byte>)
    returns (panicked: bool)
    requires dir.Valid() && CString.Terminated(name) && |name| < Two32 - 10 && |junk| == 3
    modifies dir.inode, dir.fs.ide.data, dir.fs.blockUsage
    ensures Shaped(old(dir.State()), dir.fs.Geo())
    ensures var w := Entered(old(dir.State()), dir.fs.Geo(), dir.number, name, inodeNumber, t, junk);
      (panicked <==> w.None?) && (!panicked ==> dir.State() == w.value)
  {
    dir.StateShaped();
    var buffer := BuildRecord(name, inodeNumber, t, junk);
    panicked := dir.WriteAll(SizeOf(dir.inode[..]), buffer[..]);
  }

  /** The "." and ".." entries `createNode` gives a new directory
      `node`, both with `createDirectoryEntry`. */
  method AddDots(node: Node, parent: nat, junk: seq<byte>) returns (panicked: bool)
    requires node.Valid() && |junk| == 3
    modifies node.inode, node.fs.ide.data, node.fs.blockUsage
    ensures Shaped(old(node.State()), node.fs.Geo())
    ensures var w := Dots(old(node.State()), node.fs.Geo(), node.number, parent, junk);
      (panicked <==> w.None?) && (!panicked ==> node.State() == w.value)
  {
    panicked := CreateDirectoryEntry(DotName(), node.number, DirEntry, node, junk);
    if !panicked {
      panicked := CreateDirectoryEntry(DotDotName(), parent, DirEntry, node, junk);
    }
  }

  /** The inner loop of `find`: copies the component that starts at
      `idx` into `part` and ends it with NUL, and panics on its 257th
      byte. */
  method CopyPart(path: seq<byte>, idx: nat, part: array<byte>) returns (next: nat, panicked: bool)
    requires CString.Terminated(path) && idx <= CString.Len(path) && part.Length == 257
    modifies part
    ensures panicked <==> PartEnd(path, idx) - idx > 256
    ensures !panicked ==> next == PartEnd(path, idx) && CString.Terminated(part[..]) &&
                          CString.Content(part[..]) == path[idx..next]
  {
    next := idx;
    var i := 0;
    while true
      invariant idx <= next <= CString.Len(path) && i == next - idx <= 256
      invariant forall k | idx <= k < next :: path[k] != CString.NUL && path[k] != CString.Slash
      invariant part[..i] == path[idx..next]
      decreases CString.Len(path) - next
    {
      var c := path[next];
      if c == CString.NUL || c == CString.Slash {
        break;
      }
      next := next + 1;
      if i >= 256 {
        return next, true;
      }
      part[i] := c;
      i := i + 1;
    }
    part[i] := CString.NUL;
    CString.LenAt(part[..], i);
    panicked := false;
  }

  /** The `zeroEntry` buffer `deleteFromDirectory` builds: zeros with the
      length stored at byte 4, only as far as the buffer reaches. */
  method BuildTombstone(r: nat) returns (z: array<byte>)
    requires r < Two16
    ensures fresh(z) && z[..] == Tombstone(r)
  {
    z := new byte[r];
    var i := 0;
    while i < 4 && i < r
      invariant i <= 4 && i <= r
      invariant forall j | 0 <= j < i :: z[j] == 0
    {
      z[i] := 0;
      i := i + 1;
    }
    var l := Bytes16(r);
    if r > 4 {
      z[4] := l[0];
    }
    if r > 5 {
      z[5] := l[1];
    }
    i := 6;
    while i < r
      invariant 6 <= i
      invariant forall j | 0 <= j < 4 && j < r :: z[j] == 0
      invariant r > 4 ==> z[4] == l[0]
      invariant r > 5 ==> z[5] == l[1]
      invariant forall j | 6 <= j < i && j < r :: z[j] == 0
    {
      z[i] := 0;
      i := i + 1;
    }
    assert z[..] == Tombstone(r);
  }

  /** The bytes read so far, followed by the next run, are the data
      up to the end of that run. */
  lemma ReadOn(c: seq<byte>, r: seq<byte>, lo: nat, j: nat, take: nat, part: seq<byte>)
    requires lo <= j && j + take <= |c| && r == c[lo..j] && c[j..j + take] == part
    ensures r + part == c[lo..j + take]
  {
    assert c[lo..j + take] == c[lo..j] + c[j..j + take];
  }

  /** A run of data bytes inside one block is that block's bytes. */
  lemma ContentRun(disk: seq<byte>, raw: seq<byte>, bs: nat, j: nat, take: nat)
    requires Addressable(raw, bs) && 0 < take && j + take <= SizeOf(raw) && j % bs + take <= bs
    ensures 0 <= j / bs < Two32 && (j / bs >= Direct ==> 4 * (j / bs - Direct) + 4 <= bs)
    ensures Content(disk, raw, bs)[j..j + take] ==
            ReadBlock(disk, raw, bs, j / bs)[j % bs..j % bs + take]
  {
    InRange(raw, bs, j);
    var c := Content(disk, raw, bs);
    var b := ReadBlock(disk, raw, bs, j / bs);
    var q, w := j / bs, j % bs;
    DivMod(j, bs);
    MulLe(1, bs, q);
    forall k | j <= k < j + take
      ensures c[k] == b[k - j + w]
    {
      ContentBlocks(disk, raw, bs, q, k - j + w);
    }
    assert c[j..j + take] == b[w..w + take];
  }

  /** The first group with a clear bit gives the first free slot. */
  lemma FoundAt(maps: seq<seq<bv8>>, bytes: nat, start: nat, g: nat, i: nat)
    requires Fit(maps, bytes) && g < |maps|
    requires forall h | 0 <= h < g :: FirstZero(maps[h], bytes, 0).None?
    requires FirstZero(maps[g], bytes, 0) == Some(i)
    ensures FirstFree(maps, bytes, 0) == Some(Slot(g, i))
  {
    FirstFreeSkip(maps, bytes, 0, g);
  }

  /** `(b >> s) & 1`: bit `s` counted from the least significant. */
  function LowBit(b: bv8, s: nat): bv8
    requires s < 8
  {
    (b >> s) & 1
  }

  /** Bit `s` from the bottom of byte `c` is structure `8 * c + 7 - s`. */
  lemma UsedAt(m: seq<bv8>, c: nat, s: nat)
    requires c < |m| && s < 8
    ensures Used(m, 8 * c + (7 - s)) <==> LowBit(m[c], s) != 0
  {
    assert (8 * c + (7 - s)) / 8 == c && (8 * c + (7 - s)) % 8 == 7 - s;
    ShiftMask(m[c], s);
  }

  /** Shifting bit `s` down to bit 0 tests the mask of bit `7 - s`. */
  lemma ShiftMask(b: bv8, s: nat)
    requires s < 8
    ensures (LowBit(b, s) != 0) == Bit(b, 7 - s)
  {
    if s == 0 {
    } else if s == 1 {
    } else if s == 2 {
    } else if s == 3 {
    } else if s == 4 {
    } else if s == 5 {
    } else if s == 6 {
    } else {
    }
  }

  /** The scan passes over structures in use. */
  lemma {:induction false} ScannedTo(m: seq<bv8>, bytes: nat, k: nat, at: nat)
    requires bytes <= |m| && k <= at <= 8 * bytes
    requires forall i | k <= i < at :: Used(m, i)
    ensures FirstZero(m, bytes, k) == FirstZero(m, bytes, at)
    decreases at - k
  {
    if k < at {
      ScannedTo(m, bytes, k + 1, at);
    }
  }
}
