/** Linked directories, as in section 4.1 of "The Second Extended File
    System: Internal Layout": a directory's data is a run of
    variable-length records, each an inode number (0 for an unused
    record), the record length, the name length, a type indicator and
    the name. This module is the record format and what the driver's
    scans over it compute, on the directory's bytes as one sequence. */
module Ext2Dir {
  import opened Bytes
  import opened CString

  /** `typeIndicator` values. */
  const FileEntry: byte := 1
  const DirEntry: byte := 2
  const LinkEntry: byte := 7

  function Zeros(n: nat): (z: seq<byte>)
    ensures |z| == n && forall i | 0 <= i < n :: z[i] == 0
  {
    seq(n, _ => 0)
  }

  /** `createDirectoryEntry`'s `directorySize`: the 8 header bytes and
      the name, rounded up to the next multiple of 4. */
  function RecLen(nameLen: nat): (r: nat)
    ensures r % 4 == 0 && 8 + nameLen <= r < 8 + nameLen + 4
  {
    var s := 8 + nameLen;
    if s % 4 != 0 then s + (4 - s % 4) else s
  }

  /** The `directorySize` bytes `createDirectoryEntry` builds: inode
      number @0, record length @4 (16 bits), name length @6 (8 bits),
      type @7, name @8; the padding is whatever the stack buffer held. */
  function Record(inode: int, name: seq<byte>, t: byte, pad: seq<byte>): (r: seq<byte>)
    requires |pad| == RecLen(|name|) - 8 - |name|
    ensures |r| == RecLen(|name|)
  {
    Bytes32(inode) + Bytes16(RecLen(|name|)) + [|name| % 256, t] + name + pad
  }

  /** Header fields of the record at `off`. */
  function InodeAt(d: seq<byte>, off: nat): nat
    requires off + 4 <= |d|
  {
    LE32(d, off)
  }

  function RecLenAt(d: seq<byte>, off: nat): nat
    requires off + 6 <= |d|
  {
    LE16(d, off + 4)
  }

  function NameLenAt(d: seq<byte>, off: nat): nat
    requires off + 7 <= |d|
  {
    d[off + 6]
  }

  /** A record read back gives the fields it was built from (the
      length fields as their 16- and 8-bit stores). */
  lemma RecordFields(inode: int, name: seq<byte>, t: byte, pad: seq<byte>)
    requires |pad| == RecLen(|name|) - 8 - |name|
    ensures var r := Record(inode, name, t, pad);
      InodeAt(r, 0) == U32(inode) && RecLenAt(r, 0) == RecLen(|name|) % Two16 &&
      NameLenAt(r, 0) == |name| % 256 && r[7] == t && r[8..8 + |name|] == name
  {
    var r := Record(inode, name, t, pad);
    var h := Bytes32(inode);
    assert r[0..4] == h;
    LE32Bytes32(h, 0, inode);
    SpliceAt(h, 0, Bytes32(inode));
    assert Splice(h, 0, Bytes32(inode)) == h;
    var l := Bytes16(RecLen(|name|));
    assert r[4..6] == l;
    LE16Bytes16(l, 0, RecLen(|name|));
    SpliceAt(l, 0, l);
    assert Splice(l, 0, l) == l;
    LE16Local(r, l, 4, 0);
    LE32Local(r, h, 0, 0);
  }

  /** The records from `off` on can be walked: each header lies inside
      the data, each length is nonzero, and the next offset stays below
      2^32 (so the `uint32_t` offset never wraps). A walk that ends
      past the end of the data stops there. */
  predicate Chain(d: seq<byte>, off: nat)
    decreases |d| - off
  {
    off >= |d| ||
    (off + 6 <= |d| && RecLenAt(d, off) > 0 && off + RecLenAt(d, off) < Two32 &&
     Chain(d, off + RecLenAt(d, off)))
  }

  /** ... and every used record's name lies inside the data. */
  predicate Named(d: seq<byte>, off: nat)
    requires Chain(d, off)
    decreases |d| - off
  {
    off >= |d| ||
    ((InodeAt(d, off) != 0 ==> off + 8 <= |d| && off + 8 + NameLenAt(d, off) <= |d|) &&
     Named(d, off + RecLenAt(d, off)))
  }

  /** What `entries` hands to its callback: an inode number and the
      bytes of the name. */
  datatype Entry = Entry(inode: nat, name: seq<byte>)

  /** The entries from `off` on: the used records, in order. */
  function Entries(d: seq<byte>, off: nat): (es: seq<Entry>)
    requires Chain(d, off) && Named(d, off)
    ensures forall i | 0 <= i < |es| :: 0 < es[i].inode < Two32 && |es[i].name| < 256
    decreases |d| - off
  {
    if off >= |d| then []
    else
      var rest := Entries(d, off + RecLenAt(d, off));
      if InodeAt(d, off) != 0 then
        [Entry(InodeAt(d, off), d[off + 8..off + 8 + NameLenAt(d, off)])] + rest
      else rest
  }

  /** `entry_count`: the number of used records. */
  function Live(d: seq<byte>, off: nat): nat
    requires Chain(d, off)
    decreases |d| - off
  {
    if off >= |d| then 0
    else (if InodeAt(d, off) != 0 then 1 else 0) + Live(d, off + RecLenAt(d, off))
  }

  /** `entry_count` counts exactly the entries `entries` visits. */
  lemma {:induction false} LiveEntries(d: seq<byte>, off: nat)
    requires Chain(d, off) && Named(d, off)
    ensures Live(d, off) == |Entries(d, off)|
    decreases |d| - off
  {
    if off < |d| {
      LiveEntries(d, off + RecLenAt(d, off));
    }
  }

  /** A well-formed directory: records tile the data exactly, each
      holds at least its 8-byte header, and each used record's name lies
      inside the record. */
  predicate Tiled(d: seq<byte>, off: nat)
    requires off <= |d|
    decreases |d| - off
  {
    off == |d| ||
    (off + 8 <= |d| && 8 <= RecLenAt(d, off) && off + RecLenAt(d, off) <= |d| &&
     (InodeAt(d, off) != 0 ==> 8 + NameLenAt(d, off) <= RecLenAt(d, off)) &&
     Tiled(d, off + RecLenAt(d, off)))
  }

  /** A tiled directory under 4 GiB can be walked. */
  lemma {:induction false} TiledChain(d: seq<byte>, off: nat)
    requires off <= |d| < Two32 && Tiled(d, off)
    ensures Chain(d, off) && Named(d, off)
    decreases |d| - off
  {
    if off < |d| {
      TiledChain(d, off + RecLenAt(d, off));
    }
  }

  /** Two buffers of one length that agree from `lo` on. */
  predicate Agree(a: seq<byte>, b: seq<byte>, lo: nat)
  {
    |a| == |b| && lo <= |a| && forall i | lo <= i < |a| :: a[i] == b[i]
  }

  /** Agreement from `off` on gives the same header at `off`. */
  lemma HeaderSame(a: seq<byte>, b: seq<byte>, off: nat)
    requires Agree(a, b, off) && off + 6 <= |a|
    ensures InodeAt(a, off) == InodeAt(b, off) && RecLenAt(a, off) == RecLenAt(b, off)
    ensures off + 7 <= |a| ==> NameLenAt(a, off) == NameLenAt(b, off)
  {
  }

  /** The walk from `off` only looks at the bytes from `off` on. */
  lemma {:induction false} ChainLocal(a: seq<byte>, b: seq<byte>, off: nat)
    requires Agree(a, b, off) && Chain(a, off)
    ensures Chain(b, off)
    decreases |a| - off
  {
    if off < |a| {
      HeaderSame(a, b, off);
      var next := off + RecLenAt(a, off);
      if next <= |a| {
        ChainLocal(a, b, next);
      }
    }
  }

  lemma {:induction false} NamedLocal(a: seq<byte>, b: seq<byte>, off: nat)
    requires Agree(a, b, off) && Chain(a, off) && Named(a, off)
    ensures Chain(b, off) && Named(b, off)
    decreases |a| - off
  {
    ChainLocal(a, b, off);
    if off < |a| {
      HeaderSame(a, b, off);
      var next := off + RecLenAt(a, off);
      if next <= |a| {
        NamedLocal(a, b, next);
      }
    }
  }

  lemma {:induction false} EntriesLocal(a: seq<byte>, b: seq<byte>, off: nat)
    requires Agree(a, b, off) && Chain(a, off) && Named(a, off)
    ensures Chain(b, off) && Named(b, off) && Entries(b, off) == Entries(a, off)
    decreases |a| - off
  {
    NamedLocal(a, b, off);
    if off < |a| {
      HeaderSame(a, b, off);
      var next := off + RecLenAt(a, off);
      if next <= |a| {
        EntriesLocal(a, b, next);
      } else {
        assert Entries(b, next) == [] == Entries(a, next);
      }
      if InodeAt(a, off) != 0 {
        var n := NameLenAt(a, off);
        assert b[off + 8..off + 8 + n] == a[off + 8..off + 8 + n];
      }
      SameStep(a, b, off);
    }
  }

  /** Same header, same name and same rest give the same entries. */
  lemma SameStep(a: seq<byte>, b: seq<byte>, off: nat)
    requires off < |a| && Chain(a, off) && Named(a, off) && Chain(b, off) && Named(b, off)
    requires off < |b| && off + 6 <= |a| && off + 6 <= |b|
    requires InodeAt(b, off) == InodeAt(a, off) && RecLenAt(b, off) == RecLenAt(a, off)
    requires InodeAt(a, off) != 0 ==>
      off + 8 + NameLenAt(a, off) <= |a| && off + 8 + NameLenAt(b, off) <= |b| &&
      NameLenAt(b, off) == NameLenAt(a, off) &&
      b[off + 8..off + 8 + NameLenAt(a, off)] == a[off + 8..off + 8 + NameLenAt(a, off)]
    requires Entries(b, off + RecLenAt(a, off)) == Entries(a, off + RecLenAt(a, off))
    ensures Entries(b, off) == Entries(a, off)
  {
    EntriesStep(a, off);
    EntriesStep(b, off);
  }

  /** The header of a record that ends before the appended bytes is
      the same in the grown directory. */
  lemma HeaderPrefix(d: seq<byte>, rec: seq<byte>, off: nat)
    requires off + 6 <= |d|
    ensures InodeAt(d + rec, off) == InodeAt(d, off) && RecLenAt(d + rec, off) == RecLenAt(d, off)
    ensures off + 7 <= |d| ==> NameLenAt(d + rec, off) == NameLenAt(d, off)
  {
  }

  /** `rec` is one record, exactly as long as its length field, for
      the entry `e`. */
  predicate Holds(rec: seq<byte>, e: Entry)
  {
    |rec| >= 8 && InodeAt(rec, 0) == e.inode != 0 && RecLenAt(rec, 0) == |rec| &&
    NameLenAt(rec, 0) == |e.name| && 8 + |e.name| <= |rec| && rec[8..8 + |e.name|] == e.name
  }

  /** A record `createDirectoryEntry` builds for a nonzero inode number
      and a name under 256 bytes is a record for (inode, name). */
  lemma RecordHolds(inode: int, name: seq<byte>, t: byte, pad: seq<byte>)
    requires |pad| == RecLen(|name|) - 8 - |name|
    requires U32(inode) != 0 && |name| < 256 && RecLen(|name|) < Two16
    ensures Holds(Record(inode, name, t, pad), Entry(U32(inode), name))
  {
    RecordFields(inode, name, t, pad);
  }

  /** The appended record's header, read at the old size. */
  lemma AppendHeader(d: seq<byte>, rec: seq<byte>, e: Entry)
    requires Holds(rec, e)
    ensures var g := d + rec;
      |d| + 8 <= |g| && InodeAt(g, |d|) == e.inode && RecLenAt(g, |d|) == |rec| &&
      NameLenAt(g, |d|) == |e.name| && g[|d| + 8..|d| + 8 + |e.name|] == e.name
  {
    var g := d + rec;
    assert forall i | 0 <= i < |rec| :: g[|d| + i] == rec[i];
    assert g[|d| + 8..|d| + 8 + |e.name|] == rec[8..8 + |e.name|];
  }

  /** `createDirectoryEntry` appends at the directory's size: a tiled
      directory stays tiled ... */
  lemma {:induction false} AppendTiled(d: seq<byte>, off: nat, rec: seq<byte>, e: Entry)
    requires off <= |d| && Tiled(d, off) && Holds(rec, e)
    ensures Tiled(d + rec, off)
    decreases |d| - off
  {
    var g := d + rec;
    if off == |d| {
      AppendHeader(d, rec, e);
      assert Tiled(g, |g|);
    } else {
      HeaderPrefix(d, rec, off);
      AppendTiled(d, off + RecLenAt(d, off), rec, e);
    }
  }

  /** One step of the walk: the entry of the record at `off`, if the
      record is used, then the rest. */
  lemma EntriesStep(d: seq<byte>, off: nat)
    requires off < |d| && Chain(d, off) && Named(d, off)
    ensures var next := off + RecLenAt(d, off);
      Chain(d, next) && Named(d, next) &&
      Entries(d, off) == (if InodeAt(d, off) != 0
        then [Entry(InodeAt(d, off), d[off + 8..off + 8 + NameLenAt(d, off)])] else []) + Entries(d, next)
  {
  }

  /** ... and its entries are the old ones followed by the new one. */
  lemma {:induction false} AppendEntries(d: seq<byte>, off: nat, rec: seq<byte>, e: Entry)
    requires off <= |d| && Tiled(d, off) && Holds(rec, e) && |d| + |rec| < Two32
    ensures (AppendTiled(d, off, rec, e); TiledChain(d + rec, off); TiledChain(d, off);
       Entries(d + rec, off) == Entries(d, off) + [e])
    decreases |d| - off
  {
    var g := d + rec;
    AppendTiled(d, off, rec, e);
    TiledChain(g, off);
    TiledChain(d, off);
    if off == |d| {
      AppendHeader(d, rec, e);
      AppendHere(g, off, e);
    } else {
      HeaderPrefix(d, rec, off);
      var next := off + RecLenAt(d, off);
      AppendTiled(d, next, rec, e);
      TiledChain(g, next);
      TiledChain(d, next);
      AppendEntries(d, next, rec, e);
      if InodeAt(d, off) != 0 {
        var n := NameLenAt(d, off);
        assert g[off + 8..off + 8 + n] == d[off + 8..off + 8 + n];
      }
      AppendLater(d, g, off, e);
    }
  }

  /** At the old end: the new record is the last entry. */
  lemma AppendHere(g: seq<byte>, off: nat, e: Entry)
    requires off < |g| && Chain(g, off) && Named(g, off) && off + 8 <= |g|
    requires InodeAt(g, off) == e.inode != 0 && off + RecLenAt(g, off) == |g|
    requires NameLenAt(g, off) == |e.name| && g[off + 8..off + 8 + |e.name|] == e.name
    ensures Entries(g, off) == [e]
  {
    EntriesStep(g, off);
    assert Entries(g, |g|) == [];
  }

  /** Before the old end: the record at `off` gives the same entry, and
      the rest is the old rest with the new entry after it. */
  lemma AppendLater(d: seq<byte>, g: seq<byte>, off: nat, e: Entry)
    requires off < |d| && Chain(d, off) && Named(d, off) && Chain(g, off) && Named(g, off)
    requires off + 8 <= |d| && off + 8 <= |g|
    requires InodeAt(g, off) == InodeAt(d, off) && RecLenAt(g, off) == RecLenAt(d, off)
    requires NameLenAt(g, off) == NameLenAt(d, off)
    requires InodeAt(d, off) != 0 ==>
      off + 8 + NameLenAt(d, off) <= |d| &&
      g[off + 8..off + 8 + NameLenAt(d, off)] == d[off + 8..off + 8 + NameLenAt(d, off)]
    requires Entries(g, off + RecLenAt(d, off)) == Entries(d, off + RecLenAt(d, off)) + [e]
    ensures Entries(g, off) == Entries(d, off) + [e]
  {
    EntriesStep(d, off);
    EntriesStep(g, off);
    var rest := Entries(d, off + RecLenAt(d, off));
    var h := if InodeAt(d, off) != 0
      then [Entry(InodeAt(d, off), d[off + 8..off + 8 + NameLenAt(d, off)])] else [];
    assert Entries(g, off) == h + (rest + [e]);
    assert h + (rest + [e]) == (h + rest) + [e];
  }

  /** The record `deleteFromDirectory` writes over a deleted one: the
      first 4 bytes zero, the length kept @4, zeros after; it is
      `entrySize` bytes long, so only its first bytes for a record
      shorter than 6. */
  function Tombstone(r: nat): (t: seq<byte>)
    ensures |t| == r
  {
    (Zeros(4) + Bytes16(r) + Zeros(if r >= 6 then r - 6 else 0))[..r]
  }

  /** A tombstone is an unused record of the same length. */
  lemma TombstoneFields(r: nat)
    requires 6 <= r < Two16
    ensures InodeAt(Tombstone(r), 0) == 0 && RecLenAt(Tombstone(r), 0) == r
    ensures forall i | 6 <= i < r :: Tombstone(r)[i] == 0
  {
    var t := Tombstone(r);
    var l := Bytes16(r);
    assert t[4] == l[0] && t[5] == l[1];
  }

  /** The offset of the first record whose inode number is `t`, the
      one `deleteFromDirectory` stops at. */
  function FirstWith(d: seq<byte>, off: nat, t: nat): (r: Option<nat>)
    requires Chain(d, off)
    ensures r.Some? ==> off <= r.value && r.value + 6 <= |d| && InodeAt(d, r.value) == t
    decreases |d| - off
  {
    if off >= |d| then None
    else if InodeAt(d, off) == t then Some(off)
    else FirstWith(d, off + RecLenAt(d, off), t)
  }

  /** In a tiled directory the record found lies inside the data. */
  lemma {:induction false} FirstWithInside(d: seq<byte>, off: nat, t: nat)
    requires off <= |d| < Two32 && Tiled(d, off)
    ensures Chain(d, off)
    ensures FirstWith(d, off, t).Some? ==>
      var o := FirstWith(d, off, t).value;
      o + 8 <= |d| && 8 <= RecLenAt(d, o) && o + RecLenAt(d, o) <= |d|
    decreases |d| - off
  {
    TiledChain(d, off);
    if off < |d| && InodeAt(d, off) != t {
      FirstWithInside(d, off + RecLenAt(d, off), t);
    }
  }

  /** The directory with the record at `o` turned into a tombstone. */
  function Deleted(d: seq<byte>, o: nat): (g: seq<byte>)
    requires o + 6 <= |d| && o + RecLenAt(d, o) <= |d|
    ensures |g| == |d|
  {
    Splice(d, o, Tombstone(RecLenAt(d, o)))
  }

  /** The index of the first entry with inode number `t`. */
  function FirstIndex(es: seq<Entry>, t: nat): (r: Option<nat>)
    ensures r.Some? ==> r.value < |es| && es[r.value].inode == t
    ensures r.Some? ==> forall j | 0 <= j < r.value :: es[j].inode != t
    ensures r.None? ==> forall j | 0 <= j < |es| :: es[j].inode != t
  {
    if |es| == 0 then None
    else if es[0].inode == t then Some(0)
    else match FirstIndex(es[1..], t)
      case None => None
      case Some(i) => Some(i + 1)
  }

  /** The entries with the first one for `t` taken out. */
  function RemoveFirst(es: seq<Entry>, t: nat): (r: seq<Entry>)
    ensures FirstIndex(es, t).None? ==> r == es
    ensures FirstIndex(es, t).Some? ==>
      var i := FirstIndex(es, t).value; r == es[..i] + es[i + 1..]
  {
    if |es| == 0 then []
    else if es[0].inode == t then es[1..]
    else
      var r := [es[0]] + RemoveFirst(es[1..], t);
      if FirstIndex(es[1..], t).Some? then
        CutShift(es, FirstIndex(es[1..], t).value);
        r
      else
        assert [es[0]] + es[1..] == es;
        r
  }

  /** Cutting index `i` of the tail is cutting index `i + 1`. */
  lemma CutShift(es: seq<Entry>, i: nat)
    requires i + 1 < |es|
    ensures [es[0]] + (es[1..][..i] + es[1..][i + 1..]) == es[..i + 1] + es[i + 2..]
  {
    assert [es[0]] + es[1..][..i] == es[..i + 1];
    assert es[1..][i + 1..] == es[i + 2..];
  }

  /** `deleteFromDirectory(t)` on a tiled directory: a record has
      number `t` exactly when an entry does; when one does, turning the
      first such record into a tombstone keeps the directory tiled and
      its size, removes exactly the first entry for `t`, and leaves
      every other entry, in order. */
  lemma DeleteEntry(d: seq<byte>, t: nat)
    requires |d| < Two32 && Tiled(d, 0) && t != 0
    ensures Chain(d, 0) && Named(d, 0)
    ensures FirstWith(d, 0, t).Some? <==> FirstIndex(Entries(d, 0), t).Some?
    ensures FirstWith(d, 0, t).Some? ==>
      var o := FirstWith(d, 0, t).value;
      o + RecLenAt(d, o) <= |d| &&
      var g := Deleted(d, o);
      Tiled(g, 0) && Chain(g, 0) && Named(g, 0) &&
      Entries(g, 0) == RemoveFirst(Entries(d, 0), t) && Live(g, 0) + 1 == Live(d, 0)
  {
    TiledChain(d, 0);
    FirstWithIndex(d, 0, t);
    FirstWithInside(d, 0, t);
    if FirstWith(d, 0, t).Some? {
      var o := FirstWith(d, 0, t).value;
      var g := Deleted(d, o);
      DeletedTomb(d, o);
      DeleteTiled(d, g, 0, t, o);
      TiledChain(g, 0);
      DeleteEntries(d, g, 0, t, o);
      LiveEntries(d, 0);
      LiveEntries(g, 0);
    }
  }

  /** A record with number `t` is found exactly when an entry has it. */
  lemma {:induction false} FirstWithIndex(d: seq<byte>, off: nat, t: nat)
    requires Chain(d, off) && Named(d, off) && t != 0
    ensures FirstWith(d, off, t).Some? <==> FirstIndex(Entries(d, off), t).Some?
    decreases |d| - off
  {
    if off < |d| {
      var next := off + RecLenAt(d, off);
      FirstWithIndex(d, next, t);
      EntriesStep(d, off);
      var rest := Entries(d, next);
      if InodeAt(d, off) != 0 {
        var e := Entry(InodeAt(d, off), d[off + 8..off + 8 + NameLenAt(d, off)]);
        assert Entries(d, off) == [e] + rest;
        assert ([e] + rest)[1..] == rest;
      }
    }
  }

  /** `g` is `d` with the record at `o` made unused: the header says
      inode 0 and the same length, and no byte outside the record
      changes. */
  predicate TombAt(d: seq<byte>, g: seq<byte>, o: nat)
  {
    o + 8 <= |d| == |g| && o + RecLenAt(d, o) <= |d| &&
    InodeAt(g, o) == 0 && RecLenAt(g, o) == RecLenAt(d, o) &&
    g[..o] == d[..o] && g[o + RecLenAt(d, o)..] == d[o + RecLenAt(d, o)..]
  }

  lemma DeletedTomb(d: seq<byte>, o: nat)
    requires o + 8 <= |d| && 8 <= RecLenAt(d, o) && o + RecLenAt(d, o) <= |d|
    ensures TombAt(d, Deleted(d, o), o)
  {
    var r := RecLenAt(d, o);
    var ts := Tombstone(r);
    var g := Deleted(d, o);
    SpliceAt(d, o, ts);
    TombstoneFields(r);
    assert forall i | 0 <= i < 6 :: g[o + i] == ts[i];
    assert g[..o] == d[..o];
    assert g[o + r..] == d[o + r..];
  }

  /** Bytes before the tombstone are unchanged. */
  lemma TombKeeps(d: seq<byte>, g: seq<byte>, o: nat, lo: nat, hi: nat)
    requires TombAt(d, g, o) && lo <= hi <= o
    ensures g[lo..hi] == d[lo..hi]
  {
    assert g[lo..hi] == g[..o][lo..hi];
    assert d[lo..hi] == d[..o][lo..hi];
  }

  /** Bytes after the tombstone are unchanged. */
  lemma TombAfter(d: seq<byte>, g: seq<byte>, o: nat)
    requires TombAt(d, g, o)
    ensures Agree(d, g, o + RecLenAt(d, o))
  {
    var n := o + RecLenAt(d, o);
    assert forall i | n <= i < |d| :: g[i] == g[n..][i - n] && d[i] == d[n..][i - n];
  }

  /** The header at `off` before the tombstone is unchanged. */
  lemma TombHeader(d: seq<byte>, g: seq<byte>, o: nat, off: nat)
    requires TombAt(d, g, o) && off + 8 <= o
    ensures InodeAt(g, off) == InodeAt(d, off) && RecLenAt(g, off) == RecLenAt(d, off)
    ensures NameLenAt(g, off) == NameLenAt(d, off)
  {
    TombKeeps(d, g, o, off, off + 8);
    assert forall i | off <= i < off + 8 :: g[i] == g[off..off + 8][i - off] && d[i] == d[off..off + 8][i - off];
  }

  /** The tombstone keeps the directory tiled. */
  lemma {:induction false} DeleteTiled(d: seq<byte>, g: seq<byte>, off: nat, t: nat, o: nat)
    requires off <= |d| < Two32 && Tiled(d, off) && Chain(d, off)
    requires FirstWith(d, off, t) == Some(o) && TombAt(d, g, o)
    ensures Tiled(g, off)
    decreases |d| - off
  {
    var next := off + RecLenAt(d, off);
    if off == o {
      TombAfter(d, g, o);
      TiledLocal(d, g, next);
    } else {
      TombHeader(d, g, o, off);
      DeleteTiled(d, g, next, t, o);
    }
  }

  /** The tombstone removes the first entry for `t` and no other. */
  lemma {:induction false} DeleteEntries(d: seq<byte>, g: seq<byte>, off: nat, t: nat, o: nat)
    requires off <= |d| < Two32 && Tiled(d, off) && Chain(d, off) && Named(d, off) && t != 0
    requires FirstWith(d, off, t) == Some(o) && TombAt(d, g, o)
    ensures (DeleteTiled(d, g, off, t, o); TiledChain(g, off);
      Entries(g, off) == RemoveFirst(Entries(d, off), t))
    decreases |d| - off
  {
    DeleteTiled(d, g, off, t, o);
    TiledChain(g, off);
    var next := off + RecLenAt(d, off);
    if off == o {
      TombAfter(d, g, o);
      TiledChain(d, next);
      EntriesLocal(d, g, next);
      DeleteHere(d, g, off, t);
    } else {
      TombHeader(d, g, o, off);
      DeleteTiled(d, g, next, t, o);
      TiledChain(g, next);
      DeleteEntries(d, g, next, t, o);
      if InodeAt(d, off) != 0 {
        TombKeeps(d, g, o, off + 8, off + 8 + NameLenAt(d, off));
      }
      DeleteLater(d, g, off, t);
    }
  }

  /** At the tombstone: the entry for `t` is gone and the rest follows. */
  lemma DeleteHere(d: seq<byte>, g: seq<byte>, off: nat, t: nat)
    requires off < |d| && Chain(d, off) && Named(d, off) && Chain(g, off) && Named(g, off)
    requires off + 8 <= |g| && InodeAt(d, off) == t != 0 && InodeAt(g, off) == 0
    requires RecLenAt(g, off) == RecLenAt(d, off)
    requires Entries(g, off + RecLenAt(d, off)) == Entries(d, off + RecLenAt(d, off))
    ensures Entries(g, off) == RemoveFirst(Entries(d, off), t)
  {
    var next := off + RecLenAt(d, off);
    EntriesStep(d, off);
    EntriesStep(g, off);
    var e := Entry(t, d[off + 8..off + 8 + NameLenAt(d, off)]);
    assert Entries(g, off) == Entries(g, next);
    assert Entries(d, off) == [e] + Entries(d, next);
    RemoveHead(e, Entries(d, next), t);
  }

  /** Before the tombstone: the record at `off` gives the same entry,
      and the rest is the rest with the entry for `t` removed. */
  lemma DeleteLater(d: seq<byte>, g: seq<byte>, off: nat, t: nat)
    requires off < |d| && Chain(d, off) && Named(d, off) && Chain(g, off) && Named(g, off)
    requires off + 8 <= |d| && off + 8 <= |g| && InodeAt(d, off) != t
    requires InodeAt(g, off) == InodeAt(d, off) && RecLenAt(g, off) == RecLenAt(d, off)
    requires NameLenAt(g, off) == NameLenAt(d, off)
    requires InodeAt(d, off) != 0 ==>
      off + 8 + NameLenAt(d, off) <= |d| &&
      g[off + 8..off + 8 + NameLenAt(d, off)] == d[off + 8..off + 8 + NameLenAt(d, off)]
    requires Entries(g, off + RecLenAt(d, off)) == RemoveFirst(Entries(d, off + RecLenAt(d, off)), t)
    ensures Entries(g, off) == RemoveFirst(Entries(d, off), t)
  {
    var next := off + RecLenAt(d, off);
    EntriesStep(d, off);
    EntriesStep(g, off);
    var rd, rg := Entries(d, next), Entries(g, next);
    if InodeAt(d, off) != 0 {
      var e := Entry(InodeAt(d, off), d[off + 8..off + 8 + NameLenAt(d, off)]);
      assert Entries(d, off) == [e] + rd;
      assert Entries(g, off) == [e] + rg;
      RemoveLater(e, rd, t);
    } else {
      assert Entries(d, off) == rd;
      assert Entries(g, off) == rg;
    }
  }

  lemma RemoveHead(e: Entry, rest: seq<Entry>, t: nat)
    requires e.inode == t
    ensures RemoveFirst([e] + rest, t) == rest
  {
    assert ([e] + rest)[1..] == rest;
  }

  lemma RemoveLater(e: Entry, rest: seq<Entry>, t: nat)
    requires e.inode != t
    ensures RemoveFirst([e] + rest, t) == [e] + RemoveFirst(rest, t)
  {
    assert ([e] + rest)[1..] == rest;
  }

  /** Tiling from `off` on also only looks at the bytes from `off` on. */
  lemma {:induction false} TiledLocal(a: seq<byte>, b: seq<byte>, off: nat)
    requires Agree(a, b, off) && Tiled(a, off)
    ensures Tiled(b, off)
    decreases |a| - off
  {
    if off < |a| {
      HeaderSame(a, b, off);
      TiledLocal(a, b, off + RecLenAt(a, off));
    }
  }

  /** The name an entry's callback sees: the stored bytes with a NUL
      after them, read as a C string. */
  function EntryName(e: Entry): (s: seq<byte>)
    ensures NoNul(s) && |s| <= |e.name|
  {
    assert (e.name + [NUL])[|e.name|] == NUL;
    Content(e.name + [NUL])
  }

  /** The index of the last entry whose name is `key`. */
  function LastMatch(es: seq<Entry>, key: seq<byte>): (r: Option<nat>)
    ensures r.Some? ==> r.value < |es| && EntryName(es[r.value]) == key
    ensures r.Some? ==> forall j | r.value < j < |es| :: EntryName(es[j]) != key
    ensures r.None? ==> forall j | 0 <= j < |es| :: EntryName(es[j]) != key
  {
    if |es| == 0 then None
    else
      var n := |es| - 1;
      if EntryName(es[n]) == key then Some(n)
      else
        var front := es[..n];
        assert forall j | 0 <= j < n :: front[j] == es[j];
        LastMatch(front, key)
  }

  /** `Node::find(name)`: the inode number of the last entry named
      `key`, 0 when none is. */
  function FindIn(es: seq<Entry>, key: seq<byte>): nat
  {
    match LastMatch(es, key)
    case None => 0
    case Some(i) => es[i].inode
  }

  /** Since used entries have nonzero numbers, 0 means exactly that no
      entry has the name, and any other result is the number of the
      last entry that has it. */
  lemma FindInMeaning(es: seq<Entry>, key: seq<byte>)
    requires forall i | 0 <= i < |es| :: es[i].inode != 0
    ensures FindIn(es, key) == 0 <==> forall j | 0 <= j < |es| :: EntryName(es[j]) != key
    ensures FindIn(es, key) != 0 ==>
      exists i | 0 <= i < |es| :: es[i].inode == FindIn(es, key) && EntryName(es[i]) == key &&
        forall j | i < j < |es| :: EntryName(es[j]) != key
  {
    match LastMatch(es, key)
    case None =>
    case Some(i) =>
      assert es[i].inode == FindIn(es, key);
  }

  /** A just-appended entry is what `find` returns for its name, even
      if an earlier entry has the same name. */
  lemma FindAppended(es: seq<Entry>, e: Entry)
    ensures FindIn(es + [e], EntryName(e)) == e.inode
  {
    assert (es + [e])[|es + [e]| - 1] == e;
  }

  /** Each step of `find`'s scan: the result for one more entry. */
  lemma FindStep(es: seq<Entry>, i: nat, key: seq<byte>)
    requires i < |es|
    ensures FindIn(es[..i + 1], key) == if EntryName(es[i]) == key then es[i].inode else FindIn(es[..i], key)
  {
    assert es[..i + 1][..i] == es[..i];
    assert es[..i + 1][i] == es[i];
  }

  /** The names `get_entry_names` copies, each followed by its NUL. */
  function NameList(es: seq<Entry>): (s: seq<byte>)
  {
    if |es| == 0 then []
    else NameList(es[..|es| - 1]) + EntryName(es[|es| - 1]) + [NUL]
  }

  /** What `get_entry_names` leaves in its buffer: the names and one
      more NUL for the end of the list. */
  function Names(es: seq<Entry>): seq<byte>
  {
    NameList(es) + [NUL]
  }

  /** The list holds one NUL per name and the final one, and ends in
      NUL. */
  lemma {:induction false} NamesCount(es: seq<Entry>)
    ensures Names(es)[|Names(es)| - 1] == NUL
    ensures Count(Names(es), NUL) == |es| + 1
  {
    NameListCount(es);
    CountAppend(NameList(es), [NUL]);
    assert Count([NUL], NUL) == Count([], NUL) + 1;
  }

  lemma {:induction false} NameListCount(es: seq<Entry>)
    ensures Count(NameList(es), NUL) == |es|
  {
    if |es| > 0 {
      var n := EntryName(es[|es| - 1]);
      NameListCount(es[..|es| - 1]);
      CountNoNul(n);
      CountAppend(NameList(es[..|es| - 1]) + n, [NUL]);
      CountAppend(NameList(es[..|es| - 1]), n);
      assert Count([NUL], NUL) == Count([], NUL) + 1;
    }
  }

  lemma {:induction false} CountNoNul(t: seq<byte>)
    requires NoNul(t)
    ensures Count(t, NUL) == 0
  {
    if |t| > 0 {
      CountNoNul(t[..|t| - 1]);
    }
  }

  lemma {:induction false} CountAppend(a: seq<byte>, b: seq<byte>)
    ensures Count(a + b, NUL) == Count(a, NUL) + Count(b, NUL)
    decreases |b|
  {
    if |b| > 0 {
      assert (a + b)[..|a + b| - 1] == a + b[..|b| - 1];
      CountAppend(a, b[..|b| - 1]);
    } else {
      assert a + b == a;
    }
  }

  /** The list for a prefix of the entries is no longer than the
      whole list. */
  lemma {:induction false} NameListGrows(es: seq<Entry>, i: nat)
    requires i <= |es|
    ensures |NameList(es[..i])| <= |NameList(es)|
    decreases |es| - i
  {
    if i < |es| {
      NamesStep(es, i);
      NameListGrows(es, i + 1);
    } else {
      assert es[..i] == es;
    }
  }

  /** Each step of `get_entry_names`: the list for one more entry. */
  lemma NamesStep(es: seq<Entry>, i: nat)
    requires i < |es|
    ensures NameList(es[..i + 1]) == NameList(es[..i]) + EntryName(es[i]) + [NUL]
  {
    assert es[..i + 1][..i] == es[..i];
  }

  /** `strEquals(fileName, curName, curNameLength)`: advances while the
      names agree and `fileName` has not ended; equal when exactly
      `curNameLength` characters agreed and `fileName` ends there. */
  method StrEquals(fileName: seq<byte>, curName: seq<byte>, curNameLength: byte) returns (r: bool)
    requires Terminated(fileName) && curNameLength <= |curName|
    ensures r <==> Content(fileName) == curName[..curNameLength]
  {
    var i := 0;
    while i < curNameLength && fileName[i] != NUL && fileName[i] == curName[i]
      invariant 0 <= i <= curNameLength && i <= Len(fileName)
      invariant fileName[..i] == curName[..i]
      decreases curNameLength - i
    {
      i := i + 1;
    }
    r := i == curNameLength && fileName[i] == NUL;
    if r {
      LenAt(fileName, i);
    }
  }
}
