/** The disk under the file system, as the driver reaches it through
    `Ide`: a fixed array of bytes that reads whole ranges and writes part
    of a range per call. The `Ide` class itself is not part of this
    model; its reads are taken to give 0 past the end of the disk, and
    each write to store up to the end of the 512-byte sector it starts
    in (so never past the end of a file system block, which is a whole
    number of sectors), dropping bytes past the end of the disk. */
module Device {
  import opened Bytes

  const Sector: nat := 512

  /** `read_all(off, n, buffer)`: bytes [off, off + n) of the disk. */
  function Read(d: seq<byte>, off: nat, n: nat): (r: seq<byte>)
    ensures |r| == n
    ensures forall i | 0 <= i < n && off + i < |d| :: r[i] == d[off + i]
    ensures off + n <= |d| ==> r == d[off..off + n]
  {
    seq(n, i requires 0 <= i < n => if off + i < |d| then d[off + i] else 0)
  }

  /** How many of `n` bytes one `write(addr, buffer, n)` stores. */
  function WriteCount(addr: nat, n: nat): (k: nat)
    ensures k <= n && k <= Sector - addr % Sector
    ensures n > 0 ==> k >= 1
  {
    if n <= Sector - addr % Sector then n else Sector - addr % Sector
  }

  /** The disk once `src` is stored at `addr`. */
  function Store(d: seq<byte>, addr: nat, src: seq<byte>): (r: seq<byte>)
    ensures |r| == |d|
  {
    seq(|d|, j requires 0 <= j < |d| => if addr <= j < addr + |src| then src[j - addr] else d[j])
  }

  /** A store inside the disk holds the new bytes and keeps the rest. */
  lemma StoreInside(d: seq<byte>, addr: nat, src: seq<byte>)
    requires addr + |src| <= |d|
    ensures Store(d, addr, src)[addr..addr + |src|] == src
    ensures Store(d, addr, src) == Splice(d, addr, src)
  {
  }

  /** Two stores side by side are one store of both. */
  lemma StoreAdjacent(d: seq<byte>, addr: nat, a: seq<byte>, b: seq<byte>)
    ensures Store(Store(d, addr, a), addr + |a|, b) == Store(d, addr, a + b)
  {
    var l, r := Store(Store(d, addr, a), addr + |a|, b), Store(d, addr, a + b);
    forall j | 0 <= j < |d| ensures l[j] == r[j] {
      if addr <= j < addr + |a| {
        assert (a + b)[j - addr] == a[j - addr];
      } else if addr + |a| <= j < addr + |a| + |b| {
        assert (a + b)[j - addr] == b[j - addr - |a|];
      }
    }
  }

  /** `Ext2::write_all(off, buffer, n)`: device writes one after another,
      the offset advancing in a `uint32_t`, until all `n` bytes are out. */
  function Spread(d: seq<byte>, off: nat, src: seq<byte>): (r: seq<byte>)
    requires off < Two32
    ensures |r| == |d|
    decreases |src|
  {
    if |src| == 0 then d
    else
      var k := WriteCount(off, |src|);
      Spread(Store(d, off, src[..k]), U32(off + k), src[k..])
  }

  /** Below 4 GiB the writes add up to one store of the whole buffer. */
  lemma {:induction false} SpreadStores(d: seq<byte>, off: nat, src: seq<byte>)
    requires off + |src| < Two32
    ensures Spread(d, off, src) == Store(d, off, src)
    decreases |src|
  {
    if |src| > 0 {
      var k := WriteCount(off, |src|);
      SpreadStores(Store(d, off, src[..k]), off + k, src[k..]);
      StoreAdjacent(d, off, src[..k], src[k..]);
      assert src[..k] + src[k..] == src;
    }
  }

  /** Bytes written below 4 GiB and inside the disk read back. */
  lemma SpreadRead(d: seq<byte>, off: nat, src: seq<byte>)
    requires off + |src| <= |d| && off + |src| < Two32
    ensures Read(Spread(d, off, src), off, |src|) == src
  {
    SpreadStores(d, off, src);
    StoreInside(d, off, src);
  }

  class Disk {
    const data: array<byte>

    constructor (contents: seq<byte>)
      ensures data[..] == contents && fresh(data)
    {
      data := new byte[|contents|](i requires 0 <= i < |contents| => contents[i]);
    }

    /** `read_all(off, n, buffer)`. */
    method ReadAll(off: nat, n: nat) returns (r: seq<byte>)
      ensures r == Read(data[..], off, n)
    {
      r := seq(n, i requires 0 <= i < n reads data => if off + i < data.Length then data[off + i] else 0);
    }

    /** `write(addr, buffer, n)`: stores the first part of the buffer and
        returns how much it stored. */
    method Write(addr: nat, src: seq<byte>) returns (k: nat)
      modifies data
      ensures k == WriteCount(addr, |src|)
      ensures data[..] == Store(old(data[..]), addr, src[..k])
    {
      k := WriteCount(addr, |src|);
      forall j | 0 <= j < data.Length && addr <= j < addr + k {
        data[j] := src[j - addr];
      }
    }
  }
}
