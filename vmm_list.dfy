/** The per-process list of virtual-memory regions `VMMLinkedList`: a
    singly-linked list of regions kept in address order, which hands out
    new regions first-fit in the gaps between existing ones. The ghost
    sequence `elems` is the list in order from `first`. */
module VmmList {
  import opened Bytes

  /** The page-frame size the kernel uses for the APIC pages. */
  const FrameSize: nat := 4096

  /** The start address of the dummy region that heads every list. */
  const DummyStart: nat := 0x7FFF_FFFF

  /** A region as a value: its start, its size, the file it maps (0 for
      none) and the offset in that file. */
  datatype Region = Region(start: nat, size: nat, inode: nat, offset: nat)

  function End(r: Region): nat {
    r.start + r.size
  }

  /** A `VMMNode`; only its link changes after construction. */
  class Node {
    const start: nat
    const size: nat
    const inode: nat
    const offset: nat
    var next: Node?

    constructor (start: nat, size: nat, inode: nat, offset: nat)
      ensures this.start == start && this.size == size
      ensures this.inode == inode && this.offset == offset && next == null
    {
      this.start := start;
      this.size := size;
      this.inode := inode;
      this.offset := offset;
      next := null;
    }
  }

  function Get(s: seq<Node>, i: int): (r: Node?)
    ensures r != null <==> 0 <= i < |s|
    ensures 0 <= i < |s| ==> r == s[i]
  {
    if 0 <= i < |s| then s[i] else null
  }

  /** Element `i` of `s`; the term that distinctness is stated on. */
  function At(s: seq<Node>, i: nat): Node
    requires i < |s|
  {
    s[i]
  }

  /** No node occurs twice. */
  predicate Distinct(s: seq<Node>) {
    forall i, j {:trigger At(s, i), At(s, j)} | 0 <= i < j < |s| :: At(s, i) != At(s, j)
  }

  /** The regions the nodes stand for, in order. */
  function RegionsOf(s: seq<Node>): (rs: seq<Region>)
    ensures |rs| == |s|
    ensures forall i | 0 <= i < |s| :: rs[i] == Region(s[i].start, s[i].size, s[i].inode, s[i].offset)
  {
    seq(|s|, i requires 0 <= i < |s| => Region(s[i].start, s[i].size, s[i].inode, s[i].offset))
  }

  /** `inRange(lo, va, sz)`, with the end `lo + sz` computed in 32 bits. */
  predicate InRange(lo: nat, va: nat, sz: nat) {
    va >= lo && va < U32(lo + sz)
  }

  /** For a region that ends below 4 GiB the test is the half-open
      interval `[lo, lo + sz)`. */
  lemma InRangeHalfOpen(lo: nat, va: nat, sz: nat)
    requires lo + sz < Two32
    ensures InRange(lo, va, sz) <==> lo <= va < lo + sz
  {
  }

  /** Regions in increasing address order, each ending at or before the
      start of the next one: no two of them overlap. */
  predicate Sorted(rs: seq<Region>) {
    forall i | 0 <= i < |rs| - 1 :: End(rs[i]) <= rs[i + 1].start
  }

  /** Whether a region of `sz` bytes placed at the end of region `k`
      stays clear of region `k + 1` (always, after the last region). */
  predicate Fits(rs: seq<Region>, sz: nat, k: nat)
    requires k < |rs|
  {
    k + 1 == |rs| || End(rs[k]) + sz <= rs[k + 1].start
  }

  /** The first region at or after `k` after which `sz` bytes fit. */
  function FitFrom(rs: seq<Region>, sz: nat, k: nat): (r: nat)
    requires k < |rs|
    ensures k <= r < |rs| && Fits(rs, sz, r)
    ensures forall j | k <= j < r :: !Fits(rs, sz, j)
    decreases |rs| - k
  {
    if Fits(rs, sz, k) then k else FitFrom(rs, sz, k + 1)
  }

  /** The list once `addNode(sz, inode, offset)` has inserted its new
      region, starting where region `FitFrom(rs, sz, 0)` ends, right
      after that region. */
  function Added(rs: seq<Region>, sz: nat, inode: nat, offset: nat): seq<Region>
    requires |rs| >= 1
  {
    var k := FitFrom(rs, sz, 0);
    rs[..k + 1] + [Region(End(rs[k]), sz, inode, offset)] + rs[k + 1..]
  }

  /** Adding a region keeps a sorted list sorted: the new region lies in
      the first gap large enough for it. */
  lemma AddedSorted(rs: seq<Region>, sz: nat, inode: nat, offset: nat)
    requires |rs| >= 1 && Sorted(rs)
    ensures Sorted(Added(rs, sz, inode, offset))
  {
    var k := FitFrom(rs, sz, 0);
    var t := Added(rs, sz, inode, offset);
    forall i | 0 <= i < |t| - 1 ensures End(t[i]) <= t[i + 1].start {
      if i < k {
        assert t[i] == rs[i] && t[i + 1] == rs[i + 1];
      } else if i == k {
        assert t[i] == rs[k];
      } else if i == k + 1 {
        assert t[i + 1] == rs[k + 1];
      } else {
        assert t[i] == rs[i - 1] && t[i + 1] == rs[i];
      }
    }
  }

  /** Adding a region keeps every old region, in the same order, with
      the new one right after the region where the search stopped. */
  lemma AddedKeepsOrder(rs: seq<Region>, sz: nat, inode: nat, offset: nat)
    requires |rs| >= 1
    ensures var k := FitFrom(rs, sz, 0); var t := Added(rs, sz, inode, offset);
      t[k + 1] == Region(End(rs[k]), sz, inode, offset) && t[..k + 1] + t[k + 2..] == rs
  {
    var k := FitFrom(rs, sz, 0);
    var t := Added(rs, sz, inode, offset);
    assert t[..k + 1] == rs[..k + 1];
    assert t[k + 2..] == rs[k + 1..];
  }

  /** The test in the walk of `addNode` as the source evaluates it: the
      sum `end + sz` is a 32-bit value and wraps. */
  predicate FitsAsWritten(rs: seq<Region>, sz: nat, k: nat)
    requires k < |rs|
  {
    k + 1 == |rs| || U32(End(rs[k]) + sz) <= rs[k + 1].start
  }

  /** The region where the walk of `addNode` stops, as written. */
  function FitFromAsWritten(rs: seq<Region>, sz: nat, k: nat): (r: nat)
    requires k < |rs|
    ensures k <= r < |rs| && FitsAsWritten(rs, sz, r)
    ensures forall j | k <= j < r :: !FitsAsWritten(rs, sz, j)
    decreases |rs| - k
  {
    if FitsAsWritten(rs, sz, k) then k else FitFromAsWritten(rs, sz, k + 1)
  }

  /** As long as no sum reaches 4 GiB, the walk as written stops where
      the intended one does. */
  lemma {:induction false} AsWrittenAgrees(rs: seq<Region>, sz: nat, k: nat)
    requires k < |rs| && forall j | 0 <= j < |rs| :: End(rs[j]) + sz < Two32
    ensures FitFromAsWritten(rs, sz, k) == FitFrom(rs, sz, k)
    decreases |rs| - k
  {
    if !Fits(rs, sz, k) {
      AsWrittenAgrees(rs, sz, k + 1);
    }
  }

  /** A fresh list with the usual APIC addresses and a 2 GiB request:
      the wrapped sum is 0, so the walk as written stops at the dummy
      region and the new region `[0x8000_0000, 0x1_0000_0000)` covers
      both APIC pages. */
  lemma WrapOverlaps()
    ensures var rs := Initial(0xFEC0_0000, 0xFEE0_0000);
      Sorted(rs) && FitFromAsWritten(rs, 0x8000_0000, 0) == 0 &&
      End(rs[0]) + 0x8000_0000 > rs[1].start && FitFrom(rs, 0x8000_0000, 0) == 2
  {
    var rs := Initial(0xFEC0_0000, 0xFEE0_0000);
    assert FitsAsWritten(rs, 0x8000_0000, 0);
    assert !Fits(rs, 0x8000_0000, 0) && !Fits(rs, 0x8000_0000, 1);
  }

  /** The index of the first region containing `va`, or the length of
      the list if none does. */
  function Containing(rs: seq<Region>, va: nat): (k: nat)
    ensures k <= |rs|
    ensures k < |rs| ==> InRange(rs[k].start, va, rs[k].size)
    ensures forall j | 0 <= j < k :: !InRange(rs[j].start, va, rs[j].size)
  {
    if |rs| == 0 then 0
    else if InRange(rs[0].start, va, rs[0].size) then 0
    else 1 + Containing(rs[1..], va)
  }

  /** The index of the first region starting at `va`, or the length of
      the list if none does. */
  function StartingAt(rs: seq<Region>, va: nat): (k: nat)
    ensures k <= |rs|
    ensures k < |rs| ==> rs[k].start == va
    ensures forall j | 0 <= j < k :: rs[j].start != va
  {
    if |rs| == 0 then 0
    else if rs[0].start == va then 0
    else 1 + StartingAt(rs[1..], va)
  }

  /** The search over the regions finds the first node starting at
      `va`, which exists. */
  lemma StartingAtFound(s: seq<Node>, va: nat)
    requires exists i | 0 <= i < |s| :: s[i].start == va
    ensures var k := StartingAt(RegionsOf(s), va);
      k < |s| && s[k].start == va && forall j | 0 <= j < k :: s[j].start != va
  {
    var rs := RegionsOf(s);
    var i :| 0 <= i < |s| && s[i].start == va;
    assert rs[i].start == va;
    var k := StartingAt(rs, va);
    forall j | 0 <= j < k ensures s[j].start != va {
      assert rs[j].start != va;
    }
  }

  /** The regions of a fresh list: the dummy region just below 2 GiB,
      then the I/O APIC page, then the local APIC page. */
  function Initial(ioApic: nat, localApic: nat): seq<Region> {
    [Region(DummyStart, 1, 0, 0), Region(ioApic, FrameSize, 0, 0), Region(localApic, FrameSize, 0, 0)]
  }

  /** A fresh list is sorted when the APIC pages lie above 2 GiB, in
      order and apart. */
  lemma InitialSorted(ioApic: nat, localApic: nat)
    requires DummyStart + 1 <= ioApic && ioApic + FrameSize <= localApic
    ensures Sorted(Initial(ioApic, localApic))
  {
  }

  class List {
    var first: Node?
    ghost var elems: seq<Node>

    ghost predicate Valid()
      reads this, elems
    {
      Distinct(elems) && first == Get(elems, 0) &&
      forall i | 0 <= i < |elems| :: elems[i].next == Get(elems, i + 1)
    }

    /** `VMMLinkedList(ioAPIC, localAPIC, pd)`. */
    constructor (ioApic: nat, localApic: nat)
      ensures Valid() && RegionsOf(elems) == Initial(ioApic, localApic)
    {
      var dummy := new Node(DummyStart, 1, 0, 0);
      var io := new Node(ioApic, FrameSize, 0, 0);
      var local := new Node(localApic, FrameSize, 0, 0);
      dummy.next := io;
      io.next := local;
      first := dummy;
      elems := [dummy, io, local];
    }

    /** `addNode(sz, inode, offset)`: walks from the head past every
        region after which `sz` bytes would run into the next one, and
        links the new region in after the region where it stopped. */
    method AddNode(sz: nat, inode: nat, offset: nat) returns (added: Node)
      requires Valid() && |elems| >= 1
      modifies this, elems
      ensures Valid() && RegionsOf(elems) == Added(RegionsOf(old(elems)), sz, inode, offset)
      ensures fresh(added) && added in elems
    {
      ghost var s := elems;
      var cur, k := FindFit(sz);
      added := new Node(cur.start + cur.size, sz, inode, offset);
      LinkAfter(cur, added, k);
      AddedIs(s, k, added, elems, sz, inode, offset);
    }

    /** Links the detached node `e` in after node `k`. */
    method LinkAfter(cur: Node, e: Node, ghost k: nat)
      requires Valid() && k < |elems| && cur == elems[k]
      requires e !in elems && e.next == null
      modifies this, cur, e
      ensures Valid() && elems == old(elems[..k + 1]) + [e] + old(elems[k + 1..])
    {
      ghost var s := elems;
      ghost var t := s[..k + 1] + [e] + s[k + 1..];
      InsertAt(s, k + 1, e, t);
      var after := cur.next;
      e.next := after;
      cur.next := e;
      elems := t;
      forall j | 0 <= j < |t| ensures t[j].next == Get(t, j + 1) {
        if j < k {
          assert t[j] == s[j] && At(s, j) != At(s, k);
        } else if j > k + 1 {
          assert t[j] == s[j - 1] && At(s, k) != At(s, j - 1);
        }
      }
    }

    /** The walk of `addNode`: the region after which `sz` bytes fit first. */
    method FindFit(sz: nat) returns (cur: Node, ghost k: nat)
      requires Valid() && |elems| >= 1
      ensures k == FitFrom(RegionsOf(elems), sz, 0) && cur == elems[k]
    {
      ghost var s := elems;
      ghost var rs := RegionsOf(s);
      cur := first;
      k := 0;
      while cur.next != null && cur.start + cur.size + sz > cur.next.start
        invariant k < |s| && cur == s[k]
        invariant FitFrom(rs, sz, k) == FitFrom(rs, sz, 0)
        decreases |s| - k
      {
        assert cur.next == Get(s, k + 1);
        cur := cur.next;
        k := k + 1;
      }
      assert cur.next == Get(s, k + 1);
    }

    /** The walk of `removeNode` past the head: the node at `target`, the
        first one starting at `va`, and the node before it. */
    method FindStart(va: nat, ghost target: nat) returns (trailer: Node, cur: Node, ghost k: nat)
      requires Valid() && 1 <= target < |elems| && elems[target].start == va
      requires forall j | 1 <= j < target :: elems[j].start != va
      ensures k == target && trailer == elems[k - 1] && cur == elems[k]
    {
      ghost var s := elems;
      trailer := first;
      var c := first.next;
      k := 1;
      while c != null && c.start != va
        invariant 1 <= k <= target && trailer == s[k - 1] && c == Get(s, k)
        decreases |s| - k
      {
        assert c.next == Get(s, k + 1);
        assert trailer.next == Get(s, k);
        c := c.next;
        trailer := trailer.next;
        k := k + 1;
      }
      cur := c;
    }

    /** `getNode(va)`: the first node whose range contains `va`, or null. */
    method GetNode(va: nat) returns (r: Node?)
      requires Valid()
      ensures r == Get(elems, Containing(RegionsOf(elems), va))
    {
      ghost var rs := RegionsOf(elems);
      r := first;
      ghost var k := 0;
      while r != null && !InRange(r.start, va, r.size)
        invariant k <= |elems| && r == Get(elems, k)
        invariant Containing(rs, va) >= k
        decreases |elems| - k
      {
        r := r.next;
        k := k + 1;
      }
      ContainingIs(rs, va, k);
    }

    /** `removeNode(va)`: unlinks the first node starting at `va`, which
        must exist (the source follows a null pointer otherwise). */
    method RemoveNode(va: nat)
      requires Valid() && exists i | 0 <= i < |elems| :: elems[i].start == va
      modifies this, elems
      ensures Valid()
      ensures var k := StartingAt(RegionsOf(old(elems)), va);
        elems == old(elems)[..k] + old(elems)[k + 1..] &&
        RegionsOf(elems) == RegionsOf(old(elems))[..k] + RegionsOf(old(elems))[k + 1..]
    {
      ghost var s := elems;
      ghost var target := StartingAt(RegionsOf(s), va);
      StartingAtFound(s, va);
      if first.start == va {
        Unlink(null, first, 0);
      } else {
        var trailer, cur, k := FindStart(va, target);
        Unlink(trailer, cur, k);
      }
      assert elems == s[..target] + s[target + 1..];
      RegionsRemove(s, target, elems);
    }

    /** Unlinks node `k`, given the node before it (null for the head). */
    method Unlink(trailer: Node?, cur: Node, ghost k: nat)
      requires Valid() && k < |elems| && cur == elems[k] && trailer == Get(elems, k - 1)
      modifies this, trailer
      ensures Valid() && elems == old(elems[..k]) + old(elems[k + 1..])
    {
      ghost var s := elems;
      ghost var t := s[..k] + s[k + 1..];
      RemoveAt(s, k, t);
      var after := cur.next;
      if trailer == null {
        first := after;
      } else {
        trailer.next := after;
      }
      elems := t;
      forall j | 0 <= j < |t| ensures t[j].next == Get(t, j + 1) {
        if j < k - 1 {
          assert t[j] == s[j] && At(s, j) != At(s, k - 1);
        } else if j == k - 1 {
          assert t[j] == trailer;
        } else {
          assert t[j] == s[j + 1];
          if k > 0 {
            assert At(s, k - 1) != At(s, j + 1);
          }
        }
      }
    }
  }

  /** A scan that stopped at `k` because region `k` contains `va` or
      the list ended there found the first containing region. */
  lemma ContainingIs(rs: seq<Region>, va: nat, k: nat)
    requires k <= Containing(rs, va)
    requires k == |rs| || InRange(rs[k].start, va, rs[k].size)
    ensures k == Containing(rs, va)
  {
  }

  /** The regions of a sequence with a node inserted at `k`. */
  lemma RegionsInsert(s: seq<Node>, k: nat, e: Node, t: seq<Node>)
    requires k <= |s| && t == s[..k] + [e] + s[k..]
    ensures RegionsOf(t) == RegionsOf(s)[..k] + [Region(e.start, e.size, e.inode, e.offset)] + RegionsOf(s)[k..]
  {
  }

  /** The regions once the node `e` for a new region is inserted after
      the node `k` where the first-fit search stopped. */
  lemma AddedIs(s: seq<Node>, k: nat, e: Node, t: seq<Node>, sz: nat, inode: nat, offset: nat)
    requires |s| >= 1 && k == FitFrom(RegionsOf(s), sz, 0)
    requires t == s[..k + 1] + [e] + s[k + 1..]
    requires e.start == s[k].start + s[k].size && e.size == sz && e.inode == inode && e.offset == offset
    ensures RegionsOf(t) == Added(RegionsOf(s), sz, inode, offset) && e in t
  {
    RegionsInsert(s, k + 1, e, t);
    assert t[k + 1] == e;
  }

  /** The regions of a sequence with the node at `k` removed. */
  lemma RegionsRemove(s: seq<Node>, k: nat, t: seq<Node>)
    requires k < |s| && t == s[..k] + s[k + 1..]
    ensures RegionsOf(t) == RegionsOf(s)[..k] + RegionsOf(s)[k + 1..]
  {
  }

  /** Inserting at `k`: every element of the new sequence in terms of
      the old one. */
  lemma InsertAt(s: seq<Node>, k: nat, e: Node, t: seq<Node>)
    requires k <= |s| && t == s[..k] + [e] + s[k..]
    ensures |t| == |s| + 1 && t[k] == e
    ensures forall j | 0 <= j < k :: t[j] == s[j]
    ensures forall j | k < j < |t| :: t[j] == s[j - 1]
    ensures Distinct(s) && e !in s ==> Distinct(t)
  {
    if Distinct(s) && e !in s {
      forall i, j | 0 <= i < j < |t| ensures At(t, i) != At(t, j) {
        if j < k {
          assert At(s, i) != At(s, j);
        } else if j == k {
          assert t[i] == s[i];
        } else if i < k {
          assert At(s, i) != At(s, j - 1);
        } else if i == k {
          assert t[j] == s[j - 1];
        } else {
          assert At(s, i - 1) != At(s, j - 1);
        }
      }
    }
  }

  /** Removing at `k`: every element of the new sequence in terms of
      the old one. */
  lemma RemoveAt(s: seq<Node>, k: nat, t: seq<Node>)
    requires k < |s| && t == s[..k] + s[k + 1..]
    ensures |t| + 1 == |s|
    ensures forall j | 0 <= j < k :: t[j] == s[j]
    ensures forall j | k <= j < |t| :: t[j] == s[j + 1]
    ensures Distinct(s) ==> Distinct(t)
  {
    if Distinct(s) {
      forall i, j | 0 <= i < j < |t| ensures At(t, i) != At(t, j) {
        if j < k {
          assert At(s, i) != At(s, j);
        } else if i < k {
          assert At(s, i) != At(s, j + 1);
        } else {
          assert At(s, i + 1) != At(s, j + 1);
        }
      }
    }
  }
}
