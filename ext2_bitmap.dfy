/** The usage bitmaps of the ext2 driver, one block-sized bitmap per
    block group for inodes and one for blocks. Structure `k` of a group
    is bit `k % 8` of byte `k / 8`, counted from the most significant bit
    (stock ext2 counts from the least significant one). */
module Ext2Bitmap {
  import opened Bytes

  /** `1 << (7 - j)` for `j` from 0 to 7: the mask of bit `j`, `j` = 0
      being the most significant. */
  const Masks: seq<bv8> := [0x80, 0x40, 0x20, 0x10, 0x08, 0x04, 0x02, 0x01]

  function Mask(j: nat): bv8
    requires j < 8
  {
    Masks[j]
  }

  /** Bit `j` of a bitmap byte. */
  predicate Bit(b: bv8, j: nat)
    requires j < 8
  {
    b & Mask(j) != 0
  }

  /** `b |= 1 << (7 - j)`. */
  function WithBit(b: bv8, j: nat): bv8
    requires j < 8
  {
    b | Mask(j)
  }

  /** `b &= ~(1 << (7 - j))`. */
  function WithoutBit(b: bv8, j: nat): bv8
    requires j < 8
  {
    b & !Mask(j)
  }

  lemma WithBitBits(b: bv8, j: nat)
    requires j < 8
    ensures forall i | 0 <= i < 8 :: Bit(WithBit(b, j), i) == (i == j || Bit(b, i))
  {
  }

  lemma WithoutBitBits(b: bv8, j: nat)
    requires j < 8
    ensures forall i | 0 <= i < 8 :: Bit(WithoutBit(b, j), i) == (i != j && Bit(b, i))
  {
  }

  /** Clearing a bit just set gives back the byte it was set in. */
  lemma WithoutWithBit(b: bv8, j: nat)
    requires j < 8 && !Bit(b, j)
    ensures WithoutBit(WithBit(b, j), j) == b
  {
  }

  /** Structure `k` of a group is in use. */
  predicate Used(m: seq<bv8>, k: nat)
    requires k < 8 * |m|
  {
    Bit(m[k / 8], k % 8)
  }

  /** The bitmap with structure `k` marked in use. */
  function Mark(m: seq<bv8>, k: nat): (r: seq<bv8>)
    requires k < 8 * |m|
    ensures |r| == |m|
  {
    m[k / 8 := WithBit(m[k / 8], k % 8)]
  }

  /** The bitmap with structure `k` marked free. */
  function Unmark(m: seq<bv8>, k: nat): (r: seq<bv8>)
    requires k < 8 * |m|
    ensures |r| == |m|
  {
    m[k / 8 := WithoutBit(m[k / 8], k % 8)]
  }

  /** Marking changes the one structure and no other. */
  lemma MarkUsed(m: seq<bv8>, k: nat)
    requires k < 8 * |m|
    ensures forall i | 0 <= i < 8 * |m| :: Used(Mark(m, k), i) == (i == k || Used(m, i))
  {
    WithBitBits(m[k / 8], k % 8);
  }

  /** Unmarking frees the one structure and no other. */
  lemma UnmarkUsed(m: seq<bv8>, k: nat)
    requires k < 8 * |m|
    ensures forall i | 0 <= i < 8 * |m| :: Used(Unmark(m, k), i) == (i != k && Used(m, i))
  {
    WithoutBitBits(m[k / 8], k % 8);
  }

  /** Freeing a structure that was just marked restores the bitmap. */
  lemma UnmarkMark(m: seq<bv8>, k: nat)
    requires k < 8 * |m| && !Used(m, k)
    ensures Unmark(Mark(m, k), k) == m
  {
    WithoutWithBit(m[k / 8], k % 8);
  }

  /** The first free structure from `k` on among the `8 * bytes` a group
      scan looks at (none past the end of the bitmap, which a mounted
      file system's bitmaps never are). */
  function FirstZero(m: seq<bv8>, bytes: nat, k: nat): (r: Option<nat>)
    ensures r.Some? ==> k <= r.value < 8 * bytes && r.value < 8 * |m| && !Used(m, r.value)
    decreases 8 * bytes - k
  {
    if k >= 8 * bytes || k >= 8 * |m| then None
    else if !Used(m, k) then Some(k)
    else FirstZero(m, bytes, k + 1)
  }

  /** The scan finds a free structure, and every structure it passes
      over is in use; when it finds none, all of them are. */
  lemma {:induction false} FirstZeroMeaning(m: seq<bv8>, bytes: nat, k: nat)
    requires bytes <= |m|
    ensures var r := FirstZero(m, bytes, k);
      (r.Some? ==> !Used(m, r.value) && forall i | k <= i < r.value :: Used(m, i)) &&
      (r.None? ==> forall i | k <= i < 8 * bytes :: Used(m, i))
    decreases 8 * bytes - k
  {
    if k < 8 * bytes && Used(m, k) {
      FirstZeroMeaning(m, bytes, k + 1);
    }
  }

  /** A group and a structure inside it. */
  datatype Slot = Slot(group: nat, index: nat)

  predicate Fit(maps: seq<seq<bv8>>, bytes: nat)
  {
    forall h | 0 <= h < |maps| :: bytes <= |maps[h]|
  }

  /** The first group from `g` on that has a free structure, and that
      structure. */
  function FirstFree(maps: seq<seq<bv8>>, bytes: nat, g: nat): (r: Option<Slot>)
    ensures r.Some? ==> g <= r.value.group < |maps|
    ensures r.Some? ==> FirstZero(maps[r.value.group], bytes, 0) == Some(r.value.index)
    ensures r.Some? ==> forall h | g <= h < r.value.group :: FirstZero(maps[h], bytes, 0).None?
    ensures r.None? ==> forall h | g <= h < |maps| :: FirstZero(maps[h], bytes, 0).None?
    decreases |maps| - g
  {
    if g >= |maps| then None
    else match FirstZero(maps[g], bytes, 0)
      case Some(k) => Some(Slot(g, k))
      case None => FirstFree(maps, bytes, g + 1)
  }

  /** Groups with no free structure are passed over: the search from
      `s` finds what the search from `g` finds. */
  lemma {:induction false} FirstFreeSkip(maps: seq<seq<bv8>>, bytes: nat, s: nat, g: nat)
    requires Fit(maps, bytes) && s <= g <= |maps|
    requires forall h | s <= h < g :: FirstZero(maps[h], bytes, 0).None?
    ensures FirstFree(maps, bytes, s) == FirstFree(maps, bytes, g)
    decreases g - s
  {
    if s < g {
      FirstFreeSkip(maps, bytes, s + 1, g);
    }
  }

  /** The number `findAvailableStructure` counts up to a slot: one per
      bit scanned, from `start`. */
  function Number(start: nat, bytes: nat, s: Slot): nat
  {
    start + s.group * (8 * bytes) + s.index
  }

  /** The bitmaps after an allocation and the value returned. */
  datatype Allocation = Allocation(maps: seq<seq<bv8>>, result: int)

  /** `findAvailableStructure(start, maps, perGroup)`: the first free
      structure in scan order is marked and its number returned (as the
      `int` the `uint32_t` count becomes); -1 and no change when every
      scanned bit is set. */
  function Allocate(maps: seq<seq<bv8>>, start: nat, perGroup: nat): (a: Allocation)
    ensures |a.maps| == |maps|
    ensures forall h | 0 <= h < |maps| :: |a.maps[h]| == |maps[h]|
  {
    var bytes := perGroup / 8;
    match FirstFree(maps, bytes, 0)
    case None => Allocation(maps, -1)
    case Some(s) =>
      Allocation(maps[s.group := Mark(maps[s.group], s.index)], I32(U32(Number(start, bytes, s))))
  }

  /** ... and `freeStructure(number, maps, perGroup)`: structure
      `number % perGroup` of group `number / perGroup` is marked free. */
  function Free(maps: seq<seq<bv8>>, number: nat, perGroup: nat): (r: seq<seq<bv8>>)
    requires perGroup > 0 && number / perGroup < |maps| && Covers(maps, perGroup)
    ensures Alike(maps, r)
  {
    var g := number / perGroup;
    ByteInMap(number, perGroup, |maps[g]|);
    maps[g := Unmark(maps[g], number % perGroup)]
  }

  /** Freeing a number clears its own bit and leaves every other bit
      of every map as it was. */
  lemma FreeUsed(maps: seq<seq<bv8>>, number: nat, perGroup: nat)
    requires perGroup > 0 && number / perGroup < |maps| && Covers(maps, perGroup)
    ensures var r := Free(maps, number, perGroup);
      forall g, k | 0 <= g < |maps| && 0 <= k < 8 * |maps[g]| ::
        Used(r[g], k) == (Used(maps[g], k) && !(g == number / perGroup && k == number % perGroup))
  {
    var g := number / perGroup;
    ByteInMap(number, perGroup, |maps[g]|);
    UnmarkUsed(maps[g], number % perGroup);
  }

  /** Two sets of bitmaps with the same number of maps, each as long
      as its counterpart. */
  predicate Alike(a: seq<seq<bv8>>, b: seq<seq<bv8>>)
  {
    |a| == |b| && forall h | 0 <= h < |a| :: |a[h]| == |b[h]|
  }

  /** Every bitmap has a bit for each structure of its group. */
  predicate Covers(maps: seq<seq<bv8>>, perGroup: nat)
  {
    forall h | 0 <= h < |maps| :: perGroup <= 8 * |maps[h]|
  }

  /** The byte of a structure's bit lies inside a bitmap that has a bit
      for every structure of the group. */
  lemma ByteInMap(number: nat, perGroup: nat, len: nat)
    requires 0 < perGroup <= 8 * len
    ensures number % perGroup < 8 * len
  {
  }

  /** Scan order: group by group, and inside a group by structure. */
  predicate Before(g: nat, k: nat, s: Slot)
  {
    g < s.group || (g == s.group && k < s.index)
  }

  /** The allocation is first fit: when it fails every scanned structure
      is in use and nothing changes; when it succeeds the slot was free,
      every slot before it in scan order was in use, and the slot is the
      only structure whose state changes. */
  lemma AllocateFirstFit(maps: seq<seq<bv8>>, start: nat, perGroup: nat)
    requires Fit(maps, perGroup / 8)
    ensures var a, bytes := Allocate(maps, start, perGroup), perGroup / 8;
      match FirstFree(maps, bytes, 0)
      case None =>
        a == Allocation(maps, -1) &&
        forall g, k | 0 <= g < |maps| && 0 <= k < 8 * bytes :: Used(maps[g], k)
      case Some(s) =>
        a.result == I32(U32(Number(start, bytes, s))) &&
        s.index < 8 * bytes && !Used(maps[s.group], s.index) &&
        (forall g, k | 0 <= g < |maps| && 0 <= k < 8 * bytes && Before(g, k, s) :: Used(maps[g], k)) &&
        (forall g, k | 0 <= g < |maps| && 0 <= k < 8 * |maps[g]| ::
           Used(a.maps[g], k) == ((g == s.group && k == s.index) || Used(maps[g], k)))
  {
    var bytes := perGroup / 8;
    match FirstFree(maps, bytes, 0)
    case None =>
      forall g, k | 0 <= g < |maps| && 0 <= k < 8 * bytes ensures Used(maps[g], k) {
        FirstZeroMeaning(maps[g], bytes, 0);
        assert FirstZero(maps[g], bytes, 0).None?;
      }
    case Some(s) =>
      MarkUsed(maps[s.group], s.index);
      FirstZeroMeaning(maps[s.group], bytes, 0);
      forall g, k | 0 <= g < |maps| && 0 <= k < 8 * bytes && Before(g, k, s) ensures Used(maps[g], k) {
        FirstZeroMeaning(maps[g], bytes, 0);
        if g < s.group {
          assert FirstZero(maps[g], bytes, 0).None?;
        }
      }
  }

  /** The allocation fails exactly when every scanned bit is set. */
  lemma AllocateFails(maps: seq<seq<bv8>>, start: nat, perGroup: nat)
    requires Fit(maps, perGroup / 8)
    requires start + |maps| * perGroup < Two31
    ensures Allocate(maps, start, perGroup).result == -1 <==>
      forall g, k | 0 <= g < |maps| && 0 <= k < 8 * (perGroup / 8) :: Used(maps[g], k)
  {
    var bytes := perGroup / 8;
    AllocateFirstFit(maps, start, perGroup);
    match FirstFree(maps, bytes, 0)
    case None =>
    case Some(s) =>
      NumberBelow(start, perGroup, s, |maps|);
  }

  /** The number of a slot of a scanned group is below the count of all
      structures of the groups. */
  lemma NumberBelow(start: nat, perGroup: nat, s: Slot, groups: nat)
    requires s.group < groups && s.index < 8 * (perGroup / 8)
    ensures s.index < perGroup
    ensures Number(start, perGroup / 8, s) == start + s.group * perGroup + s.index
            || perGroup % 8 != 0
    ensures Number(start, perGroup / 8, s) < start + groups * perGroup
  {
    var w := 8 * (perGroup / 8);
    assert w <= perGroup;
    MulLe(s.group + 1, groups, w);
    MulLe(w, perGroup, groups);
    assert s.group * w + s.index < (s.group + 1) * w;
  }

  /** A number handed out that is at least `start` counts one of the
      scanned structures, so it lies below `start` plus the number of
      structures of all groups: an inode number `createNode` gets always
      has a group. */
  lemma AllocatedBelow(maps: seq<seq<bv8>>, start: nat, perGroup: nat)
    requires Fit(maps, perGroup / 8)
    ensures var r := Allocate(maps, start, perGroup).result;
      r >= start ==> r - start < |maps| * perGroup
  {
    var bytes := perGroup / 8;
    AllocateFirstFit(maps, start, perGroup);
    match FirstFree(maps, bytes, 0)
    case None =>
    case Some(s) =>
      NumberBelow(start, perGroup, s, |maps|);
      var x := Number(start, bytes, s);
      var r := Allocate(maps, start, perGroup).result;
      if r >= 0 {
        assert r == U32(x);
        assert U32(x) <= x;
      }
  }

  lemma MulLe(a: nat, b: nat, c: nat)
    requires a <= b
    ensures a * c <= b * c
  {
    assert b * c == a * c + (b - a) * c;
  }

  /** Freeing the number just handed out, taken back to the count that
      starts at 0 (`freeBlock(n)` for blocks, `freeInode(n)` passing
      `n - 1` for inodes), restores the bitmaps, when a group holds a
      whole number of bitmap bytes and the numbers fit in 31 bits. */
  lemma FreeAllocated(maps: seq<seq<bv8>>, start: nat, perGroup: nat)
    requires Fit(maps, perGroup / 8) && perGroup > 0 && perGroup % 8 == 0
    requires start + |maps| * perGroup < Two31
    requires Allocate(maps, start, perGroup).result != -1
    ensures var a := Allocate(maps, start, perGroup);
      a.result >= start &&
      (a.result - start) / perGroup < |a.maps| &&
      Covers(a.maps, perGroup) &&
      Free(a.maps, a.result - start, perGroup) == maps
  {
    var bytes := perGroup / 8;
    var a := Allocate(maps, start, perGroup);
    var s := FirstFree(maps, bytes, 0).value;
    NumberBelow(start, perGroup, s, |maps|);
    var n := s.group * perGroup + s.index;
    assert a.result - start == n;
    SlotOfNumber(s.group, s.index, perGroup);
    FirstZeroMeaning(maps[s.group], bytes, 0);
    UnmarkMark(maps[s.group], s.index);
    assert maps[s.group := maps[s.group]] == maps;
  }

  lemma SlotOfNumber(g: nat, k: nat, perGroup: nat)
    requires k < perGroup
    ensures (g * perGroup + k) / perGroup == g && (g * perGroup + k) % perGroup == k
  {
    var x := g * perGroup + k;
    var q, r := x / perGroup, x % perGroup;
    assert x == q * perGroup + r && 0 <= r < perGroup;
    if q > g {
      MulLe(g + 1, q, perGroup);
      assert false;
    } else if q < g {
      MulLe(q + 1, g, perGroup);
      assert false;
    }
  }

  /** Without frees in between, a second allocation hands out a larger
      number than the first, so allocated numbers never repeat. */
  lemma AllocateIncreasing(maps: seq<seq<bv8>>, start: nat, perGroup: nat)
    requires Fit(maps, perGroup / 8)
    requires start + |maps| * perGroup < Two31
    requires Allocate(maps, start, perGroup).result != -1
    requires Allocate(Allocate(maps, start, perGroup).maps, start, perGroup).result != -1
    ensures Allocate(Allocate(maps, start, perGroup).maps, start, perGroup).result
          > Allocate(maps, start, perGroup).result
  {
    var bytes := perGroup / 8;
    var a := Allocate(maps, start, perGroup);
    var s := FirstFree(maps, bytes, 0).value;
    var t := FirstFree(a.maps, bytes, 0).value;
    AllocateFirstFit(maps, start, perGroup);
    AllocateFirstFit(a.maps, start, perGroup);
    NumberBelow(start, perGroup, s, |maps|);
    NumberBelow(start, perGroup, t, |maps|);
    assert !Used(a.maps[t.group], t.index);
    assert !Used(maps[t.group], t.index);
    assert !Before(t.group, t.index, s);
    assert t != s;
    assert t.group > s.group || (t.group == s.group && t.index > s.index);
    SlotOrder(start, bytes, s, t);
  }

  lemma SlotOrder(start: nat, bytes: nat, s: Slot, t: Slot)
    requires s.index < 8 * bytes && t.index < 8 * bytes
    requires t.group > s.group || (t.group == s.group && t.index > s.index)
    ensures Number(start, bytes, t) > Number(start, bytes, s)
  {
    var w := 8 * bytes;
    if t.group > s.group {
      assert s.group * w + s.index < (s.group + 1) * w <= t.group * w;
    }
  }
}
