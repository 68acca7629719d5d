/** The kernel's intrusive doubly-linked list `LinkedList<T>`: the
    elements carry their own `next` and `prev` links, and the list keeps
    the first element and a count. The ghost sequence `elems` is the
    list in order from `first`. */
module LinkedList {

  /** The link fields every list element type provides. */
  class Element {
    var next: Element?
    var prev: Element?

    /** A detached element, as the element types construct them. */
    constructor ()
      ensures next == null && prev == null
    {
      next := null;
      prev := null;
    }
  }

  /** Element `i` of `s`, or null past either end. */
  function Get(s: seq<Element>, i: int): (r: Element?)
    ensures r != null <==> 0 <= i < |s|
    ensures 0 <= i < |s| ==> r == s[i]
  {
    if 0 <= i < |s| then s[i] else null
  }

  predicate Distinct(s: seq<Element>) {
    forall i, j | 0 <= i < j < |s| :: s[i] != s[j]
  }

  class List {
    var first: Element?
    var size: nat
    ghost var elems: seq<Element>

    /** `first` is the head of `elems`, every element links to its
        neighbours in `elems` (null at the ends), and `size` counts them. */
    ghost predicate Valid()
      reads this, elems
    {
      size == |elems| && Distinct(elems) &&
      first == Get(elems, 0) &&
      (forall i | 0 <= i < |elems| :: elems[i].next == Get(elems, i + 1)) &&
      (forall i | 0 <= i < |elems| :: elems[i].prev == Get(elems, i - 1))
    }

    /** `LinkedList()`: empty. */
    constructor ()
      ensures Valid() && elems == []
    {
      first := null;
      size := 0;
      elems := [];
    }

    /** `add_first(e)`: `e`, which must be detached, becomes the head,
        followed by the old list. */
    method AddFirst(e: Element)
      requires Valid() && e !in elems && e.next == null && e.prev == null
      modifies this, e, first
      ensures Valid() && elems == [e] + old(elems)
    {
      if first != null {
        e.next := first;
        first.prev := e;
      }
      ghost var s := elems;
      ghost var head := first;
      first := e;
      size := size + 1;
      elems := [e] + s;
      InsertAt(s, 0, e, elems);
      forall j | 0 <= j < |elems|
        ensures elems[j].next == Get(elems, j + 1) && elems[j].prev == Get(elems, j - 1)
      {
        if j == 1 {
          assert elems[j] == head;
        } else if j > 1 {
          assert elems[j] == s[j - 1] && s[j - 1] != head;
        }
      }
    }

    /** `add_after(e, c)` with `c` the element at index `i`: `e`, which
        must be detached, comes right after `c` and right before the
        element that followed `c`. */
    method AddAfter(e: Element, c: Element, ghost i: nat)
      requires Valid() && i < |elems| && c == elems[i]
      requires e !in elems && e.next == null && e.prev == null
      modifies this, e, c, c.next
      ensures Valid() && elems == old(elems[..i + 1]) + [e] + old(elems[i + 1..])
    {
      ghost var s := elems;
      var next := c.next;
      c.next := e;
      e.prev := c;
      if next != null {
        next.prev := e;
        e.next := next;
      }
      size := size + 1;
      elems := s[..i + 1] + [e] + s[i + 1..];
      InsertAt(s, i + 1, e, elems);
      forall j | 0 <= j < |elems|
        ensures elems[j].next == Get(elems, j + 1) && elems[j].prev == Get(elems, j - 1)
      {
        if j < i {
          assert elems[j] == s[j] && s[j] != c;
          assert s[j] != next;
        } else if j == i {
          assert elems[j] == c && c != next;
        } else if j == i + 2 {
          assert elems[j] == next;
        } else if j > i + 2 {
          assert elems[j] == s[j - 1] && s[j - 1] != c;
          assert s[j - 1] != next;
        }
      }
    }

    /** `add_before(e, c)` with `c` the element at index `i`: `e`, which
        must be detached, comes right before `c`; when `c` was the head,
        `e` becomes `first`. */
    method AddBefore(e: Element, c: Element, ghost i: nat)
      requires Valid() && i < |elems| && c == elems[i]
      requires e !in elems && e.next == null && e.prev == null
      modifies this, e, c, c.prev
      ensures Valid() && elems == old(elems[..i]) + [e] + old(elems[i..])
      ensures i == 0 ==> first == e
    {
      ghost var s := elems;
      var prev := c.prev;
      c.prev := e;
      e.next := c;
      if prev != null {
        prev.next := e;
        e.prev := prev;
      } else {
        first := e;
      }
      size := size + 1;
      elems := s[..i] + [e] + s[i..];
      InsertAt(s, i, e, elems);
      assert i > 0 ==> prev == s[i - 1];
      forall j | 0 <= j < |elems|
        ensures elems[j].next == Get(elems, j + 1) && elems[j].prev == Get(elems, j - 1)
      {
        if j < i - 1 {
          assert elems[j] == s[j] && s[j] != c;
          assert s[j] != prev;
        } else if j == i - 1 {
          assert elems[j] == prev && prev != c;
        } else if j == i + 1 {
          assert elems[j] == c;
        } else if j > i + 1 {
          assert elems[j] == s[j - 1] && s[j - 1] != c;
          assert s[j - 1] != prev;
        }
      }
    }

    /** `remove(e)` with `e` the element at index `i`: its neighbours are
        linked to each other (or `first` moves on, or the list empties);
        `e` itself keeps its stale links. */
    method Remove(e: Element, ghost i: nat)
      requires Valid() && i < |elems| && e == elems[i]
      modifies this, e.next, e.prev
      ensures Valid() && elems == old(elems[..i]) + old(elems[i + 1..])
      ensures e.next == old(e.next) && e.prev == old(e.prev)
    {
      ghost var s := elems;
      var next := e.next;
      var prev := e.prev;
      if next == null && prev == null {
        first := null;
      } else if prev == null {
        first := next;
        next.prev := null;
      } else if next == null {
        prev.next := null;
      } else {
        prev.next := next;
        next.prev := prev;
      }
      size := size - 1;
      elems := s[..i] + s[i + 1..];
      RemoveAt(s, i, elems);
      forall j | 0 <= j < |elems|
        ensures elems[j].next == Get(elems, j + 1) && elems[j].prev == Get(elems, j - 1)
      {
        if j < i - 1 {
          assert elems[j] == s[j] && s[j] != prev;
          assert s[j] != next;
        } else if j == i - 1 {
          assert elems[j] == prev && prev != next;
        } else if j == i {
          assert elems[j] == next;
        } else {
          assert elems[j] == s[j + 1] && s[j + 1] != prev;
          assert s[j + 1] != next;
        }
      }
    }

    /** `get_first`. */
    method GetFirst() returns (r: Element?)
      requires Valid()
      ensures r == Get(elems, 0)
      ensures r == null <==> elems == []
    {
      return first;
    }

    /** `get_size`: the number of elements. */
    method GetSize() returns (r: nat)
      requires Valid()
      ensures r == |elems|
    {
      return size;
    }
  }

  /** Inserting at `k`: the neighbours of every element of the new
      sequence, in terms of the old one. */
  lemma InsertAt(s: seq<Element>, k: nat, e: Element, t: seq<Element>)
    requires k <= |s| && t == s[..k] + [e] + s[k..]
    ensures |t| == |s| + 1 && t[k] == e
    ensures forall j | 0 <= j < k :: t[j] == s[j]
    ensures forall j | k < j < |t| :: t[j] == s[j - 1]
    ensures Distinct(s) && e !in s ==> Distinct(t)
  {
  }

  /** Removing at `k`: every element of the new sequence in terms of
      the old one. */
  lemma RemoveAt(s: seq<Element>, k: nat, t: seq<Element>)
    requires k < |s| && t == s[..k] + s[k + 1..]
    ensures |t| + 1 == |s|
    ensures forall j | 0 <= j < k :: t[j] == s[j]
    ensures forall j | k <= j < |t| :: t[j] == s[j + 1]
    ensures Distinct(s) ==> Distinct(t) && s[k] !in t
  {
  }
}
