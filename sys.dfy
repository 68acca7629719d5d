/** The per-process tables behind the system calls: ten open-file
    slots (descriptors 0-9), ten child slots (ids 10-19) and ten
    semaphore slots (ids 20-29), each taken lowest-free-first; the check
    that a user buffer stays out of kernel memory; and the walk of an
    absolute path one component at a time. The file system's own
    lookup, the node a path resolves to and a node's size are
    parameters. */
module Sys {
  import opened Bytes
  import opened CString
  import opened UserFiles
  import Ext2Layout
  import Ext2Node
  import Ext2Bitmap
  import Ext2Dir
  import Ext2Tree
  import FileSystem

  const Slots: nat := 10
  const ChildBase: nat := 10
  const SemBase: nat := 20
  const PageSize: nat := 4096

  /** `PhysMem::framedown`: the start of the page holding `a`. */
  function FrameDown(a: nat): nat {
    a - a % PageSize
  }

  /** `is_user(start, nbytes)` as written: the end `start + nbytes` is a
      32-bit sum and wraps. */
  predicate IsUserAsWritten(start: nat, n: nat, ioApic: nat, localApic: nat) {
    var page := FrameDown(start);
    var end := U32(start + n);
    !(page < 0x8000_0000 || page == ioApic || page == localApic) &&
    !(ioApic >= start && ioApic < end) &&
    !(localApic >= start && localApic < end)
  }

  /** `is_user` as intended: the end is not cut to 32 bits, so a buffer
      that runs past 4 GiB, and would wrap around into the kernel's low
      memory, is refused, and so is one whose end is exactly 4 GiB and
      that covers an APIC page. */
  predicate IsUser(start: nat, n: nat, ioApic: nat, localApic: nat) {
    var page := FrameDown(start);
    start + n <= Two32 &&
    !(page < 0x8000_0000 || page == ioApic || page == localApic) &&
    !(ioApic >= start && ioApic < start + n) &&
    !(localApic >= start && localApic < start + n)
  }

  /** Both agree on every buffer that ends below 4 GiB. */
  lemma IsUserAgrees(start: nat, n: nat, ioApic: nat, localApic: nat)
    requires start + n < Two32
    ensures IsUser(start, n, ioApic, localApic) <==> IsUserAsWritten(start, n, ioApic, localApic)
  {
  }

  /** A buffer `is_user` accepts lies wholly in the upper half of the
      address space and misses both (page-aligned) APIC pages. */
  lemma IsUserSafe(start: nat, n: nat, ioApic: nat, localApic: nat, a: nat)
    requires start < Two32 && ioApic % PageSize == 0 && localApic % PageSize == 0
    requires IsUser(start, n, ioApic, localApic) && start <= a < start + n
    ensures 0x8000_0000 <= a < Two32
    ensures !(ioApic <= a < ioApic + PageSize) && !(localApic <= a < localApic + PageSize)
  {
    ApicMissed(start, n, ioApic, a);
    ApicMissed(start, n, localApic, a);
  }

  /** One APIC page is missed by an accepted buffer. */
  lemma ApicMissed(start: nat, n: nat, apic: nat, a: nat)
    requires apic % PageSize == 0 && start <= a < start + n
    requires FrameDown(start) != apic && !(apic >= start && apic < start + n)
    ensures !(apic <= a < apic + PageSize)
  {
  }

  /** A buffer that starts in the last user page and wraps around past
      4 GiB, which the check as written accepts. */
  lemma IsUserWraps()
    ensures IsUserAsWritten(0xFFFF_F000, 0x8000_1000, 0xFEC0_0000, 0xFEE0_0000)
    ensures U32(0xFFFF_F000 + 0x1000) == 0 < 0x8000_0000
    ensures !IsUser(0xFFFF_F000, 0x8000_1000, 0xFEC0_0000, 0xFEE0_0000)
  {
  }

  /** Where `close(id)` goes, as written: the file table for ids 0-9,
      the child table for every other id below 20 (negative ones
      included), the semaphore table for ids 20-29. */
  datatype Slot = FileSlot(index: int) | ChildSlot(index: int) | SemSlot(index: int) | NoSlot

  function CloseSlotAsWritten(id: int): Slot {
    if 0 <= id < 10 then FileSlot(id)
    else if id < 20 then ChildSlot(id - ChildBase)
    else if id < 30 then SemSlot(id - SemBase)
    else NoSlot
  }

  /** A negative id reaches the child table at a negative index. */
  lemma CloseNegativeId()
    ensures CloseSlotAsWritten(-1) == ChildSlot(-11)
  {
  }

  /** `close(id)` as intended: negative ids are refused like ids past 29. */
  function CloseSlot(id: int): (s: Slot)
    ensures s.FileSlot? || s.ChildSlot? || s.SemSlot? ==> 0 <= s.index < Slots
    ensures s.FileSlot? <==> 0 <= id < 10
    ensures s.ChildSlot? <==> 10 <= id < 20
    ensures s.SemSlot? <==> 20 <= id < 30
  {
    if id < 0 then NoSlot else CloseSlotAsWritten(id)
  }

  /** The index of the lowest free slot, or the length if all are taken. */
  function FirstFree<T(==)>(s: seq<T>, free: T): (k: nat)
    ensures k <= |s| && (k < |s| ==> s[k] == free)
    ensures forall j | 0 <= j < k :: s[j] != free
  {
    if |s| == 0 then 0
    else if s[0] == free then 0
    else 1 + FirstFree(s[1..], free)
  }

  /** The lowest-free-slot search of `fork`, `sem`, `open` and `opendir`. */
  method LowestFree<T(==)>(a: array<T>, free: T) returns (k: nat)
    ensures k == FirstFree(a[..], free)
  {
    k := 0;
    while k < a.Length && a[k] != free
      invariant k <= a.Length && FirstFree(a[..], free) == k + FirstFree(a[k..], free)
    {
      assert a[k..][1..] == a[k + 1..];
      k := k + 1;
    }
  }

  /** Where a descriptor search stops, and the slots its loop test read
      on the way, in order. */
  datatype Scan = Scan(stop: nat, read: seq<nat>)

  /** The descriptor search of `open` and `opendir` as written, from
      slot `i`: the loop test reads slot `i` before it checks `i < 10`,
      so slot `|s|` (the word past the table, `past`) is read too. */
  function OpenSlotAsWritten<T(==)>(s: seq<T>, free: T, past: T, i: nat): (r: Scan)
    requires i <= |s|
    decreases |s| - i
  {
    var slot := if i < |s| then s[i] else past;
    if slot != free && i < |s| then
      var rest := OpenSlotAsWritten(s, free, past, i + 1);
      Scan(rest.stop, [i] + rest.read)
    else Scan(i, [i])
  }

  /** The search as written stops where the bounded search does, at the
      lowest free slot or at `|s|`, whatever the word past the table
      holds; and the slots it reads are exactly 0 to that stop. */
  lemma {:induction false} OpenSlotAgrees<T>(s: seq<T>, free: T, past: T, i: nat)
    requires i <= |s|
    ensures OpenSlotAsWritten(s, free, past, i) ==
      Scan(i + FirstFree(s[i..], free), seq(FirstFree(s[i..], free) + 1, j => i + j))
    decreases |s| - i
  {
    if i < |s| && s[i] != free {
      OpenSlotAgrees(s, free, past, i + 1);
      assert s[i..][1..] == s[i + 1..];
      var n := FirstFree(s[i + 1..], free);
      assert [i] + seq(n + 1, j => i + 1 + j) == seq(n + 2, j => i + j);
    }
  }

  /** So the search as written reads the word past the table exactly
      when every slot is taken; it still stops at `|s|`. */
  lemma OpenSlotReadsPast<T>(s: seq<T>, free: T, past: T)
    ensures var r := OpenSlotAsWritten(s, free, past, 0);
      r.stop == FirstFree(s, free) && (|s| in r.read <==> forall j | 0 <= j < |s| :: s[j] != free)
  {
    OpenSlotAgrees(s, free, past, 0);
    assert s[0..] == s;
    var r := OpenSlotAsWritten(s, free, past, 0);
    if |s| in r.read {
      var j :| 0 <= j < |r.read| && r.read[j] == |s|;
    }
    if forall j | 0 <= j < |s| :: s[j] != free {
      assert r.read[|s|] == |s|;
    }
  }

  /** Ten taken slots: the search as written reads slot 10, one past
      the ten-entry table, and stops at 10, so `open` returns -1. */
  lemma OpenSlotPastTable()
    ensures var r := OpenSlotAsWritten(seq(Slots, _ => 1), 0, 1, 0);
      r.stop == Slots && Slots in r.read
  {
    OpenSlotReadsPast(seq(Slots, _ => 1), 0, 1);
  }

  /** The node an absolute path's components lead to from `cur`, asking
      the file system for one component at a time; None at the first
      that is missing. */
  function Walk(cur: nat, ps: seq<seq<byte>>, lookup: (nat, seq<byte>) -> Option<nat>): Option<nat>
    decreases |ps|
  {
    if |ps| == 0 then Some(cur)
    else match lookup(cur, ps[0])
      case None => None
      case Some(n) => Walk(n, ps[1..], lookup)
  }

  /** Walking two runs of components is walking the first, then the
      second from where it ended. */
  lemma {:induction false} WalkAppend(cur: nat, a: seq<seq<byte>>, b: seq<seq<byte>>, lookup: (nat, seq<byte>) -> Option<nat>)
    ensures Walk(cur, a + b, lookup) == match Walk(cur, a, lookup)
      case None => None
      case Some(n) => Walk(n, b, lookup)
    decreases |a|
  {
    if |a| > 0 {
      assert (a + b)[0] == a[0] && (a + b)[1..] == a[1..] + b;
      match lookup(cur, a[0])
      case None =>
      case Some(n) => WalkAppend(n, a[1..], b, lookup);
    } else {
      assert a + b == b;
    }
  }

  /** One more component: the walk goes on by one lookup. */
  lemma WalkSnoc(root: nat, done: seq<seq<byte>>, piece: seq<byte>, cur: nat, lookup: (nat, seq<byte>) -> Option<nat>)
    requires Walk(root, done, lookup) == Some(cur)
    ensures Walk(root, done + [piece], lookup) == lookup(cur, piece)
  {
    WalkAppend(root, done, [piece], lookup);
    assert [piece][1..] == [];
  }

  /** Once a walk fails it stays failed, whatever follows. */
  lemma WalkFails(cur: nat, a: seq<seq<byte>>, b: seq<seq<byte>>, lookup: (nat, seq<byte>) -> Option<nat>)
    requires Walk(cur, a, lookup) == None
    ensures Walk(cur, a + b, lookup) == None
  {
    WalkAppend(cur, a, b, lookup);
  }

  /** The components of an absolute path: what follows the root slash,
      cut at every slash (empty components included). */
  function Components(name: seq<byte>): seq<seq<byte>>
    requires Terminated(name) && name[0] == Slash
  {
    Split(Content(name)[1..], Slash)
  }

  /** `find_by_absolute(name)`: None unless the path starts with '/';
      otherwise the walk of its components from `root`. */
  method FindByAbsolute(name: seq<byte>, root: nat, lookup: (nat, seq<byte>) -> Option<nat>) returns (r: Option<nat>)
    requires Terminated(name)
    ensures name[0] != Slash ==> r == None
    ensures name[0] == Slash ==> r == Walk(root, Components(name), lookup)
  {
    if name[0] != Slash {
      return None;
    }
    ghost var n := Len(name);
    ghost var done: seq<seq<byte>> := [];
    var cur := root;
    var pos := 1;
    var start := 1;
    assert name[1..1] == [];
    while true
      invariant 1 <= start <= pos <= n
      invariant Scanned(name, start, pos, done)
      invariant Walk(root, done, lookup) == Some(cur)
      decreases n - pos
    {
      var c := name[pos];
      if c == Slash || c == NUL {
        var piece := name[start..pos];
        var next := lookup(cur, piece);
        WalkSnoc(root, done, piece, cur, lookup);
        if next == None {
          PathFails(name, start, pos, done, root, lookup);
          return None;
        }
        if c == NUL {
          PathEnds(name, start, pos, done);
          return next;
        }
        PathSlash(name, start, pos, done);
        done := done + [piece];
        cur := next.value;
        start := pos + 1;
      } else {
        PathChar(name, start, pos, done);
      }
      pos := pos + 1;
    }
  }

  /** The bytes of `name` from 1 to `pos` cut into pieces: the finished
      ones are `done`, the current one starts at `start`. */
  ghost predicate Scanned(name: seq<byte>, start: nat, pos: nat, done: seq<seq<byte>>)
    requires 1 <= start <= pos <= |name|
  {
    Split(name[1..pos], Slash) == done + [name[start..pos]]
  }

  /** The scan reached the terminator: the pieces so far are all of them. */
  lemma PathEnds(name: seq<byte>, start: nat, pos: nat, done: seq<seq<byte>>)
    requires Terminated(name) && name[0] == Slash && 1 <= start <= pos <= Len(name) && name[pos] == NUL
    requires Scanned(name, start, pos, done)
    ensures Components(name) == done + [name[start..pos]]
  {
    assert Content(name)[1..] == name[1..pos];
  }

  /** A component was not found: the whole walk fails. */
  lemma PathFails(name: seq<byte>, start: nat, pos: nat, done: seq<seq<byte>>, root: nat,
                  lookup: (nat, seq<byte>) -> Option<nat>)
    requires Terminated(name) && name[0] == Slash && 1 <= start <= pos <= Len(name)
    requires name[pos] == Slash || name[pos] == NUL
    requires Scanned(name, start, pos, done)
    requires Walk(root, done + [name[start..pos]], lookup) == None
    ensures Walk(root, Components(name), lookup) == None
  {
    var t := Content(name)[1..];
    if name[pos] == NUL {
      PathEnds(name, start, pos, done);
    } else {
      assert t == name[1..pos] + [Slash] + name[pos + 1..Len(name)];
      SplitAppend(name[1..pos], Slash, name[pos + 1..Len(name)]);
      WalkFails(root, done + [name[start..pos]], Split(name[pos + 1..Len(name)], Slash), lookup);
    }
  }

  /** A slash closes the current piece and opens an empty one. */
  lemma PathSlash(name: seq<byte>, start: nat, pos: nat, done: seq<seq<byte>>)
    requires 1 <= start <= pos < |name| && name[pos] == Slash
    requires Scanned(name, start, pos, done)
    ensures Scanned(name, pos + 1, pos + 1, done + [name[start..pos]])
  {
    var u := name[1..pos + 1];
    assert u[..|u| - 1] == name[1..pos] && u[|u| - 1] == Slash;
    assert name[pos + 1..pos + 1] == [];
  }

  /** Any other byte extends the current piece. */
  lemma PathChar(name: seq<byte>, start: nat, pos: nat, done: seq<seq<byte>>)
    requires 1 <= start <= pos < |name| && name[pos] != Slash
    requires Scanned(name, start, pos, done)
    ensures Scanned(name, start, pos + 1, done)
  {
    var u := name[1..pos + 1];
    assert u[..|u| - 1] == name[1..pos];
    var p := done + [name[start..pos]];
    assert p[..|p| - 1] == done;
    assert name[start..pos + 1] == name[start..pos] + [name[pos]];
  }

  /** `touch(fn)`: `createNode` of a regular file named by the whole of
      `fn`, in the root directory when `fn` begins with '/' and in the
      working directory `cwd` otherwise; 1 when it made the file, -1 when
      no inode was free. `junk` is what `createNode`'s stack buffers
      held. */
  method Touch(fs: FileSystem.Ext2, cwd: FileSystem.Node, fn: seq<byte>, junk: seq<byte>)
    returns (r: int, panicked: bool)
    requires fs.Valid() && fs.root != null && fs.root.Valid() && fs.root.fs == fs
    requires cwd.Valid() && cwd.fs == fs
    requires Terminated(fn) && |fn| < Two32 - 10 && |junk| == Ext2Layout.InodeSize
    modifies fs.inodeUsage, fs.ide.data, fs.blockUsage, if fn[0] == Slash then fs.root.inode else cwd.inode
    ensures var dir := if fn[0] == Slash then fs.root else cwd;
      var a := Ext2Bitmap.Allocate(old(fs.Inodes()), 1, fs.superBlock.inodesPerGroup);
      fs.Inodes() == a.maps &&
      (a.result == -1 ==> !panicked && r == -1 && fs.ide.data[..] == old(fs.ide.data[..]) &&
                          fs.Blocks() == old(fs.Blocks()) && dir.inode[..] == old(dir.inode[..])) &&
      (a.result != -1 && a.result < 1 ==> panicked) &&
      (a.result >= 1 ==>
         Ext2Node.Located(fs.Geo(), a.result) &&
         var w := Ext2Tree.Made(old(dir.State()), fs.Geo(), dir.number, a.result, fn, Ext2Dir.FileEntry, junk);
         (panicked <==> w.None?) && (!panicked ==> r == 1 && dir.State() == w.value))
  {
    var created;
    if fn[0] == Slash {
      created, panicked := fs.CreateNode(fs.root, fn, Ext2Dir.FileEntry, junk);
    } else {
      created, panicked := fs.CreateNode(cwd, fn, Ext2Dir.FileEntry, junk);
    }
    r := if created then 1 else -1;
  }

  /** A semaphore; only the initial count of `Semaphore::make(init)` is
      kept, as the blocking behind `up` and `down` is not modelled. */
  class Semaphore {
    const initial: nat

    constructor (initial: nat)
      ensures this.initial == initial
    {
      this.initial := initial;
    }
  }

  /** The slot tables of one process's thread control block. */
  class Tcb {
    const openFiles: array<OpenFile?>
    const semaphores: array<Semaphore?>
    const children: array<Tcb?>
    var parent: Tcb?

    predicate Valid()
      reads this
    {
      openFiles.Length == Slots && semaphores.Length == Slots && children.Length == Slots
    }

    /** A new process: descriptors 0-2 hold standard input (neither
        readable nor writeable through `read`/`write`), standard output
        and standard error (both writeable), every other slot is empty. */
    constructor ()
      ensures Valid() && parent == null && fresh(openFiles) && fresh(semaphores) && fresh(children)
      ensures forall i | 0 <= i < 3 ::
                openFiles[i] != null && fresh(openFiles[i]) && openFiles[i].fd == i &&
                !openFiles[i].readable && openFiles[i].writeable == (i != 0) && openFiles[i].offset == 0
      ensures forall i | 3 <= i < Slots :: openFiles[i] == null
      ensures forall i | 0 <= i < Slots :: semaphores[i] == null && children[i] == null
    {
      var stdin := new OpenFile(0, false, false);
      var stdout := new OpenFile(1, false, true);
      var stderr := new OpenFile(2, false, true);
      openFiles := new OpenFile?[Slots](i => if i == 0 then stdin else if i == 1 then stdout else if i == 2 then stderr else null);
      semaphores := new Semaphore?[Slots](_ => null);
      children := new Tcb?[Slots](_ => null);
      parent := null;
    }

    /** The slot search of `fork`: the pid the child will get, the lowest
        free child index plus 10, or -1 when all ten are taken. */
    method ForkSlot() returns (r: int)
      requires Valid()
      ensures FirstFree(children[..], null) == Slots <==> r == -1
      ensures r != -1 ==> (ChildBase <= r < ChildBase + Slots &&
        children[r - ChildBase] == null && forall j | 0 <= j < r - ChildBase :: children[j] != null)
    {
      var k := LowestFree(children, null);
      if k == Slots {
        return -1;
      }
      return k + ChildBase;
    }

    /** `sem(init)`: a new semaphore in the lowest free slot, whose id is
        the index plus 20, or -1 when all ten are taken. */
    method Sem(init: nat) returns (r: int)
      requires Valid()
      modifies semaphores
      ensures var k := FirstFree(old(semaphores[..]), null);
        if k == Slots then r == -1 && semaphores[..] == old(semaphores[..])
        else (r == k + SemBase && semaphores[k] != null && fresh(semaphores[k]) &&
          semaphores[k].initial == init &&
          forall j | 0 <= j < Slots && j != k :: semaphores[j] == old(semaphores[j]))
    {
      var k := LowestFree(semaphores, null);
      if k == Slots {
        return -1;
      }
      semaphores[k] := new Semaphore(init);
      return k + SemBase;
    }

    /** The id check of `up(s)` and `down(s)`: 0 exactly for the id of a
        live semaphore (the index `s - 20` is unsigned, so ids below 20
        fail the bound), -1 otherwise. */
    method SemCheck(s: int) returns (r: int)
      requires Valid() && -Two31 <= s < Two31
      ensures r == 0 <==> SemBase <= s < SemBase + Slots && semaphores[s - SemBase] != null
      ensures r == 0 || r == -1
    {
      var index := U32(s - SemBase);
      if index >= Slots {
        assert !(SemBase <= s < SemBase + Slots);
        return -1;
      }
      if semaphores[index] == null {
        return -1;
      }
      return 0;
    }

    /** `close(id)`: empties the slot the id names and returns 0; for a
        child it also clears the child's parent link. -1 for an empty
        slot or an id that names none. */
    method Close(id: int) returns (r: int)
      requires Valid()
      modifies openFiles, semaphores, children, set i | 0 <= i < Slots && children[i] != null :: children[i]
      ensures r == 0 || r == -1
      ensures match CloseSlot(id)
        case FileSlot(i) =>
          (r == 0 <==> old(openFiles[i]) != null) && openFiles[..] == old(openFiles[..])[i := null] &&
          unchanged(semaphores, children)
        case ChildSlot(i) =>
          (r == 0 <==> old(children[i]) != null) && children[..] == old(children[..])[i := null] &&
          (old(children[i]) != null ==> old(children[i]).parent == null) &&
          unchanged(openFiles, semaphores)
        case SemSlot(i) =>
          (r == 0 <==> old(semaphores[i]) != null) && semaphores[..] == old(semaphores[..])[i := null] &&
          unchanged(openFiles, children)
        case NoSlot => r == -1 && unchanged(openFiles, semaphores, children)
    {
      match CloseSlot(id)
      case FileSlot(i) =>
        if openFiles[i] == null {
          return -1;
        }
        openFiles[i] := null;
        return 0;
      case ChildSlot(i) =>
        var child := children[i];
        if child == null {
          return -1;
        }
        children[i] := null;
        child.parent := null;
        return 0;
      case SemSlot(i) =>
        if semaphores[i] == null {
          return -1;
        }
        semaphores[i] := null;
        return 0;
      case NoSlot =>
        return -1;
    }

    /** The checks of `wait(id)`: only ids 10-19 of a live child pass
        (0); the child's exit code itself is not modelled. */
    method WaitCheck(id: int) returns (r: int)
      requires Valid()
      ensures r == 0 <==> ChildBase <= id < ChildBase + Slots && children[id - ChildBase] != null
      ensures r == 0 || r == -1
    {
      if id < 10 || id >= 20 {
        return -1;
      }
      if children[id - ChildBase] == null {
        return -1;
      }
      return 0;
    }

    /** `open(fn)` (`dir` false) and `opendir(fn)` (`dir` true) with
        `found` the node the path resolves to and `isDir` whether that
        node is a directory: the lowest free descriptor gets a new
        `OpenFile` on the node, readable, and writeable for `open` only;
        -1 when no descriptor is free or the path is not found.
        `opendir` on a node that is not a directory panics. The search
        tests the bound before the slot; `OpenSlotAgrees` shows the
        search as written stops at the same slot. */
    method Open(found: Option<nat>, isDir: bool, dir: bool) returns (r: int, panicked: bool)
      requires Valid()
      modifies openFiles
      ensures var k := FirstFree(old(openFiles[..]), null);
        (panicked <==> k < Slots && found.Some? && dir && !isDir) &&
        (k == Slots || found == None || panicked ==> r == -1 && openFiles[..] == old(openFiles[..])) &&
        (k < Slots && found.Some? && !panicked ==>
          r == k && fresh(openFiles[k]) && openFiles[k].fd == k && openFiles[k].vnode == found.value &&
          openFiles[k].readable && openFiles[k].writeable == !dir && openFiles[k].offset == 0 &&
          forall j | 0 <= j < Slots && j != k :: openFiles[j] == old(openFiles[j]))
    {
      var k := LowestFree(openFiles, null);
      if k == Slots {
        return -1, false;
      }
      if found == None {
        return -1, false;
      }
      if dir && !isDir {
        return -1, true;
      }
      var file := new OpenFile(k, true, !dir);
      file.vnode := found.value;
      openFiles[k] := file;
      return k, false;
    }

    /** `len(fd)` with `sizeOf` giving each node's size: only
        descriptors 3-9 of open files, which give their node's size. */
    method FileLen(fd: int, sizeOf: nat -> nat) returns (r: int)
      requires Valid() && forall v :: sizeOf(v) < Two32
      ensures (3 <= fd < Slots && openFiles[fd] != null) ==> r == I32(sizeOf(openFiles[fd].vnode))
      ensures !(3 <= fd < Slots && openFiles[fd] != null) ==> r == -1
    {
      if fd < 3 || fd >= 10 {
        return -1;
      }
      var file := openFiles[fd];
      if file == null {
        return -1;
      }
      return I32(sizeOf(file.vnode));
    }

    /** `seek(fd, off)`: for an open, readable descriptor the offset
        becomes `off`, which is returned; -1 and no change otherwise. */
    method Seek(fd: int, off: nat) returns (r: int)
      requires Valid() && off < Two32
      modifies if 0 <= fd < Slots && openFiles[fd] != null then {openFiles[fd]} else {}
      ensures var ok := 0 <= fd < Slots && openFiles[fd] != null && openFiles[fd].readable;
        (ok ==> r == I32(off) && openFiles[fd].offset == off && openFiles[fd].Valid()) &&
        (!ok ==> r == -1)
      ensures 0 <= fd < Slots && openFiles[fd] != null ==>
                openFiles[fd].vnode == old(openFiles[fd].vnode) &&
                (!openFiles[fd].readable ==> openFiles[fd].offset == old(openFiles[fd].offset))
    {
      if fd < 0 || fd >= 10 {
        return -1;
      }
      var file := openFiles[fd];
      if file == null || !file.readable {
        return -1;
      }
      file.offset := off;
      return I32(file.offset);
    }
  }
}
