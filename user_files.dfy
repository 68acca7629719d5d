/** `OpenFile`, a process's handle on an open file: the node it reads
    from, its access rights and the current offset. The node's
    `read_all` belongs to the block layer and is a parameter here. */
module UserFiles {
  import opened Bytes
  import opened LibK

  /** The number of bytes `read(buffer, n)` asks the node for: what is
      left of the file, as a 32-bit difference, or `n` if that is less. */
  function Request(size: nat, offset: nat, n: nat): (r: nat)
    requires size < Two32 && offset < Two32
    ensures r <= n && r <= U32(size - offset)
    ensures r == n || r == U32(size - offset)
  {
    MinBelow([U32(size - offset), n]);
    MinIsArgument([U32(size - offset), n]);
    Min([U32(size - offset), n])
  }

  /** Inside the file the request never runs past its end, and asks
      for all `n` bytes when they are there. */
  lemma RequestInside(size: nat, offset: nat, n: nat)
    requires size < Two32 && offset <= size
    ensures offset + Request(size, offset, n) <= size
    ensures Request(size, offset, n) == (if offset + n <= size then n else size - offset)
  {
  }

  /** Past the end of the file the difference wraps around to a large
      value, and bytes beyond the end are asked for. */
  lemma RequestPastEnd(size: nat, offset: nat, n: nat)
    requires offset < Two32 && size < offset
    ensures var left := Two32 + size - offset;
      Request(size, offset, n) == (if n <= left then n else left)
    ensures n > 0 ==> Request(size, offset, n) > 0
  {
    assert U32(size - offset) == size - offset + Two32;
  }

  class OpenFile {
    const fd: nat
    const readable: bool
    const writeable: bool
    var offset: nat
    /** The inode number of the node the file reads (0 until set). */
    var vnode: nat

    predicate Valid()
      reads this
    {
      offset < Two32
    }

    /** `OpenFile(fd, readable, writeable)`: starts at offset 0. */
    constructor (fd: nat, readable: bool, writeable: bool)
      ensures Valid() && offset == 0 && vnode == 0
      ensures this.fd == fd && this.readable == readable && this.writeable == writeable
    {
      this.fd := fd;
      this.readable := readable;
      this.writeable := writeable;
      offset := 0;
      vnode := 0;
    }

    /** `read(buffer, n)` on a node of `size` bytes whose `read_all` is
        `readAll`: -1 and no change when the file is not readable;
        otherwise the count `read_all` returns for the request, by which
        the offset (a 32-bit field) advances. */
    method Read(n: nat, size: nat, readAll: (nat, nat) -> nat) returns (r: int)
      requires Valid() && n < Two32 && size < Two32
      modifies this
      ensures Valid()
      ensures !readable ==> r == -1 && offset == old(offset)
      ensures readable ==>
        var got := U32(readAll(old(offset), Request(size, old(offset), n)));
        r == I32(got) && offset == U32(old(offset) + got)
    {
      if !readable {
        return -1;
      }
      var toRead := Request(size, offset, n);
      var got := U32(readAll(offset, toRead));
      offset := U32(offset + got);
      r := I32(got);
    }

    /** `write(buffer, n)`: -1 when the file is not writeable, else `n`
        (the bytes themselves go to the shell). */
    method Write(n: nat) returns (r: int)
      requires n < Two32
      ensures r == (if writeable then I32(n) else -1)
      ensures writeable && n < Two31 ==> r == n
    {
      if !writeable {
        return -1;
      }
      return I32(n);
    }
  }
}
