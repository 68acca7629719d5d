/** VGA text-mode screen: offset arithmetic over the 80x25 grid of
    two-byte cells (character, attribute) and the writes into video
    memory. Video memory is an array indexed by the byte offset from the
    start of the text buffer. */
module Video {
  import opened Bytes

  const MaxRows: int := 25
  const MaxCols: int := 80
  /** Bytes per screen row: two per cell. */
  const RowBytes: int := 2 * MaxCols
  /** Bytes of the whole screen. */
  const ScreenBytes: int := RowBytes * MaxRows

  /** `get_offset`: byte offset of the cell at (col, row). */
  function GetOffset(col: int, row: int): int {
    2 * (row * MaxCols + col)
  }

  /** `get_row_from_offset`: C division by the row width. */
  function RowOf(offset: int): int {
    CDiv(offset, RowBytes)
  }

  /** `move_offset_to_new_line`: column 0 of the following row. */
  function NewLine(offset: int): int {
    GetOffset(0, RowOf(offset) + 1)
  }

  /** The row and the column of a cell are recovered from its offset. */
  lemma RowOfOffset(col: int, row: int)
    requires 0 <= col < MaxCols && row >= 0
    ensures RowOf(GetOffset(col, row)) == row
    ensures GetOffset(col, row) % RowBytes == 2 * col
  {
    var o := GetOffset(col, row);
    assert o == row * RowBytes + 2 * col;
  }

  /** From an on-screen offset, a new line lands on the start of the next
      row: strictly ahead and at most one row ahead. */
  lemma NewLineNextRow(offset: int)
    requires offset >= 0
    ensures NewLine(offset) % RowBytes == 0
    ensures offset < NewLine(offset) <= offset + RowBytes
    ensures RowOf(NewLine(offset)) == RowOf(offset) + 1
  {
    var r := RowOf(offset);
    assert NewLine(offset) == (r + 1) * RowBytes;
    RowOfOffset(0, r + 1);
  }

  /** `set_char_at_video_memory`: character then attribute. */
  method SetChar(vid: array<byte>, character: byte, offset: int, theme: byte)
    requires 0 <= offset && offset + 1 < vid.Length
    modifies vid
    ensures vid[offset] == character && vid[offset + 1] == theme
    ensures forall k | 0 <= k < vid.Length && k != offset && k != offset + 1 :: vid[k] == old(vid[k])
  {
    vid[offset] := character;
    vid[offset + 1] := theme;
  }

  /** `clear_char`: zeros both bytes of the cell. */
  method ClearChar(vid: array<byte>, offset: int)
    requires 0 <= offset && offset + 1 < vid.Length
    modifies vid
    ensures vid[offset] == 0 && vid[offset + 1] == 0
    ensures forall k | 0 <= k < vid.Length && k != offset && k != offset + 1 :: vid[k] == old(vid[k])
  {
    vid[offset] := 0;
    vid[offset + 1] := 0;
  }

  /** The memory after copying the first `n` bytes one at a time from
      `src` upward to `dest` upward, later steps seeing earlier stores. */
  function ForwardCopy(s: seq<byte>, src: nat, dest: nat, n: nat): (r: seq<byte>)
    requires src + n <= |s| && dest + n <= |s|
    ensures |r| == |s|
  {
    if n == 0 then s
    else
      var t := ForwardCopy(s, src, dest, n - 1);
      t[dest + n - 1 := t[src + n - 1]]
  }

  /** When the destination does not start past the source, or the two
      ranges are apart, a forward copy moves the source bytes intact and
      touches nothing outside the destination. */
  lemma {:induction false} ForwardCopyMoves(s: seq<byte>, src: nat, dest: nat, n: nat)
    requires src + n <= |s| && dest + n <= |s|
    requires dest <= src || src + n <= dest
    ensures forall k | dest <= k < dest + n :: ForwardCopy(s, src, dest, n)[k] == s[k - dest + src]
    ensures forall k | 0 <= k < |s| && !(dest <= k < dest + n) :: ForwardCopy(s, src, dest, n)[k] == s[k]
  {
    if n > 0 {
      ForwardCopyMoves(s, src, dest, n - 1);
      var t := ForwardCopy(s, src, dest, n - 1);
      assert t[src + n - 1] == s[src + n - 1];
    }
  }

  /** How many bytes a copy loop bounded by `nbytes` moves. */
  function Moved(nbytes: int): nat {
    if nbytes < 0 then 0 else nbytes
  }

  /** `memory_copy` within video memory; a count of zero or less copies
      nothing. */
  method MemoryCopy(vid: array<byte>, src: nat, dest: nat, nbytes: int)
    requires src + Moved(nbytes) <= vid.Length && dest + Moved(nbytes) <= vid.Length
    modifies vid
    ensures vid[..] == ForwardCopy(old(vid[..]), src, dest, Moved(nbytes))
  {
    var i := 0;
    while i < nbytes
      invariant 0 <= i <= Moved(nbytes)
      invariant vid[..] == ForwardCopy(old(vid[..]), src, dest, i)
    {
      vid[dest + i] := vid[src + i];
      i := i + 1;
    }
  }

  /** `scroll_ln`: rows 1 to 24 move up a row, row 24 fills with blanks
      in the theme, and the offset moves up a row. */
  method ScrollLn(vid: array<byte>, offset: int, theme: byte) returns (r: int)
    requires vid.Length >= ScreenBytes
    modifies vid
    ensures r == offset - RowBytes
    ensures forall k | 0 <= k < ScreenBytes - RowBytes :: vid[k] == old(vid[k + RowBytes])
    ensures forall k | ScreenBytes - RowBytes <= k < ScreenBytes ::
      vid[k] == if k % 2 == 0 then ' ' as int else theme
    ensures forall k | ScreenBytes <= k < vid.Length :: vid[k] == old(vid[k])
  {
    ghost var was := vid[..];
    MemoryCopy(vid, GetOffset(0, 1), GetOffset(0, 0), MaxCols * (MaxRows - 1) * 2);
    ForwardCopyMoves(was, RowBytes, 0, ScreenBytes - RowBytes);
    ghost var moved := vid[..];
    var col := 0;
    while col < MaxCols
      invariant 0 <= col <= MaxCols
      invariant forall k | 0 <= k < vid.Length && !(ScreenBytes - RowBytes <= k < ScreenBytes - RowBytes + 2 * col) :: vid[k] == moved[k]
      invariant forall k | ScreenBytes - RowBytes <= k < ScreenBytes - RowBytes + 2 * col ::
        vid[k] == if k % 2 == 0 then ' ' as int else theme
    {
      SetChar(vid, ' ' as int, GetOffset(col, MaxRows - 1), theme);
      col := col + 1;
    }
    r := offset - 2 * MaxCols;
  }

  /** The blank cells `clear_screen` leaves: every one of the 2000 cells
      holds ' ' in the theme. The cursor move it ends with is port I/O. */
  method ClearScreen(vid: array<byte>, theme: byte)
    requires vid.Length >= ScreenBytes
    modifies vid
    ensures forall k | 0 <= k < ScreenBytes :: vid[k] == if k % 2 == 0 then ' ' as int else theme
    ensures forall k | ScreenBytes <= k < vid.Length :: vid[k] == old(vid[k])
  {
    var i := 0;
    while i < MaxCols * MaxRows
      invariant 0 <= i <= MaxCols * MaxRows
      invariant forall k | 0 <= k < 2 * i :: vid[k] == if k % 2 == 0 then ' ' as int else theme
      invariant forall k | 2 * i <= k < vid.Length :: vid[k] == old(vid[k])
    {
      SetChar(vid, ' ' as int, i * 2, theme);
      i := i + 1;
    }
  }
}
