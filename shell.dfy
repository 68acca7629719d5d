/** The kernel shell's line editor: a 4096-byte screen buffer holding
    everything shown so far, a cursor where the next key goes, and the
    start of the command being typed (just after the last prompt). The
    key-reading loop and the redrawing of the screen are I/O and are not
    part of this model. */
module Shell {
  import opened Bytes
  import opened CString

  const BufferSize: nat := 4096
  const Backspace: byte := 0x08
  const Return: byte := 0x0A

  /** "root:/", the prompt `start` shows. */
  function Prompt(): (s: seq<byte>)
    ensures |s| == 6
  {
    Ascii("root:/")
  }

  /** "\nroot:/", the line break and prompt after a command. */
  function NewPrompt(): (s: seq<byte>)
    ensures |s| == 7 && s[0] == Return && s[1..] == Prompt()
  {
    Ascii("\nroot:/")
  }

  /** The editor state: buffer contents, cursor, command start. */
  datatype Line = Line(text: seq<byte>, cursor: nat, start: nat)

  predicate Ordered(l: Line) {
    l.start <= l.cursor <= |l.text|
  }

  /** Every byte from the cursor on is still NUL, so the screen shows
      exactly the bytes before the cursor. */
  predicate Clean(l: Line) {
    forall k | l.cursor <= k < |l.text| :: l.text[k] == NUL
  }

  /** The state `start` leaves. */
  function Started(l: Line): Line
    requires |l.text| >= 6
  {
    Line(Splice(l.text, 0, Prompt()), 6, 6)
  }

  /** The state `handle_backspace` leaves, and whether it asks for a
      redraw. */
  function AfterBackspace(l: Line): (Line, bool)
    requires Ordered(l)
  {
    if l.cursor != l.start then (Line(l.text[l.cursor - 1 := NUL], l.cursor - 1, l.start), true)
    else (l, false)
  }

  /** The command typed since the last prompt. */
  function Command(l: Line): seq<byte>
    requires Ordered(l)
  {
    l.text[l.start..l.cursor]
  }

  /** What `handle_return` appends: a line break when the command is not
      empty, a copy of the command, and a new prompt. */
  function Echoed(l: Line): seq<byte>
    requires Ordered(l)
  {
    (if |Command(l)| != 0 then [Return] else []) + Command(l) + NewPrompt()
  }

  /** Room in the buffer for what `handle_return` appends. */
  predicate ReturnFits(l: Line) {
    Ordered(l) && l.cursor + |Echoed(l)| <= |l.text|
  }

  /** The state `handle_return` leaves. */
  function AfterReturn(l: Line): Line
    requires ReturnFits(l)
  {
    var c := l.cursor + |Echoed(l)|;
    Line(Splice(l.text, l.cursor, Echoed(l)), c, c)
  }

  /** The state `handle_normal(key)` leaves. */
  function AfterNormal(l: Line, key: byte): Line
    requires l.cursor < |l.text|
  {
    Line(l.text[l.cursor := key], l.cursor + 1, l.start)
  }

  /** Room in the buffer for the handler `key` selects. */
  predicate KeyFits(l: Line, key: byte) {
    Ordered(l) &&
    if key == Backspace then true
    else if key == Return then ReturnFits(l)
    else l.cursor < |l.text|
  }

  /** The state `handle_key(key)` leaves, and its result. */
  function AfterKey(l: Line, key: byte): (Line, bool)
    requires KeyFits(l, key)
  {
    if key == Backspace then AfterBackspace(l)
    else if key == Return then (AfterReturn(l), true)
    else (AfterNormal(l, key), true)
  }

  /** Backspace on an empty command changes nothing and asks for no
      redraw; otherwise it clears the byte before the cursor and steps
      back over it. */
  lemma BackspaceEffect(l: Line)
    requires Ordered(l)
    ensures var (l', r) := AfterBackspace(l);
      (r <==> l.cursor != l.start) &&
      (!r ==> l' == l) &&
      (r ==> l'.cursor + 1 == l.cursor && l'.text[l'.cursor] == NUL &&
             forall k | 0 <= k < |l.text| && k != l'.cursor :: l'.text[k] == l.text[k])
  {
  }

  /** `handle_return` grows the cursor by the command's length, seven for
      the prompt, and one more for a non-empty command; the new command
      starts at the new cursor; just before it sit the copy of the old
      command and the prompt. */
  lemma ReturnEffect(l: Line)
    requires ReturnFits(l)
    ensures var l' := AfterReturn(l);
      var n := |Command(l)|;
      var b := if n != 0 then 1 else 0;
      l'.cursor == l.cursor + n + 7 + b && l'.start == l'.cursor &&
      (n != 0 ==> l'.text[l.cursor] == Return) &&
      l'.text[l.cursor + b..l.cursor + b + n] == Command(l) &&
      l'.text[l'.cursor - 7..l'.cursor] == NewPrompt() &&
      l'.text[..l.cursor] == l.text[..l.cursor]
  {
    var cmd := Command(l);
    var n := |cmd|;
    var pre: seq<byte> := if n != 0 then [Return] else [];
    var b := |pre|;
    var e := Echoed(l);
    var c := l.cursor;
    EchoedParts(l, pre);
    ThreeParts(pre, cmd, NewPrompt());
    SliceOfSplice(l.text, c, e, c + b, c + b + n);
    SliceOfSplice(l.text, c, e, c + b + n, c + |e|);
    SpliceKeeps(l.text, c, e, 0, c);
    SpliceAt(l.text, c, e);
  }

  /** The middle and the last of three glued parts. */
  lemma ThreeParts(a: seq<byte>, m: seq<byte>, z: seq<byte>)
    ensures (a + m + z)[|a|..|a| + |m|] == m
    ensures (a + m + z)[|a| + |m|..|a| + |m| + |z|] == z
  {
  }

  /** A slice inside a write reads the written bytes. */
  lemma SliceOfSplice(s: seq<byte>, off: nat, v: seq<byte>, i: nat, j: nat)
    requires off + |v| <= |s| && off <= i <= j <= off + |v|
    ensures Splice(s, off, v)[i..j] == v[i - off..j - off]
  {
    SpliceAt(s, off, v);
    assert forall k | 0 <= k < j - i :: Splice(s, off, v)[i..j][k] == v[i - off..j - off][k];
  }

  /** Every handler keeps the command start at or before the cursor, the
      buffer's size, and every byte before the command start. */
  lemma KeyKeepsHistory(l: Line, key: byte)
    requires KeyFits(l, key)
    ensures var l' := AfterKey(l, key).0;
      Ordered(l') && |l'.text| == |l.text| && l.start <= l'.start &&
      l'.text[..l.start] == l.text[..l.start]
  {
    var l' := AfterKey(l, key).0;
    if key == Return {
      ReturnEffect(l);
      assert l'.text[..l.start] == l'.text[..l.cursor][..l.start];
    }
  }

  /** Every handler keeps the bytes past the cursor NUL. */
  lemma KeyKeepsClean(l: Line, key: byte)
    requires KeyFits(l, key) && Clean(l)
    ensures Clean(AfterKey(l, key).0)
  {
    if key == Return {
      SpliceAt(l.text, l.cursor, Echoed(l));
    }
  }

  /** A backspace right after a typed key undoes it, as long as the
      bytes past the cursor were NUL. */
  lemma BackspaceUndoesNormal(l: Line, key: byte)
    requires Ordered(l) && l.cursor < |l.text| && Clean(l)
    ensures AfterBackspace(AfterNormal(l, key)) == (l, true)
  {
    assert l.text[l.cursor] == NUL;
    assert l.text[l.cursor := key][l.cursor := NUL] == l.text;
  }

  /** After `start` the buffer shows the prompt, and the (empty) command
      starts right after it. */
  lemma StartedShowsPrompt(l: Line)
    requires |l.text| >= 6
    ensures var l' := Started(l);
      Ordered(l') && l'.text[..6] == Prompt() && Command(l') == [] &&
      l'.text[6..] == l.text[6..]
  {
    var t := Splice(l.text, 0, Prompt());
    SpliceAt(l.text, 0, Prompt());
    assert t[..6] == t[0..6];
  }

  /** `memcpy` from a lower, disjoint part of the same buffer. */
  method CopyWithin(buf: array<byte>, dest: nat, src: nat, n: nat)
    requires src + n <= dest && dest + n <= buf.Length
    modifies buf
    ensures buf[..] == Splice(old(buf[..]), dest, old(buf[src..src + n]))
  {
    ghost var was := buf[..];
    forall k | 0 <= k < n {
      buf[dest + k] := buf[src + k];
    }
    ghost var want := Splice(was, dest, was[src..src + n]);
    SpliceAt(was, dest, was[src..src + n]);
    assert forall k | 0 <= k < buf.Length :: buf[k] == want[k];
  }

  /** `memcpy` from a literal. */
  method CopyIn(buf: array<byte>, dest: nat, lit: seq<byte>)
    requires dest + |lit| <= buf.Length
    modifies buf
    ensures buf[..] == Splice(old(buf[..]), dest, lit)
  {
    ghost var was := buf[..];
    forall k | 0 <= k < |lit| {
      buf[dest + k] := lit[k];
    }
    ghost var want := Splice(was, dest, lit);
    SpliceAt(was, dest, lit);
    assert forall k | 0 <= k < buf.Length :: buf[k] == want[k];
  }

  /** What `handle_return` appends, as the line break it may store
      first and the rest. */
  lemma EchoedParts(l: Line, pre: seq<byte>)
    requires Ordered(l) && pre == (if |Command(l)| != 0 then [Return] else [])
    ensures Echoed(l) == pre + Command(l) + NewPrompt()
  {
  }

  /** The writes of `handle_return` into the buffer, with the cursor
      they advance: the line break for a non-empty command, the copy of
      the command, and the new prompt. */
  method EchoCommand(buffer: array<byte>, cursor0: nat, start: nat) returns (cursor: nat)
    requires ReturnFits(Line(buffer[..], cursor0, start))
    modifies buffer
    ensures var l' := AfterReturn(Line(old(buffer[..]), cursor0, start));
      buffer[..] == l'.text && cursor == l'.cursor
  {
    ghost var l := Line(buffer[..], cursor0, start);
    ghost var t := buffer[..];
    ghost var cmd := Command(l);
    cursor := cursor0;
    var cmdEnd := cursor;
    var cmdSize := cmdEnd - start;
    ghost var pre: seq<byte> := [];
    SpliceEmpty(t, cursor);
    if cmdSize != 0 {
      buffer[cursor] := Return;
      SpliceOne(t, cursor, Return);
      cursor := cursor + 1;
      pre := [Return];
    }
    ghost var b1 := buffer[..];
    assert b1 == Splice(t, l.cursor, pre) && cursor == l.cursor + |pre|;
    SpliceKeeps(t, l.cursor, pre, start, cmdEnd);
    CopyWithin(buffer, cursor, start, cmdSize);
    ghost var b2 := buffer[..];
    cursor := cursor + cmdSize;
    CopyIn(buffer, cursor, NewPrompt());
    EchoedParts(l, pre);
    ThreeWrites(t, l.cursor, pre, cmd, NewPrompt(), b1, b2, buffer[..]);
    cursor := cursor + 7;
    AfterReturnIs(l, buffer[..], cursor);
  }

  /** Three writes side by side, the second copying bytes that the
      first left alone, are one write of the three parts. */
  lemma ThreeWrites(t: seq<byte>, c: nat, a: seq<byte>, m: seq<byte>, z: seq<byte>,
                    b1: seq<byte>, b2: seq<byte>, b3: seq<byte>)
    requires c + |a| + |m| + |z| <= |t|
    requires b1 == Splice(t, c, a)
    requires c + |a| + |m| <= |b1| && b2 == Splice(b1, c + |a|, m)
    requires c + |a| + |m| + |z| <= |b2| && b3 == Splice(b2, c + |a| + |m|, z)
    ensures b3 == Splice(t, c, a + m + z)
  {
    SpliceAdjacent(t, c, a, m);
    SpliceAdjacent(t, c, a + m, z);
  }

  lemma AfterReturnIs(l: Line, text: seq<byte>, c: nat)
    requires ReturnFits(l) && text == Splice(l.text, l.cursor, Echoed(l))
    requires c == l.cursor + |Echoed(l)|
    ensures AfterReturn(l) == Line(text, c, c)
  {
  }

  /** `Shell`: the buffer and the two positions in it. */
  class Shell {
    const buffer: array<byte>
    var cursor: nat
    var currCmdStart: nat

    ghost predicate Valid()
      reads this
    {
      buffer.Length == BufferSize && currCmdStart <= cursor <= BufferSize
    }

    /** The editor state the fields hold. */
    ghost function State(): (l: Line)
      reads this, buffer
      requires Valid()
      ensures Ordered(l)
    {
      Line(buffer[..], cursor, currCmdStart)
    }

    /** A shell is a global object: its buffer starts out all NUL and
        both positions at 0. */
    constructor ()
      ensures Valid() && fresh(buffer) && cursor == 0 && currCmdStart == 0
      ensures Clean(State())
    {
      buffer := new byte[BufferSize](_ => NUL);
      cursor := 0;
      currCmdStart := 0;
    }

    /** The set-up part of `Shell::start`: the prompt at the start of
        the buffer and both positions just after it. */
    method Start()
      requires Valid()
      modifies this, buffer
      ensures Valid() && State() == Started(old(State()))
    {
      CopyIn(buffer, 0, Prompt());
      cursor := 6;
      currCmdStart := 6;
    }

    /** `Shell::handle_backspace`. */
    method HandleBackspace() returns (refresh: bool)
      requires Valid()
      modifies this, buffer
      ensures Valid() && (State(), refresh) == AfterBackspace(old(State()))
    {
      if cursor != currCmdStart {
        buffer[cursor - 1] := NUL;
        cursor := cursor - 1;
        return true;
      }
      return false;
    }

    /** `Shell::handle_return`. */
    method HandleReturn() returns (refresh: bool)
      requires Valid() && ReturnFits(State())
      modifies this, buffer
      ensures Valid() && State() == AfterReturn(old(State())) && refresh
    {
      cursor := EchoCommand(buffer, cursor, currCmdStart);
      currCmdStart := cursor;
      return true;
    }

    /** `Shell::handle_normal(key)`. */
    method HandleNormal(key: byte) returns (refresh: bool)
      requires Valid() && cursor < BufferSize
      modifies this, buffer
      ensures Valid() && State() == AfterNormal(old(State()), key) && refresh
    {
      buffer[cursor] := key;
      cursor := cursor + 1;
      return true;
    }

    /** `Shell::handle_key(key)`. */
    method HandleKey(key: byte) returns (refresh: bool)
      requires Valid() && KeyFits(State(), key)
      modifies this, buffer
      ensures Valid() && (State(), refresh) == AfterKey(old(State()), key)
    {
      if key == Backspace {
        refresh := HandleBackspace();
      } else if key == Return {
        refresh := HandleReturn();
      } else {
        refresh := HandleNormal(key);
      }
    }
  }
}
