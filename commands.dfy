/** The kernel shell's command runner: it splits a command line into a
    program name and arguments at spaces, and runs the one built-in
    command, `color`, which switches the shell's colour theme. */
module Commands {
  import opened Bytes
  import opened CString
  import LibK

  const Space: byte := ' ' as int
  const DefaultTheme: byte := 0x0F
  const WindowsTheme: byte := 0x1F

  /** Length of the program name: the bytes before the first space or
      terminator. */
  function NameLength(cmd: seq<byte>): (n: nat)
    requires Terminated(cmd)
    ensures n <= Len(cmd) && (cmd[n] == NUL || cmd[n] == Space)
    ensures forall i | 0 <= i < n :: cmd[i] != NUL && cmd[i] != Space
  {
    NameFrom(cmd, 0)
  }

  function NameFrom(cmd: seq<byte>, i: nat): (n: nat)
    requires Terminated(cmd) && i <= Len(cmd)
    ensures i <= n <= Len(cmd) && (cmd[n] == NUL || cmd[n] == Space)
    ensures forall k | i <= k < n :: cmd[k] != NUL && cmd[k] != Space
    decreases Len(cmd) - i
  {
    if cmd[i] == NUL || cmd[i] == Space then i else NameFrom(cmd, i + 1)
  }

  /** `argc`: one for the program name and one per space after it. */
  function ArgCount(cmd: seq<byte>): nat
    requires Terminated(cmd)
  {
    1 + Count(cmd[NameLength(cmd)..Len(cmd)], Space)
  }

  /** The argument text after the space that ends the program name. */
  function ArgText(cmd: seq<byte>): seq<byte>
    requires Terminated(cmd)
  {
    var n := NameLength(cmd);
    if cmd[n] == NUL then [] else cmd[n + 1..Len(cmd)]
  }

  /** The words of the command line: the program name, then, when a
      space follows it, the pieces of the rest cut at every space. */
  function Words(cmd: seq<byte>): (ws: seq<seq<byte>>)
    requires Terminated(cmd)
    ensures |ws| >= 1 && ws[0] == cmd[..NameLength(cmd)]
  {
    var n := NameLength(cmd);
    if cmd[n] == NUL then [cmd[..n]] else [cmd[..n]] + Split(ArgText(cmd), Space)
  }

  /** There are exactly `argc` words. */
  lemma WordsCount(cmd: seq<byte>)
    requires Terminated(cmd)
    ensures |Words(cmd)| == ArgCount(cmd)
  {
    var n, l := NameLength(cmd), Len(cmd);
    if cmd[n] == NUL {
      assert cmd[n..l] == [];
    } else {
      var rest := ArgText(cmd);
      assert cmd[n..l] == [Space] + rest;
      CountFront(Space, rest, Space);
      SplitCount(rest, Space);
    }
  }

  /** No word holds a space or a NUL. */
  lemma WordsClean(cmd: seq<byte>)
    requires Terminated(cmd)
    ensures forall i, j | 0 <= i < |Words(cmd)| && 0 <= j < |Words(cmd)[i]| ::
      Words(cmd)[i][j] != Space && Words(cmd)[i][j] != NUL
  {
    var n := NameLength(cmd);
    if cmd[n] != NUL {
      var rest := ArgText(cmd);
      SplitPiecesFree(rest, Space);
      forall i, j | 0 <= i < |Split(rest, Space)| && 0 <= j < |Split(rest, Space)[i]|
        ensures Split(rest, Space)[i][j] != NUL
      {
        SplitPiecesIn(rest, Space, i, j);
      }
    }
  }

  /** The words glued back with spaces give the whole command line. */
  lemma WordsJoin(cmd: seq<byte>)
    requires Terminated(cmd)
    ensures Join(Words(cmd), Space) == Content(cmd)
  {
    var n := NameLength(cmd);
    if cmd[n] == NUL {
      assert Content(cmd) == cmd[..n];
    } else {
      var rest := ArgText(cmd);
      JoinSplit(rest, Space);
      JoinCons(cmd[..n], Split(rest, Space));
      ContentAfterName(cmd);
    }
  }

  /** A line whose name ends at a space is the name, that space and the
      argument text. */
  lemma ContentAfterName(cmd: seq<byte>)
    requires Terminated(cmd) && cmd[NameLength(cmd)] != NUL
    ensures Content(cmd) == cmd[..NameLength(cmd)] + [Space] + ArgText(cmd)
  {
    var n, l := NameLength(cmd), Len(cmd);
    assert cmd[..l] == cmd[..n] + cmd[n..l];
    assert cmd[n..l] == [Space] + cmd[n + 1..l];
  }

  /** Every byte of a piece is a byte of the text. */
  lemma {:induction false} SplitPiecesIn(t: seq<byte>, sep: byte, i: nat, j: nat)
    requires i < |Split(t, sep)| && j < |Split(t, sep)[i]|
    ensures Split(t, sep)[i][j] in t
  {
    var p := Split(t, sep);
    if |t| > 0 {
      var u, c := t[..|t| - 1], t[|t| - 1];
      var q := Split(u, sep);
      if c == sep {
        SplitPiecesIn(u, sep, i, j);
      } else if i < |q| - 1 {
        SplitPiecesIn(u, sep, i, j);
      } else if j < |q[|q| - 1]| {
        SplitPiecesIn(u, sep, |q| - 1, j);
      }
    }
  }

  /** Gluing a first piece in front of glued pieces. */
  lemma {:induction false} JoinCons(w: seq<byte>, ps: seq<seq<byte>>)
    requires |ps| >= 1
    ensures Join([w] + ps, Space) == w + [Space] + Join(ps, Space)
  {
    if |ps| > 1 {
      var init := ps[..|ps| - 1];
      JoinCons(w, init);
      assert ([w] + ps)[..|ps|] == [w] + init;
    }
  }

  /** The number of argument slots the splitting loop of
      `CommandRunner::execute` fills when it starts scanning at `i`
      without first checking what ends the program name: one per space
      and one for the NUL that stops it, or None when the scan runs
      past the end of the buffer. */
  function ScanSlots(cmd: seq<byte>, i: nat): Option<nat>
    decreases |cmd| - i
  {
    if i >= |cmd| then None
    else if cmd[i] == NUL then Some(1)
    else
      match ScanSlots(cmd, i + 1)
      case None => None
      case Some(k) => Some(if cmd[i] == Space then k + 1 else k)
  }

  /** Argument slots the loop fills as written: the program name and
      whatever the scan from just past the name finds. */
  function SlotsAsWritten(cmd: seq<byte>): Option<nat>
    requires Terminated(cmd)
  {
    match ScanSlots(cmd, NameLength(cmd) + 1)
    case None => None
    case Some(k) => Some(1 + k)
  }

  /** When a space ends the program name the loop as written fills
      exactly `argc` slots. */
  lemma SlotsAsWrittenWithSpace(cmd: seq<byte>)
    requires Terminated(cmd) && cmd[NameLength(cmd)] == Space
    ensures SlotsAsWritten(cmd) == Some(ArgCount(cmd))
  {
    var n := NameLength(cmd);
    ScanSlotsCount(cmd, n + 1);
    assert cmd[n..Len(cmd)] == [Space] + cmd[n + 1..Len(cmd)];
    CountFront(Space, cmd[n + 1..Len(cmd)], Space);
  }

  lemma {:induction false} ScanSlotsCount(cmd: seq<byte>, i: nat)
    requires Terminated(cmd) && i <= Len(cmd)
    ensures ScanSlots(cmd, i) == Some(1 + Count(cmd[i..Len(cmd)], Space))
    decreases Len(cmd) - i
  {
    if i < Len(cmd) {
      ScanSlotsCount(cmd, i + 1);
      assert cmd[i..Len(cmd)] == [cmd[i]] + cmd[i + 1..Len(cmd)];
      CountFront(cmd[i], cmd[i + 1..Len(cmd)], Space);
    }
  }

  /** A command that is only a program name, "ls" in a buffer whose next
      byte is also NUL: `argc` is 1, but the loop as written starts past
      the terminator, finds the second NUL and stores a second argument
      into the one-slot `argv`. */
  lemma SlotsAsWrittenOverflow()
    ensures var cmd := [108, 115, 0, 0];
      Terminated(cmd) && ArgCount(cmd) == 1 && SlotsAsWritten(cmd) == Some(2)
  {
    var cmd: seq<byte> := [108, 115, 0, 0];
    assert cmd[2] == NUL;
    LenAt(cmd, 2);
    assert NameFrom(cmd, 2) == 2;
    assert NameLength(cmd) == 2;
    assert cmd[2..2] == [];
  }

  /** The splitting part of `CommandRunner::execute`: the program name,
      `argc`, and the `argv` array of C strings. The splitting loop runs
      only when a space follows the program name. */
  method SplitCommand(cmd: seq<byte>) returns (programName: seq<byte>, argc: nat, argv: seq<seq<byte>>)
    requires Terminated(cmd)
    ensures programName == cmd[..NameLength(cmd)] + [NUL]
    ensures argc == ArgCount(cmd) == |argv| == |Words(cmd)|
    ensures forall i | 0 <= i < |argv| :: argv[i] == Words(cmd)[i] + [NUL]
  {
    var size := ProgramNameSize(cmd);
    programName := cmd[..size] + [NUL];
    argc := CountArgs(cmd, size);
    ghost var words := Words(cmd);
    WordsCount(cmd);
    var slots := new seq<byte>[argc];
    slots[0] := programName;
    if cmd[size] != NUL {
      WordsScan(cmd, size);
      SplitArgs(cmd, size, slots, words[1..]);
    }
    argv := slots[..];
  }

  /** After a space that ends the program name, the remaining words are
      what the splitting loop's scan produces. */
  lemma WordsScan(cmd: seq<byte>, n: nat)
    requires Terminated(cmd) && n == NameLength(cmd) && n < Len(cmd) && cmd[n] != NUL
    ensures Words(cmd)[1..] == ScanArgs(cmd, n + 1, n + 1)
  {
    ScanArgsSplit(cmd, n + 1, n + 1);
    WordsRest(cmd);
  }

  /** The words after the program name are the pieces of the argument
      text. */
  lemma WordsRest(cmd: seq<byte>)
    requires Terminated(cmd) && cmd[NameLength(cmd)] != NUL
    ensures Words(cmd)[1..] == Split(cmd[NameLength(cmd) + 1..Len(cmd)], Space)
  {
    var n := NameLength(cmd);
    TailOfCons(cmd[..n], Split(ArgText(cmd), Space));
  }

  lemma TailOfCons(w: seq<byte>, rest: seq<seq<byte>>)
    ensures ([w] + rest)[1..] == rest
  {
  }

  /** The first loop of `execute`: the length of the program name. */
  method ProgramNameSize(cmd: seq<byte>) returns (size: nat)
    requires Terminated(cmd)
    ensures size == NameLength(cmd)
  {
    size := 0;
    while cmd[size] != NUL && cmd[size] != Space
      invariant size <= NameLength(cmd)
      invariant NameFrom(cmd, size) == NameLength(cmd)
      decreases Len(cmd) - size
    {
      size := size + 1;
    }
  }

  /** The second loop of `execute`: one plus the spaces from the end of
      the program name to the terminator. */
  method CountArgs(cmd: seq<byte>, size: nat) returns (argc: nat)
    requires Terminated(cmd) && size == NameLength(cmd)
    ensures argc == ArgCount(cmd)
  {
    var l := Len(cmd);
    var index := size;
    argc := 1;
    while cmd[index] != NUL
      invariant size <= index <= l
      invariant argc == 1 + Count(cmd[size..index], Space)
      decreases l - index
    {
      assert cmd[size..index + 1][..index - size] == cmd[size..index];
      if cmd[index] == Space {
        argc := argc + 1;
      }
      index := index + 1;
    }
  }

  /** The arguments the third loop of `execute` still produces when
      the current argument began at `begin` and the scan is at `i`:
      every space closes one, and the terminator closes the last. */
  function ScanArgs(cmd: seq<byte>, begin: nat, i: nat): (r: seq<seq<byte>>)
    requires Terminated(cmd) && begin <= i <= Len(cmd)
    ensures |r| >= 1
    decreases Len(cmd) - i
  {
    if cmd[i] == NUL then [cmd[begin..i]]
    else if cmd[i] == Space then [cmd[begin..i]] + ScanArgs(cmd, i + 1, i + 1)
    else ScanArgs(cmd, begin, i + 1)
  }

  /** The scan produces the pieces of the rest of the line cut at every
      space. */
  lemma {:induction false} ScanArgsSplit(cmd: seq<byte>, begin: nat, i: nat)
    requires Terminated(cmd) && begin <= i <= Len(cmd)
    requires forall k | begin <= k < i :: cmd[k] != Space
    ensures ScanArgs(cmd, begin, i) == Split(cmd[begin..Len(cmd)], Space)
    decreases Len(cmd) - i
  {
    var l := Len(cmd);
    if cmd[i] == NUL {
      SplitNoSep(cmd[begin..l], Space);
    } else if cmd[i] == Space {
      ScanArgsSplit(cmd, i + 1, i + 1);
      assert cmd[begin..l] == cmd[begin..i] + [Space] + cmd[i + 1..l];
      SplitFront(cmd[begin..i], Space, cmd[i + 1..l]);
    } else {
      ScanArgsSplit(cmd, begin, i + 1);
    }
  }

  /** The third loop of `execute`, from just past the space that ends
      the program name: every space or the terminator closes an argument,
      which is copied into the next slot. */
  method SplitArgs(cmd: seq<byte>, size: nat, slots: array<seq<byte>>, ghost args: seq<seq<byte>>)
    requires Terminated(cmd) && size < Len(cmd)
    requires args == ScanArgs(cmd, size + 1, size + 1)
    requires slots.Length == |args| + 1
    modifies slots
    ensures slots[0] == old(slots[0])
    ensures forall k | 1 <= k < slots.Length :: slots[k] == args[k - 1] + [NUL]
  {
    var begin := size + 1;
    var count := 1;
    var index := size + 1;
    ghost var done: seq<seq<byte>> := [];
    while true
      invariant size + 1 <= begin <= index <= Len(cmd)
      invariant count == |done| + 1 && args == done + ScanArgs(cmd, begin, index)
      invariant forall k | 1 <= k < count :: slots[k] == done[k - 1] + [NUL]
      invariant slots[0] == old(slots[0])
      decreases Len(cmd) - index
    {
      ScanArgsStep(cmd, begin, index);
      if cmd[index] == NUL {
        slots[count] := cmd[begin..index] + [NUL];
        ArgsDone(args, done, cmd[begin..index]);
        forall k | 1 <= k < slots.Length
          ensures slots[k] == args[k - 1] + [NUL]
        {
          if k < count { assert slots[k] == done[k - 1] + [NUL]; }
        }
        break;
      } else if cmd[index] == Space {
        slots[count] := cmd[begin..index] + [NUL];
        ArgsNext(args, done, cmd[begin..index], ScanArgs(cmd, index + 1, index + 1));
        done := done + [cmd[begin..index]];
        count := count + 1;
        begin := index + 1;
        assert args == done + ScanArgs(cmd, begin, index + 1);
      } else {
        assert args == done + ScanArgs(cmd, begin, index + 1);
      }
      index := index + 1;
    }
  }

  /** One step of the scan. */
  lemma ScanArgsStep(cmd: seq<byte>, begin: nat, i: nat)
    requires Terminated(cmd) && begin <= i <= Len(cmd)
    ensures cmd[i] == NUL ==> ScanArgs(cmd, begin, i) == [cmd[begin..i]]
    ensures cmd[i] == Space ==> (i < Len(cmd) &&
      ScanArgs(cmd, begin, i) == [cmd[begin..i]] + ScanArgs(cmd, i + 1, i + 1))
    ensures cmd[i] != NUL && cmd[i] != Space ==> (i < Len(cmd) &&
      ScanArgs(cmd, begin, i) == ScanArgs(cmd, begin, i + 1))
  {
  }

  lemma ArgsDone(args: seq<seq<byte>>, done: seq<seq<byte>>, w: seq<byte>)
    requires args == done + [w]
    ensures |args| == |done| + 1 && args[|done|] == w
    ensures forall k | 0 <= k < |done| :: args[k] == done[k]
  {
  }

  lemma ArgsNext(args: seq<seq<byte>>, done: seq<seq<byte>>, w: seq<byte>, rest: seq<seq<byte>>)
    requires args == done + ([w] + rest)
    ensures args == (done + [w]) + rest
    ensures |args| > |done| && args[|done|] == w
  {
  }

  /** A NUL-free text followed by a NUL is the C string of that text. */
  lemma ContentOf(t: seq<byte>)
    requires NoNul(t)
    ensures Terminated(t + [NUL]) && Content(t + [NUL]) == t
  {
    LenAt(t + [NUL], |t|);
    assert (t + [NUL])[..|t|] == t;
  }

  /** What `execute` does besides splitting: its result, the theme
      afterwards, and whether it printed the usage line. */
  datatype Outcome = Outcome(ok: bool, theme: byte, printedUsage: bool)

  /** The dispatch of `execute` on its words. */
  function Dispatch(words: seq<seq<byte>>, theme: byte): (o: Outcome)
    requires |words| >= 1
    ensures o.ok ==> (words[0] == Ascii("color") && |words| == 2
      && (o.theme == DefaultTheme <==> words[1] == Ascii("default"))
      && (o.theme == WindowsTheme <==> words[1] == Ascii("windows")))
    ensures !o.ok ==> o.theme == theme
    ensures o.printedUsage <==> words[0] == Ascii("color") && !o.ok
  {
    assert Ascii("default")[0] != Ascii("windows")[0];
    if words[0] != Ascii("color") then Outcome(false, theme, false)
    else if |words| != 2 then Outcome(false, theme, true)
    else if words[1] == Ascii("default") then Outcome(true, DefaultTheme, false)
    else if words[1] == Ascii("windows") then Outcome(true, WindowsTheme, false)
    else Outcome(false, theme, true)
  }

  /** `CommandRunner::execute(cmd)`, with the splitting loop guarded by
      the byte that ends the program name. */
  method Execute(cmd: seq<byte>, theme: byte) returns (o: Outcome)
    requires Terminated(cmd)
    ensures o == Dispatch(Words(cmd), theme)
  {
    var programName, argc, argv := SplitCommand(cmd);
    WordsClean(cmd);
    o := RunBuiltin(programName, argc, argv, theme, Words(cmd));
  }

  /** The dispatch part of `execute`, on the C strings of the words. */
  method RunBuiltin(programName: seq<byte>, argc: nat, argv: seq<seq<byte>>, theme: byte, ghost words: seq<seq<byte>>)
      returns (o: Outcome)
    requires |words| >= 1 && argc == |argv| == |words|
    requires forall i, j | 0 <= i < |words| && 0 <= j < |words[i]| :: words[i][j] != NUL
    requires programName == words[0] + [NUL]
    requires forall i | 0 <= i < |argv| :: argv[i] == words[i] + [NUL]
    ensures o == Dispatch(words, theme)
  {
    ContentOf(words[0]);
    ContentOf(Ascii("color"));
    var isColor := LibK.StrEq(programName, Ascii("color") + [NUL]);
    if isColor {
      o := RunColor(argc, argv, theme, words);
    } else {
      o := Outcome(false, theme, false);
    }
  }

  /** The `color` built-in: one argument naming the theme. */
  method RunColor(argc: nat, argv: seq<seq<byte>>, theme: byte, ghost words: seq<seq<byte>>)
      returns (o: Outcome)
    requires |words| >= 1 && argc == |argv| == |words| && words[0] == Ascii("color")
    requires forall i, j | 0 <= i < |words| && 0 <= j < |words[i]| :: words[i][j] != NUL
    requires forall i | 0 <= i < |argv| :: argv[i] == words[i] + [NUL]
    ensures o == Dispatch(words, theme)
  {
    if argc != 2 {
      return Outcome(false, theme, true);
    }
    var found, chosen := PickTheme(argv[1], words[1]);
    if found {
      o := Outcome(true, chosen, false);
    } else {
      o := Outcome(false, theme, true);
    }
  }

  /** The two theme names `color` accepts, compared with `K::streq`. */
  method PickTheme(arg: seq<byte>, ghost word: seq<byte>) returns (found: bool, chosen: byte)
    requires NoNul(word) && arg == word + [NUL]
    ensures found <==> word == Ascii("default") || word == Ascii("windows")
    ensures found ==> chosen == if word == Ascii("default") then DefaultTheme else WindowsTheme
  {
    ContentOf(word);
    ContentOf(Ascii("default"));
    var isDefault := LibK.StrEq(arg, Ascii("default") + [NUL]);
    if isDefault {
      return true, DefaultTheme;
    }
    ContentOf(Ascii("windows"));
    var isWindows := LibK.StrEq(arg, Ascii("windows") + [NUL]);
    return isWindows, WindowsTheme;
  }
}
