/** The `echo` user program: it measures its arguments, builds one
    line holding each argument followed by a space and a final line
    break, and writes that line to descriptor 2. */
module Echo {
  import opened Bytes
  import opened CString

  /** The arguments after the program name. */
  function UserArgs(argv: seq<seq<byte>>): seq<seq<byte>> {
    if |argv| == 0 then [] else argv[1..]
  }

  predicate AllTerminated(args: seq<seq<byte>>) {
    forall i | 0 <= i < |args| :: Terminated(args[i])
  }

  /** Each argument's characters followed by one space, in order. */
  function ArgsText(args: seq<seq<byte>>): seq<byte>
    requires AllTerminated(args)
  {
    if |args| == 0 then []
    else ArgsText(args[..|args| - 1]) + Content(args[|args| - 1]) + [' ' as int]
  }

  /** The count the first loop of `main` reaches before the line break:
      every argument's length plus one for its space. */
  function ArgsLength(args: seq<seq<byte>>): nat
    requires AllTerminated(args)
  {
    if |args| == 0 then 0
    else ArgsLength(args[..|args| - 1]) + Len(args[|args| - 1]) + 1
  }

  /** The counting loop and the filling loop agree: the text of the
      arguments is exactly as long as counted. */
  lemma {:induction false} ArgsTextLength(args: seq<seq<byte>>)
    requires AllTerminated(args)
    ensures |ArgsText(args)| == ArgsLength(args)
  {
    if |args| > 0 {
      ArgsTextLength(args[..|args| - 1]);
    }
  }

  /** An argument free of spaces and NULs is found again, between
      spaces, by cutting the line at its spaces. */
  lemma ArgsTextSplits(args: seq<seq<byte>>)
    requires AllTerminated(args)
    requires forall i | 0 <= i < |args| :: NoSpace(Content(args[i]))
    ensures Split(ArgsText(args), ' ' as int) == Contents(args) + [[]]
  {
    SplitArgsThen(args, []);
    assert ArgsText(args) + [] == ArgsText(args);
  }

  predicate NoSpace(w: seq<byte>) {
    forall j | 0 <= j < |w| :: w[j] != ' ' as int
  }

  /** The arguments' text followed by one more space-free word splits
      into the arguments and that word. */
  lemma {:induction false} SplitArgsThen(args: seq<seq<byte>>, w: seq<byte>)
    requires AllTerminated(args)
    requires forall i | 0 <= i < |args| :: NoSpace(Content(args[i]))
    requires NoSpace(w)
    ensures Split(ArgsText(args) + w, ' ' as int) == Contents(args) + [w]
  {
    if |args| == 0 {
      SplitNoSep(w, ' ' as int);
      assert ArgsText(args) + w == w;
    } else {
      var init, last := args[..|args| - 1], args[|args| - 1];
      var u := ArgsText(init) + Content(last);
      assert ArgsText(args) + w == u + [' ' as int] + w;
      SplitAppendSep(u, ' ' as int, w);
      SplitArgsThen(init, Content(last));
      assert Contents(args) == Contents(init) + [Content(last)];
    }
  }

  /** The characters of each argument. */
  function Contents(args: seq<seq<byte>>): (r: seq<seq<byte>>)
    requires AllTerminated(args)
    ensures |r| == |args| && forall i | 0 <= i < |args| :: r[i] == Content(args[i])
  {
    if |args| == 0 then [] else Contents(args[..|args| - 1]) + [Content(args[|args| - 1])]
  }

  /** `main(argc, argv)`: returns the counted length, the buffer built
      (its `len + 1` bytes), and the bytes written to descriptor 2. */
  method Echo(argv: seq<seq<byte>>) returns (len: nat, buffer: seq<byte>, written: seq<byte>)
    requires AllTerminated(argv)
    ensures AllTerminated(UserArgs(argv))
    ensures len == ArgsLength(UserArgs(argv)) + 1
    ensures |buffer| == len + 1 && buffer[len] == NUL && buffer[len - 1] == '\n' as int
    ensures buffer[..len - 1] == ArgsText(UserArgs(argv))
    ensures written == buffer[..len]
  {
    ghost var args := UserArgs(argv);
    len := MeasureArgs(argv);
    len := len + 1;

    var buf := new byte[len + 1];
    buf[len] := NUL;
    var index := FillArgs(buf, argv, args);
    ghost var text := buf[..index];
    buf[index] := '\n' as int;
    assert buf[..index] == text;
    buffer := buf[..];
    written := buf[..len];
  }

  /** The filling loop of `main`: each argument after the program name
      copied into `buf`, followed by a space; the last byte is kept. */
  method FillArgs(buf: array<byte>, argv: seq<seq<byte>>, ghost args: seq<seq<byte>>) returns (index: nat)
    requires AllTerminated(argv) && args == UserArgs(argv) && AllTerminated(args)
    requires ArgsLength(args) < buf.Length
    modifies buf
    ensures index == ArgsLength(args) && buf[..index] == ArgsText(args)
    ensures buf[buf.Length - 1] == old(buf[buf.Length - 1])
  {
    assert forall i | 0 <= i < |args| :: args[i] == argv[i + 1];
    index := 0;
    var i := 1;
    while i < |argv|
      invariant 1 <= i && i - 1 <= |args|
      invariant index == ArgsLength(args[..i - 1]) <= ArgsLength(args)
      invariant buf[..index] == ArgsText(args[..i - 1])
      invariant buf[buf.Length - 1] == old(buf[buf.Length - 1])
    {
      ArgsLengthPrefix(args, i);
      ArgsTextPrefix(args, i);
      assert argv[i] == args[i - 1];
      index := CopyArg(buf, index, argv[i]);
      ghost var copied := buf[..index];
      buf[index] := ' ' as int;
      assert buf[..index + 1] == copied + [' ' as int];
      index := index + 1;
      i := i + 1;
    }
    assert args[..i - 1] == args;
  }

  /** The text of the first `i` arguments: that of the first `i - 1`,
      then argument `i - 1` and a space. */
  lemma ArgsTextPrefix(args: seq<seq<byte>>, i: nat)
    requires AllTerminated(args) && 1 <= i <= |args|
    ensures ArgsText(args[..i]) == ArgsText(args[..i - 1]) + Content(args[i - 1]) + [' ' as int]
  {
    assert args[..i][..i - 1] == args[..i - 1];
  }

  /** The inner filling loop of `main`: one argument's characters. */
  method CopyArg(buf: array<byte>, index: nat, arg: seq<byte>) returns (next: nat)
    requires Terminated(arg) && index + Len(arg) <= buf.Length
    modifies buf
    ensures next == index + Len(arg)
    ensures buf[..next] == old(buf[..index]) + Content(arg)
    ensures forall k | next <= k < buf.Length :: buf[k] == old(buf[k])
  {
    next := index;
    var j := 0;
    while arg[j] != NUL
      invariant j <= Len(arg) && next == index + j
      invariant buf[..next] == old(buf[..index]) + arg[..j]
      invariant forall k | next <= k < buf.Length :: buf[k] == old(buf[k])
      decreases Len(arg) - j
    {
      buf[next] := arg[j];
      assert arg[..j + 1] == arg[..j] + [arg[j]];
      next := next + 1;
      j := j + 1;
    }
  }

  /** The counting loops of `main`: each argument's characters, and one
      more for its space. */
  method MeasureArgs(argv: seq<seq<byte>>) returns (len: nat)
    requires AllTerminated(argv)
    ensures AllTerminated(UserArgs(argv))
    ensures len == ArgsLength(UserArgs(argv))
  {
    ghost var args := UserArgs(argv);
    assert forall i | 0 <= i < |args| :: args[i] == argv[i + 1];
    len := 0;
    var i := 1;
    while i < |argv|
      invariant 1 <= i && i - 1 <= |args|
      invariant len == ArgsLength(args[..i - 1])
    {
      var arg := argv[i];
      var j := 0;
      while arg[j] != NUL
        invariant j <= Len(arg)
        invariant len == ArgsLength(args[..i - 1]) + j
        decreases Len(arg) - j
      {
        len := len + 1;
        j := j + 1;
      }
      len := len + 1;
      assert args[..i][..i - 1] == args[..i - 1];
      i := i + 1;
    }
    assert args[..i - 1] == args;
  }

  /** The counted length only grows as arguments are taken in. */
  lemma ArgsLengthPrefix(args: seq<seq<byte>>, i: nat)
    requires AllTerminated(args) && 1 <= i <= |args|
    ensures ArgsLength(args[..i]) == ArgsLength(args[..i - 1]) + Len(args[i - 1]) + 1
    ensures ArgsLength(args[..i]) <= ArgsLength(args)
  {
    assert args[..i][..i - 1] == args[..i - 1];
    ArgsLengthMonotone(args, i);
  }

  lemma {:induction false} ArgsLengthMonotone(args: seq<seq<byte>>, i: nat)
    requires AllTerminated(args) && i <= |args|
    ensures ArgsLength(args[..i]) <= ArgsLength(args)
  {
    if i < |args| {
      var init := args[..|args| - 1];
      assert args[..i] == init[..i];
      ArgsLengthMonotone(init, i);
    } else {
      assert args[..i] == args;
    }
  }
}
