/** NUL-terminated C strings as byte sequences, and the splitting of a
    string at a separator that the command runner (at ' ') and the path
    walker (at '/') both perform. */
module CString {
  import opened Bytes

  const NUL: byte := 0
  /** The path separator. */
  const Slash: byte := '/' as int

  /** A buffer that holds a C string: some byte of it is NUL. */
  predicate Terminated(s: seq<byte>) {
    exists i :: 0 <= i < |s| && s[i] == NUL
  }

  /** The index of the first NUL: the C length of the string. */
  function Len(s: seq<byte>): (n: nat)
    requires Terminated(s)
    ensures n < |s| && s[n] == NUL
    ensures forall i | 0 <= i < n :: s[i] != NUL
  {
    if s[0] == NUL then 0
    else
      assert Terminated(s[1..]) by {
        var i :| 0 <= i < |s| && s[i] == NUL;
        assert s[1..][i - 1] == NUL;
      }
      1 + Len(s[1..])
  }

  /** The characters of the string, without its terminator. */
  function Content(s: seq<byte>): (t: seq<byte>)
    requires Terminated(s)
    ensures NoNul(t) && t + [NUL] == s[..Len(s) + 1]
  {
    s[..Len(s)]
  }

  predicate NoNul(t: seq<byte>) {
    forall i | 0 <= i < |t| :: t[i] != NUL
  }

  /** The C string whose characters are `t`. */
  function Make(t: seq<byte>): (s: seq<byte>)
    requires NoNul(t)
    ensures Terminated(s) && Len(s) == |t| && Content(s) == t
  {
    var s := t + [NUL];
    assert s[|t|] == NUL;
    LenAt(s, |t|);
    s
  }

  /** A NUL preceded only by non-NUL bytes is the first NUL. */
  lemma LenAt(s: seq<byte>, n: nat)
    requires n < |s| && s[n] == NUL && NoNul(s[..n])
    ensures Terminated(s) && Len(s) == n
  {
    assert forall i | 0 <= i < n :: s[..n][i] == s[i];
  }

  /** The bytes of a text literal (every character below 256). */
  function Ascii(t: string): (s: seq<byte>)
    requires forall i | 0 <= i < |t| :: t[i] as int < 256
    ensures |s| == |t| && forall i | 0 <= i < |t| :: s[i] == t[i] as int
  {
    seq(|t|, i requires 0 <= i < |t| => t[i] as int)
  }

  /** Number of occurrences of `c` in `t`. */
  function Count(t: seq<byte>, c: byte): nat {
    if |t| == 0 then 0
    else Count(t[..|t| - 1], c) + (if t[|t| - 1] == c then 1 else 0)
  }

  /** Counting from the front. */
  lemma {:induction false} CountFront(c: byte, t: seq<byte>, x: byte)
    ensures Count([c] + t, x) == (if c == x then 1 else 0) + Count(t, x)
  {
    if |t| > 0 {
      var u := [c] + t;
      assert u[..|u| - 1] == [c] + t[..|t| - 1];
      CountFront(c, t[..|t| - 1], x);
    }
  }

  /** A prefix has no more occurrences than the whole. */
  lemma {:induction false} CountPrefix(t: seq<byte>, i: nat, x: byte)
    requires i <= |t|
    ensures Count(t[..i], x) <= Count(t, x)
  {
    if i < |t| {
      assert t[..|t| - 1][..i] == t[..i];
      CountPrefix(t[..|t| - 1], i, x);
    } else {
      assert t[..i] == t;
    }
  }

  /** `t` cut at every `sep`: the pieces between successive separators,
      the first starting at 0 and the last ending at the end of `t`.
      Defined from the right so that it follows a left-to-right scan. */
  function Split(t: seq<byte>, sep: byte): (r: seq<seq<byte>>)
    ensures |r| >= 1
  {
    if |t| == 0 then [[]] else SplitStep(Split(t[..|t| - 1], sep), t[|t| - 1], sep)
  }

  /** The pieces once one more byte `c` is scanned: a separator starts a
      new empty piece, any other byte extends the last one. */
  function SplitStep(p: seq<seq<byte>>, c: byte, sep: byte): (r: seq<seq<byte>>)
    requires |p| >= 1
    ensures |r| >= 1
  {
    if c == sep then p + [[]] else p[..|p| - 1] + [p[|p| - 1] + [c]]
  }

  /** The pieces glued back together with `sep` between them. */
  function Join(ps: seq<seq<byte>>, sep: byte): seq<byte>
    requires |ps| >= 1
  {
    if |ps| == 1 then ps[0] else Join(ps[..|ps| - 1], sep) + [sep] + ps[|ps| - 1]
  }

  /** Splitting makes one more piece than there are separators. */
  lemma {:induction false} SplitCount(t: seq<byte>, sep: byte)
    ensures |Split(t, sep)| == Count(t, sep) + 1
  {
    if |t| > 0 { SplitCount(t[..|t| - 1], sep); }
  }

  /** No piece contains the separator. */
  lemma {:induction false} SplitPiecesFree(t: seq<byte>, sep: byte)
    ensures forall k, j | 0 <= k < |Split(t, sep)| && 0 <= j < |Split(t, sep)[k]| :: Split(t, sep)[k][j] != sep
  {
    if |t| > 0 { SplitPiecesFree(t[..|t| - 1], sep); }
  }

  /** Gluing the pieces gives the string back. */
  lemma {:induction false} JoinSplit(t: seq<byte>, sep: byte)
    ensures Join(Split(t, sep), sep) == t
  {
    if |t| > 0 {
      var u, c := t[..|t| - 1], t[|t| - 1];
      var p := Split(u, sep);
      JoinSplit(u, sep);
      assert Split(t, sep) == SplitStep(p, c, sep);
      assert t == u + [c];
      if c == sep {
        JoinSnoc(p, [], sep);
        assert Join(p, sep) + [sep] + [] == t;
      } else {
        JoinExtendLast(p, sep, c);
      }
    }
  }

  /** Gluing one more piece on the end. */
  lemma JoinSnoc(p: seq<seq<byte>>, x: seq<byte>, sep: byte)
    requires |p| >= 1
    ensures Join(p + [x], sep) == Join(p, sep) + [sep] + x
  {
    assert (p + [x])[..|p|] == p;
  }

  /** Extending the last piece extends the glued string. */
  lemma JoinExtendLast(p: seq<seq<byte>>, sep: byte, c: byte)
    requires |p| >= 1
    ensures Join(p[..|p| - 1] + [p[|p| - 1] + [c]], sep) == Join(p, sep) + [c]
  {
    var q := p[..|p| - 1] + [p[|p| - 1] + [c]];
    assert q[..|q| - 1] == p[..|p| - 1];
  }

  /** Splitting the glued pieces gives the pieces back, when none of them
      contains the separator. */
  lemma {:induction false} SplitJoin(ps: seq<seq<byte>>, sep: byte)
    requires |ps| >= 1
    requires forall k, j | 0 <= k < |ps| && 0 <= j < |ps[k]| :: ps[k][j] != sep
    ensures Split(Join(ps, sep), sep) == ps
  {
    if |ps| == 1 {
      SplitNoSep(ps[0], sep);
    } else {
      var init := ps[..|ps| - 1];
      SplitJoin(init, sep);
      SplitAppendSep(Join(init, sep), sep, ps[|ps| - 1]);
      assert init + [ps[|ps| - 1]] == ps;
    }
  }

  /** A separator-free first piece and a separator come off the front. */
  lemma {:induction false} SplitFront(w: seq<byte>, sep: byte, t: seq<byte>)
    requires forall j | 0 <= j < |w| :: w[j] != sep
    ensures Split(w + [sep] + t, sep) == [w] + Split(t, sep)
  {
    var u := w + [sep] + t;
    if |t| == 0 {
      assert u == w + [sep] + [];
      SplitAppendSep(w, sep, []);
      SplitNoSep(w, sep);
    } else {
      var t' := t[..|t| - 1];
      SplitFront(w, sep, t');
      assert u[..|u| - 1] == w + [sep] + t';
      SplitFrontStep(u, t, w, sep);
    }
  }

  /** Strings ending in the same byte, whose fronts split alike but for
      one extra first piece, split alike but for that piece. */
  lemma SplitFrontStep(u: seq<byte>, t: seq<byte>, w: seq<byte>, sep: byte)
    requires |u| > 0 && |t| > 0 && u[|u| - 1] == t[|t| - 1]
    requires Split(u[..|u| - 1], sep) == [w] + Split(t[..|t| - 1], sep)
    ensures Split(u, sep) == [w] + Split(t, sep)
  {
    ConsSplitStep(w, Split(t[..|t| - 1], sep), t[|t| - 1], sep);
  }

  /** A step of the scan leaves a first piece in front alone. */
  lemma ConsSplitStep(w: seq<byte>, p: seq<seq<byte>>, c: byte, sep: byte)
    requires |p| >= 1
    ensures SplitStep([w] + p, c, sep) == [w] + SplitStep(p, c, sep)
  {
    var q := [w] + p;
    if c != sep {
      assert q[..|q| - 1] == [w] + p[..|p| - 1];
      assert q[|q| - 1] == p[|p| - 1];
    } else {
      assert q + [[]] == [w] + (p + [[]]);
    }
  }

  /** A string free of the separator is one piece. */
  lemma {:induction false} SplitNoSep(t: seq<byte>, sep: byte)
    requires forall j | 0 <= j < |t| :: t[j] != sep
    ensures Split(t, sep) == [t]
  {
    if |t| > 0 {
      SplitNoSep(t[..|t| - 1], sep);
      assert t[..|t| - 1] + [t[|t| - 1]] == t;
    }
  }

  /** Appending a separator and a separator-free piece appends the piece. */
  lemma {:induction false} SplitAppendSep(u: seq<byte>, sep: byte, w: seq<byte>)
    requires forall j | 0 <= j < |w| :: w[j] != sep
    ensures Split(u + [sep] + w, sep) == Split(u, sep) + [w]
  {
    if |w| == 0 {
      assert (u + [sep] + w)[..|u|] == u;
    } else {
      var w' := w[..|w| - 1];
      SplitAppendSep(u, sep, w');
      assert (u + [sep] + w)[..|u + [sep] + w| - 1] == u + [sep] + w';
      var p := Split(u, sep) + [w'];
      assert p[..|p| - 1] == Split(u, sep);
      assert w' + [w[|w| - 1]] == w;
    }
  }

  /** Cutting at a separator: the pieces before it, then the pieces
      after it. */
  lemma {:induction false} SplitAppend(u: seq<byte>, sep: byte, w: seq<byte>)
    ensures Split(u + [sep] + w, sep) == Split(u, sep) + Split(w, sep)
  {
    var v := u + [sep] + w;
    if |w| == 0 {
      assert v[..|v| - 1] == u;
    } else {
      var w' := w[..|w| - 1];
      SplitAppend(u, sep, w');
      assert v[..|v| - 1] == u + [sep] + w';
      SplitAppendStep(v, w, Split(u, sep), sep);
    }
  }

  /** Strings ending in the same byte, whose fronts split alike but for
      some pieces in front, split alike but for those pieces. */
  lemma SplitAppendStep(v: seq<byte>, w: seq<byte>, p: seq<seq<byte>>, sep: byte)
    requires |v| > 0 && |w| > 0 && v[|v| - 1] == w[|w| - 1]
    requires Split(v[..|v| - 1], sep) == p + Split(w[..|w| - 1], sep)
    ensures Split(v, sep) == p + Split(w, sep)
  {
    AppendSplitStep(p, Split(w[..|w| - 1], sep), w[|w| - 1], sep);
  }

  /** A step of the scan leaves the pieces in front alone. */
  lemma AppendSplitStep(p: seq<seq<byte>>, q: seq<seq<byte>>, c: byte, sep: byte)
    requires |q| >= 1
    ensures SplitStep(p + q, c, sep) == p + SplitStep(q, c, sep)
  {
    var r := p + q;
    if c != sep {
      assert r[..|r| - 1] == p + q[..|q| - 1];
      assert r[|r| - 1] == q[|q| - 1];
    } else {
      assert r + [[]] == p + (q + [[]]);
    }
  }
}
