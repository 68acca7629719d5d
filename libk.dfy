/** The kernel's small C library: string length, digit test, string
    equality, string copy, and the variadic minimum. */
module LibK {
  import opened Bytes
  import opened CString

  /** `K::strlen`: counts the bytes before the terminator. */
  method StrLen(s: seq<byte>) returns (n: nat)
    requires Terminated(s)
    ensures n < |s| && s[n] == NUL
    ensures forall i | 0 <= i < n :: s[i] != NUL
    ensures n == Len(s)
  {
    n := 0;
    while s[n] != NUL
      invariant n <= Len(s)
      invariant forall i | 0 <= i < n :: s[i] != NUL
      decreases Len(s) - n
    {
      n := n + 1;
    }
  }

  /** `K::isdigit`: 1 for a decimal digit character, 0 otherwise. */
  function IsDigit(c: int): (r: int)
    ensures r == 0 || r == 1
  {
    if '0' as int <= c && c <= '9' as int then 1 else 0
  }

  /** The digits are exactly the ten characters of "0123456789". */
  lemma IsDigitDigits(c: int)
    ensures IsDigit(c) == 1 <==> c in Ascii("0123456789")
  {
    var d := Ascii("0123456789");
    if IsDigit(c) == 1 {
      assert d[c - '0' as int] == c;
    }
  }

  /** `K::streq`: walks both strings together and stops at the first
      difference or at a common terminator. */
  method StrEq(a: seq<byte>, b: seq<byte>) returns (r: bool)
    requires Terminated(a) && Terminated(b)
    ensures r <==> Content(a) == Content(b)
  {
    var i := 0;
    while true
      invariant i <= Len(a) && i <= Len(b)
      invariant forall j | 0 <= j < i :: a[j] == b[j]
      decreases Len(a) - i
    {
      if a[i] != b[i] {
        ContentsDiffer(a, b, i);
        return false;
      }
      if a[i] == NUL {
        ContentsAgree(a, b, i);
        return true;
      }
      i := i + 1;
    }
  }

  /** Strings that differ at an index no later than either terminator
      have different characters. */
  lemma ContentsDiffer(a: seq<byte>, b: seq<byte>, i: nat)
    requires Terminated(a) && Terminated(b) && i <= Len(a) && i <= Len(b)
    requires a[i] != b[i]
    ensures Content(a) != Content(b)
  {
    if i < Len(a) && i < Len(b) {
      assert Content(a)[i] != Content(b)[i];
    } else {
      assert |Content(a)| != |Content(b)|;
    }
  }

  /** Strings that agree up to a common terminator have the same
      characters. */
  lemma ContentsAgree(a: seq<byte>, b: seq<byte>, i: nat)
    requires Terminated(a) && Terminated(b) && i <= Len(a) && i <= Len(b)
    requires forall j | 0 <= j < i :: a[j] == b[j]
    requires a[i] == NUL && b[i] == NUL
    ensures Content(a) == Content(b)
  {
    assert Len(a) == i == Len(b);
    assert a[..i] == b[..i];
  }

  /** Strings equal in the sense of `K::streq` agree byte for byte up
      to and including their terminators. */
  lemma SameContentSameBytes(a: seq<byte>, b: seq<byte>)
    requires Terminated(a) && Terminated(b)
    requires Content(a) == Content(b)
    ensures Len(a) == Len(b) && forall i | 0 <= i <= Len(a) :: a[i] == b[i]
  {
    forall i | 0 <= i <= Len(a) ensures a[i] == b[i] {
      if i < Len(a) { assert Content(a)[i] == Content(b)[i]; }
    }
  }

  /** `K::strcpy(dest + at, src)`: copies the characters and the
      terminator of `src` to `dest` from index `at` on and returns the
      number of characters. */
  method StrCpy(dest: array<byte>, at: nat, src: seq<byte>) returns (copied: nat)
    requires Terminated(src) && at + Len(src) < dest.Length
    modifies dest
    ensures copied == Len(src)
    ensures dest[at..at + copied] == Content(src) && dest[at + copied] == NUL
    ensures dest[..at] == old(dest[..at])
    ensures dest[at + copied + 1..] == old(dest[at + copied + 1..])
  {
    copied := 0;
    var i := 0;
    while src[i] != NUL
      invariant i == copied <= Len(src)
      invariant dest[at..at + i] == src[..i]
      invariant dest[..at] == old(dest[..at])
      invariant dest[at + i..] == old(dest[at + i..])
      decreases Len(src) - i
    {
      dest[at + i] := src[i];
      copied := copied + 1;
      i := i + 1;
      assert dest[at + i..] == old(dest[at + i..]) by {
        assert forall k | at + i <= k < dest.Length :: dest[k] == old(dest[k]);
      }
    }
    dest[at + copied] := NUL;
  }

  /** `K::min` over its argument pack, written as a sequence of at least
      one value: the last argument alone, or the first compared with the
      minimum of the rest. */
  function Min(xs: seq<int>): int
    requires |xs| >= 1
  {
    if |xs| == 1 then xs[0]
    else
      var rest := Min(xs[1..]);
      if xs[0] < rest then xs[0] else rest
  }

  /** The minimum is no larger than any argument. */
  lemma {:induction false} MinBelow(xs: seq<int>)
    requires |xs| >= 1
    ensures forall i | 0 <= i < |xs| :: Min(xs) <= xs[i]
  {
    if |xs| > 1 {
      MinBelow(xs[1..]);
      assert forall i | 1 <= i < |xs| :: xs[i] == xs[1..][i - 1];
    }
  }

  /** The minimum is one of the arguments. */
  lemma {:induction false} MinIsArgument(xs: seq<int>)
    requires |xs| >= 1
    ensures Min(xs) in xs
  {
    if |xs| > 1 {
      MinIsArgument(xs[1..]);
    }
  }
}
