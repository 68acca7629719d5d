/** Machine-level integers of the kernel: bytes, 32-bit wrap-around,
    the signed reinterpretation of a 32-bit value, and little-endian
    16/32-bit fields inside byte buffers (the x86 layout every on-disk
    structure of the file system uses). */
module Bytes {

  /** A pointer that may be null, or a lookup that may fail. */
  datatype Option<T> = None | Some(value: T)

  /** A C `char` / `uint8_t`. */
  type byte = b: int | 0 <= b < 256

  const Two16: int := 0x1_0000
  const Two31: int := 0x8000_0000
  const Two32: int := 0x1_0000_0000

  /** The value an unbounded result takes once stored in a `uint32_t`. */
  function U32(x: int): (r: nat)
    ensures r < Two32
    ensures 0 <= x < Two32 ==> r == x
    ensures (r - x) % Two32 == 0
  {
    x % Two32
  }

  /** Wrapping a summand first wraps the sum the same way. */
  lemma U32Sum(x: int, y: int)
    ensures U32(U32(x) + y) == U32(x + y)
  {
    var q := x / Two32;
    assert x == q * Two32 + U32(x);
    assert x + y == (U32(x) + y) + q * Two32;
  }

  /** A `uint32_t` read back as a two's-complement `int`. */
  function I32(x: nat): (r: int)
    requires x < Two32
    ensures -Two31 <= r < Two31
    ensures U32(r) == x
    ensures x < Two31 ==> r == x
  {
    if x < Two31 then x else x - Two32
  }

  /** C's integer division, which truncates toward zero. */
  function CDiv(a: int, b: int): (q: int)
    requires b > 0
    ensures a >= 0 ==> 0 <= a - q * b < b
    ensures a < 0 ==> -b < a - q * b <= 0
  {
    if a >= 0 then a / b else -((-a) / b)
  }

  /** Little-endian 16-bit field at `off`. */
  function LE16(s: seq<byte>, off: nat): (r: nat)
    requires off + 2 <= |s|
    ensures r < Two16
  {
    s[off] as int + 256 * s[off + 1] as int
  }

  /** Little-endian 32-bit field at `off`. */
  function LE32(s: seq<byte>, off: nat): (r: nat)
    requires off + 4 <= |s|
    ensures r < Two32
  {
    s[off] as int + 256 * s[off + 1] as int + 65536 * s[off + 2] as int + 16777216 * s[off + 3] as int
  }

  /** The two bytes of a `uint16_t` store of `v` (the value is truncated). */
  function Bytes16(v: int): (r: seq<byte>)
    ensures |r| == 2
  {
    var u := v % Two16;
    [u % 256, u / 256]
  }

  /** The four bytes of a `uint32_t` store of `v` (the value is truncated). */
  function Bytes32(v: int): (r: seq<byte>)
    ensures |r| == 4
  {
    var u := U32(v);
    var q1 := u / 256;
    var q2 := q1 / 256;
    [u % 256, q1 % 256, q2 % 256, q2 / 256]
  }

  /** `s` with `v` written over it at `off`. */
  function Splice(s: seq<byte>, off: nat, v: seq<byte>): (r: seq<byte>)
    requires off + |v| <= |s|
    ensures |r| == |s|
  {
    seq(|s|, i requires 0 <= i < |s| => if off <= i < off + |v| then v[i - off] else s[i])
  }

  /** A write holds the new bytes in its range and the old ones outside. */
  lemma SpliceAt(s: seq<byte>, off: nat, v: seq<byte>)
    requires off + |v| <= |s|
    ensures Splice(s, off, v)[off..off + |v|] == v
    ensures forall i | off <= i < off + |v| :: Splice(s, off, v)[i] == v[i - off]
    ensures forall i | 0 <= i < |s| && !(off <= i < off + |v|) :: Splice(s, off, v)[i] == s[i]
  {
  }

  /** Two writes side by side are one write of both. */
  lemma SpliceAdjacent(s: seq<byte>, off: nat, a: seq<byte>, b: seq<byte>)
    requires off + |a| + |b| <= |s|
    ensures Splice(Splice(s, off, a), off + |a|, b) == Splice(s, off, a + b)
  {
    var l := Splice(Splice(s, off, a), off + |a|, b);
    var r := Splice(s, off, a + b);
    SpliceAt(s, off, a);
    SpliceAt(Splice(s, off, a), off + |a|, b);
    SpliceAt(s, off, a + b);
    forall k | 0 <= k < |s| ensures l[k] == r[k] {
      if off <= k < off + |a| {
        assert (a + b)[k - off] == a[k - off];
      } else if off + |a| <= k < off + |a| + |b| {
        assert (a + b)[k - off] == b[k - off - |a|];
      }
    }
  }

  /** An empty write changes nothing. */
  lemma SpliceEmpty(s: seq<byte>, off: nat)
    requires off <= |s|
    ensures Splice(s, off, []) == s
  {
    assert s[..off] + s[off..] == s;
  }

  /** A write leaves the bytes before it as they were. */
  lemma SpliceKeeps(s: seq<byte>, off: nat, v: seq<byte>, i: nat, j: nat)
    requires off + |v| <= |s| && i <= j <= off
    ensures Splice(s, off, v)[i..j] == s[i..j]
  {
    SpliceAt(s, off, v);
    assert forall k | i <= k < j :: Splice(s, off, v)[k] == s[k];
  }

  /** One byte stored is a one-byte write. */
  lemma SpliceOne(s: seq<byte>, off: nat, x: byte)
    requires off < |s|
    ensures s[off := x] == Splice(s, off, [x])
  {
    SpliceAt(s, off, [x]);
    assert forall k | 0 <= k < |s| :: s[off := x][k] == Splice(s, off, [x])[k];
  }

  /** Storing a 16-bit value and loading it back gives it modulo 2^16. */
  lemma LE16Bytes16(s: seq<byte>, off: nat, v: int)
    requires off + 2 <= |s|
    ensures LE16(Splice(s, off, Bytes16(v)), off) == v % Two16
  {
    var r := Splice(s, off, Bytes16(v));
    SpliceAt(s, off, Bytes16(v));
    assert r[off] == Bytes16(v)[0] && r[off + 1] == Bytes16(v)[1];
  }

  /** Storing a 32-bit value and loading it back gives it modulo 2^32. */
  lemma LE32Bytes32(s: seq<byte>, off: nat, v: int)
    requires off + 4 <= |s|
    ensures LE32(Splice(s, off, Bytes32(v)), off) == U32(v)
  {
    var r := Splice(s, off, Bytes32(v));
    SpliceAt(s, off, Bytes32(v));
    var u := U32(v);
    var q1 := u / 256;
    var q2 := q1 / 256;
    assert r[off] == u % 256 && r[off + 1] == q1 % 256;
    assert r[off + 2] == q2 % 256 && r[off + 3] == q2 / 256;
    assert u == 256 * q1 + u % 256;
    assert q1 == 256 * q2 + q1 % 256;
    assert q2 == 256 * (q2 / 256) + q2 % 256;
  }

  /** A 32-bit field load only looks at its own four bytes. */
  lemma LE32Local(s: seq<byte>, t: seq<byte>, off: nat, toff: nat)
    requires off + 4 <= |s| && toff + 4 <= |t|
    requires s[off..off + 4] == t[toff..toff + 4]
    ensures LE32(s, off) == LE32(t, toff)
  {
    assert s[off] == s[off..off + 4][0] && s[off + 3] == s[off..off + 4][3];
    assert s[off + 1] == s[off..off + 4][1] && s[off + 2] == s[off..off + 4][2];
    assert t[toff] == t[toff..toff + 4][0] && t[toff + 3] == t[toff..toff + 4][3];
    assert t[toff + 1] == t[toff..toff + 4][1] && t[toff + 2] == t[toff..toff + 4][2];
  }

  /** A 16-bit field load only looks at its own two bytes. */
  lemma LE16Local(s: seq<byte>, t: seq<byte>, off: nat, toff: nat)
    requires off + 2 <= |s| && toff + 2 <= |t|
    requires s[off..off + 2] == t[toff..toff + 2]
    ensures LE16(s, off) == LE16(t, toff)
  {
    assert s[off] == s[off..off + 2][0] && s[off + 1] == s[off..off + 2][1];
    assert t[toff] == t[toff..toff + 2][0] && t[toff + 1] == t[toff..toff + 2][1];
  }
}
