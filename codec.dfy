/**
 * The 4-byte and 2-byte integer codec the file system uses to lay integers
 * out in block buffers (SysLib.int2bytes / bytes2int / short2bytes /
 * bytes2short). SysLib is not part of this model; the byte order chosen here
 * is big-endian two's complement, and the round-trip lemmas below are what the
 * rest of the model relies on.
 */
module Codec {
  import opened JavaInts

  /** Unsigned value of four bytes starting at `off`, most significant first. */
  function Unsigned32(s: seq<byte>, off: int): (u: int)
    requires 0 <= off && off + 4 <= |s|
    ensures 0 <= u < TWO_32
  {
    ((s[off] as int * 256 + s[off + 1]) * 256 + s[off + 2]) * 256 + s[off + 3]
  }

  /** The big-endian bytes of an unsigned value below 2^32. */
  function Bytes32(u: int): (s: seq<byte>)
    requires 0 <= u < TWO_32
    ensures |s| == 4
  {
    var q1 := u / 256;
    var q2 := q1 / 256;
    [q2 / 256, q2 % 256, q1 % 256, u % 256]
  }

  /** SysLib.int2bytes: the four bytes of a Java int. */
  function IntBytes(v: int32): (s: seq<byte>)
    ensures |s| == 4
  {
    Bytes32(if v < 0 then v + TWO_32 else v)
  }

  /** SysLib.bytes2int: the Java int held in four bytes at `off`. */
  function GetInt(s: seq<byte>, off: int): (v: int32)
    requires 0 <= off && off + 4 <= |s|
  {
    var u := Unsigned32(s, off);
    if u >= TWO_31 then u - TWO_32 else u
  }

  /** SysLib.short2bytes: the two bytes of a Java short. */
  function ShortBytes(v: short): (s: seq<byte>)
    ensures |s| == 2
  {
    var u := if v < 0 then v + TWO_16 else v;
    [u / 256, u % 256]
  }

  /** SysLib.bytes2short: the Java short held in two bytes at `off`. */
  function GetShort(s: seq<byte>, off: int): (v: short)
    requires 0 <= off && off + 2 <= |s|
  {
    var u := s[off] as int * 256 + s[off + 1];
    if u >= TWO_15 then u - TWO_16 else u
  }

  /** `s` with the bytes at `off` replaced by `b`, and every other byte kept. */
  function Splice(s: seq<byte>, off: int, b: seq<byte>): (r: seq<byte>)
    requires 0 <= off && off + |b| <= |s|
    ensures |r| == |s|
    ensures r[off..off + |b|] == b
    ensures forall k | 0 <= k < |s| && !(off <= k < off + |b|) :: r[k] == s[k]
  {
    s[..off] + b + s[off + |b|..]
  }

  /** Writing `b` and then `x` right after it is writing `b + x`. */
  lemma SpliceExtend(s: seq<byte>, off: int, b: seq<byte>, x: seq<byte>)
    requires 0 <= off && off + |b| + |x| <= |s|
    ensures Splice(Splice(s, off, b), off + |b|, x) == Splice(s, off, b + x)
  {
    var t := Splice(s, off, b);
    assert t[..off + |b|] == s[..off] + b;
    assert t[off + |b| + |x|..] == s[off + |b| + |x|..];
  }

  /** Everything up to the end of the written bytes: what was before them, then them. */
  lemma SplicePrefix(s: seq<byte>, off: int, b: seq<byte>)
    requires 0 <= off && off + |b| <= |s|
    ensures Splice(s, off, b)[..off + |b|] == s[..off] + b
  {
  }

  /** `s` with the four bytes at `off` replaced by the encoding of `v`. */
  function PutInt(s: seq<byte>, off: int, v: int32): (r: seq<byte>)
    requires 0 <= off && off + 4 <= |s|
    ensures |r| == |s|
  {
    Splice(s, off, IntBytes(v))
  }

  /** `s` with the two bytes at `off` replaced by the encoding of `v`. */
  function PutShort(s: seq<byte>, off: int, v: short): (r: seq<byte>)
    requires 0 <= off && off + 2 <= |s|
    ensures |r| == |s|
  {
    Splice(s, off, ShortBytes(v))
  }

  lemma Bytes32RoundTrip(u: int)
    requires 0 <= u < TWO_32
    ensures Unsigned32(Bytes32(u), 0) == u
  {
    var q1 := u / 256;
    var q2 := q1 / 256;
    assert u == q1 * 256 + u % 256;
    assert q1 == q2 * 256 + q1 % 256;
    assert q2 == (q2 / 256) * 256 + q2 % 256;
  }

  /** Decoding what int2bytes wrote gives back the int. */
  lemma {:induction false} IntRoundTrip(v: int32)
    ensures GetInt(IntBytes(v), 0) == v
  {
    Bytes32RoundTrip(if v < 0 then v + TWO_32 else v);
  }

  /** Encoding what bytes2int read gives back the same four bytes. */
  lemma {:induction false} IntBytesOfGetInt(s: seq<byte>, off: int)
    requires 0 <= off && off + 4 <= |s|
    ensures IntBytes(GetInt(s, off)) == s[off..off + 4]
  {
    var u := Unsigned32(s, off);
    var a: int, b: int, c: int, d: int := s[off], s[off + 1], s[off + 2], s[off + 3];
    var q1 := (a * 256 + b) * 256 + c;
    assert u == q1 * 256 + d;
    assert u / 256 == q1 && u % 256 == d;
    assert q1 / 256 == a * 256 + b && q1 % 256 == c;
    assert (a * 256 + b) / 256 == a && (a * 256 + b) % 256 == b;
    assert IntBytes(GetInt(s, off)) == Bytes32(u);
  }

  /** Decoding what short2bytes wrote gives back the short. */
  lemma {:induction false} ShortRoundTrip(v: short)
    ensures GetShort(ShortBytes(v), 0) == v
  {
    var u := if v < 0 then v + TWO_16 else v;
    assert u == (u / 256) * 256 + u % 256;
  }

  /** Encoding what bytes2short read gives back the same two bytes. */
  lemma {:induction false} ShortBytesOfGetShort(s: seq<byte>, off: int)
    requires 0 <= off && off + 2 <= |s|
    ensures ShortBytes(GetShort(s, off)) == s[off..off + 2]
  {
    var u := s[off] as int * 256 + s[off + 1];
    assert u / 256 == s[off] && u % 256 == s[off + 1];
  }

  /** Wherever the four bytes of `v` sit, bytes2int reads `v` back from them. */
  lemma {:induction false} GetIntOf(s: seq<byte>, off: int, v: int32)
    requires 0 <= off && off + 4 <= |s|
    requires s[off..off + 4] == IntBytes(v)
    ensures GetInt(s, off) == v
  {
    IntRoundTrip(v);
    assert s[off] == IntBytes(v)[0] && s[off + 1] == IntBytes(v)[1];
    assert s[off + 2] == IntBytes(v)[2] && s[off + 3] == IntBytes(v)[3];
    assert Unsigned32(s, off) == Unsigned32(IntBytes(v), 0);
  }

  /** Wherever the two bytes of `v` sit, bytes2short reads `v` back from them. */
  lemma {:induction false} GetShortOf(s: seq<byte>, off: int, v: short)
    requires 0 <= off && off + 2 <= |s|
    requires s[off..off + 2] == ShortBytes(v)
    ensures GetShort(s, off) == v
  {
    ShortRoundTrip(v);
    assert s[off] == ShortBytes(v)[0] && s[off + 1] == ShortBytes(v)[1];
  }

  /** A value read back from where it was just put. */
  lemma GetPutInt(s: seq<byte>, off: int, v: int32)
    requires 0 <= off && off + 4 <= |s|
    ensures GetInt(PutInt(s, off, v), off) == v
  {
    var r := PutInt(s, off, v);
    IntRoundTrip(v);
    assert r[off..off + 4] == IntBytes(v);
    assert Unsigned32(r, off) == Unsigned32(IntBytes(v), 0);
  }

  /** A short read back from where it was just put. */
  lemma GetPutShort(s: seq<byte>, off: int, v: short)
    requires 0 <= off && off + 2 <= |s|
    ensures GetShort(PutShort(s, off, v), off) == v
  {
    var r := PutShort(s, off, v);
    ShortRoundTrip(v);
    assert r[off..off + 2] == ShortBytes(v);
    assert GetShort(r, off) == GetShort(ShortBytes(v), 0);
  }

  /** Reading an int only looks at its own four bytes. */
  lemma GetIntFrame(s: seq<byte>, t: seq<byte>, off: int)
    requires 0 <= off && off + 4 <= |s| && off + 4 <= |t|
    requires s[off..off + 4] == t[off..off + 4]
    ensures GetInt(s, off) == GetInt(t, off)
  {
    assert s[off] == s[off..off + 4][0] == t[off];
    assert s[off + 1] == s[off..off + 4][1] == t[off + 1];
    assert s[off + 2] == s[off..off + 4][2] == t[off + 2];
    assert s[off + 3] == s[off..off + 4][3] == t[off + 3];
  }

  /** Reading a short only looks at its own two bytes. */
  lemma GetShortFrame(s: seq<byte>, t: seq<byte>, off: int)
    requires 0 <= off && off + 2 <= |s| && off + 2 <= |t|
    requires s[off..off + 2] == t[off..off + 2]
    ensures GetShort(s, off) == GetShort(t, off)
  {
    assert s[off] == s[off..off + 2][0] == t[off];
    assert s[off + 1] == s[off..off + 2][1] == t[off + 1];
  }

  /** SysLib.int2bytes into a buffer in place: only the four bytes at `off` change. */
  method WriteInt(a: array<byte>, off: int, v: int32)
    requires 0 <= off && off + 4 <= a.Length
    modifies a
    ensures a[..] == PutInt(old(a[..]), off, v)
  {
    var b := IntBytes(v);
    a[off], a[off + 1], a[off + 2], a[off + 3] := b[0], b[1], b[2], b[3];
    assert a[..] == PutInt(old(a[..]), off, v);
  }

  /** SysLib.short2bytes into a buffer in place: only the two bytes at `off` change. */
  method WriteShort(a: array<byte>, off: int, v: short)
    requires 0 <= off && off + 2 <= a.Length
    modifies a
    ensures a[..] == PutShort(old(a[..]), off, v)
  {
    var b := ShortBytes(v);
    a[off], a[off + 1] := b[0], b[1];
    assert a[..] == PutShort(old(a[..]), off, v);
  }
}
