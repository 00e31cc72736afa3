/** Bytes, machine words and big-endian fields, as encoding/binary reads and writes them. */
module Bytes {
  type byte = x: int | 0 <= x < 0x100
  type uint16 = x: int | 0 <= x < 0x1_0000
  type uint32 = x: int | 0 <= x < 0x1_0000_0000
  type bytes = seq<byte>

  datatype Option<+T> = None | Some(value: T)

  datatype Result<+T, +E> = Ok(value: T) | Err(error: E)

  function Min(a: int, b: int): int {
    if a <= b then a else b
  }

  /** Conversion to uint16, and addition in a uint16 variable, keep the low 16 bits. */
  function Wrap16(n: nat): (r: uint16)
    ensures n < 0x1_0000 ==> r == n
  {
    n % 0x1_0000
  }

  /** Addition in a uint32 variable keeps the low 32 bits. */
  function Wrap32(n: nat): (r: uint32)
    ensures n < 0x1_0000_0000 ==> r == n
  {
    n % 0x1_0000_0000
  }

  lemma SliceOfSlice(s: bytes, lo: nat, hi: nat, a: nat, b: nat)
    requires lo + a <= lo + b <= hi <= |s|
    ensures s[lo..hi][a..b] == s[lo + a..lo + b]
  {
    assert forall k :: 0 <= k < b - a ==> s[lo..hi][a..b][k] == s[lo + a + k];
  }

  function Hi(x: uint16): byte { x / 0x100 }

  function Lo(x: uint16): byte { x % 0x100 }

  function Get16(b: bytes, i: nat): uint16
    requires i + 2 <= |b|
  {
    b[i] as int * 0x100 + b[i + 1] as int
  }

  /** Network byte order: the high byte comes first. */
  lemma NetworkOrder(a: byte, b: byte, c: byte, d: byte)
    ensures Get16([a, b], 0) == a * 0x100 + b && Put16(a * 0x100 + b) == [a, b]
    ensures Get32([a, b, c, d], 0) == a * 0x100_0000 + b * 0x1_0000 + c * 0x100 + d
    ensures Put32(a * 0x100_0000 + b * 0x1_0000 + c * 0x100 + d) == [a, b, c, d]
  {
    var x: uint32 := a * 0x100_0000 + b * 0x1_0000 + c * 0x100 + d;
    assert x / 0x1_0000 == a * 0x100 + b && x % 0x1_0000 == c * 0x100 + d;
  }

  lemma HiLoOfGet16(b: bytes, i: nat)
    requires i + 2 <= |b|
    ensures Hi(Get16(b, i)) == b[i] && Lo(Get16(b, i)) == b[i + 1]
  {
  }

  function Put16(x: uint16): (b: bytes)
    ensures |b| == 2 && Get16(b, 0) == x
  {
    [Hi(x), Lo(x)]
  }

  function Get32(b: bytes, i: nat): uint32
    requires i + 4 <= |b|
  {
    Get16(b, i) as int * 0x1_0000 + Get16(b, i + 2) as int
  }

  function Put32(x: uint32): (b: bytes)
    ensures |b| == 4 && Get32(b, 0) == x
  {
    Put16(x / 0x1_0000) + Put16(x % 0x1_0000)
  }

  /** `b` with the two bytes at `i` replaced by `x`, high byte first. */
  function Patch16(b: bytes, i: nat, x: uint16): (r: bytes)
    requires i + 2 <= |b|
    ensures |r| == |b| && Get16(r, i) == x
    ensures forall j :: 0 <= j < |b| && j != i && j != i + 1 ==> r[j] == b[j]
  {
    b[i := Hi(x)][i + 1 := Lo(x)]
  }

  function Zeros(n: nat): (z: bytes)
    ensures |z| == n && forall i :: 0 <= i < n ==> z[i] == 0
  {
    seq(n, i => 0)
  }

  /** Go's `copy(dst[off:], src)`: what fits is written, the rest of `src` is dropped. */
  method CopyInto(dst: array<byte>, off: nat, src: bytes)
    requires off <= dst.Length
    modifies dst
    ensures dst[..] == Overwrite(old(dst[..]), off, src)
  {
    var n := Min(|src|, dst.Length - off);
    for i := 0 to n
      invariant dst[..off] == old(dst[..off])
      invariant dst[off..off + i] == src[..i]
      invariant dst[off + i..] == old(dst[off + i..])
    {
      dst[off + i] := src[i];
    }
  }

  /** The bytes of `buf` after `copy(buf[off:], src)`. */
  function Overwrite(buf: bytes, off: nat, src: bytes): (r: bytes)
    requires off <= |buf|
    ensures |r| == |buf|
  {
    var n := Min(|src|, |buf| - off);
    buf[..off] + src[..n] + buf[off + n..]
  }

  lemma OverwriteMiddle(pre: bytes, mid: bytes, post: bytes, src: bytes)
    requires |src| == |mid|
    ensures Overwrite(pre + mid + post, |pre|, src) == pre + src + post
  {
  }

  lemma OverwriteTail(pre: bytes, tail: bytes, src: bytes)
    ensures Overwrite(pre + tail, |pre|, src) == pre + Overwrite(tail, 0, src)
    ensures src == [] ==> Overwrite(tail, 0, src) == tail
  {
  }

  lemma OverwriteFront(src: bytes, n: nat)
    ensures Overwrite(Zeros(|src| + n), 0, src) == src + Zeros(n)
  {
  }
}
