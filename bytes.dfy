/** Bytes as the C tools see them: values of an `unsigned char`, the Intel HEX
    two's-complement checksum byte, and the printable-character mask shared by
    the two dump programs. */
module Bytes {

  /** The value of an `unsigned char` (what `fgetc`, `fread` and `fputc` deal in). */
  type Byte = b: int | 0 <= b < 256

  /** C's `~` on a two's-complement `int`. */
  function BitNot(x: int): int
  {
    -x - 1
  }

  /** C's `x & 0xFF` on a two's-complement integer: its value modulo 256. */
  function LowByte(x: int): (r: Byte)
    ensures 0 <= x < 256 ==> r == x
  {
    x % 256
  }

  /** `(~(sum & 0xFF) + 1) & 0xFF`: the byte that, added to `sum`, gives a
      multiple of 256. The encoder emits it and the decoder compares against it. */
  function Negate8(sum: int): (r: Byte)
    ensures (sum + r) % 256 == 0
  {
    LowByte(BitNot(LowByte(sum)) + 1)
  }

  /** Sum of a byte sequence, as the checksum loops accumulate it. */
  function Sum(s: seq<Byte>): nat
  {
    if s == [] then 0 else Sum(s[..|s| - 1]) + s[|s| - 1]
  }

  /** `isprint(b) && b < 127` in the C locale: the bytes 0x20..0x7E. */
  predicate Printable(b: Byte)
  {
    0x20 <= b < 0x7F
  }

  /** What the dump programs leave in the buffer in place of `b`: the byte itself
      when printable, otherwise a space (with the `-c` flag) or a full stop. */
  function MaskByte(b: Byte, spaceFill: bool): (r: Byte)
    ensures Printable(r)
    ensures Printable(b) ==> r == b
    ensures !Printable(b) ==> r == (if spaceFill then ' ' as int else '.' as int)
  {
    if Printable(b) then b else if spaceFill then ' ' as int else '.' as int
  }

  /** A whole buffer masked: every byte printable, the printable ones kept
      where they were. */
  function Masked(s: seq<Byte>, spaceFill: bool): (r: seq<Byte>)
    ensures |r| == |s|
    ensures forall i :: 0 <= i < |r| ==> Printable(r[i])
    ensures forall i :: 0 <= i < |s| && Printable(s[i]) ==> r[i] == s[i]
  {
    seq(|s|, i requires 0 <= i < |s| => MaskByte(s[i], spaceFill))
  }

  /** The "replace non printing characters" loop: the first `n` bytes of the
      buffer are masked in place and the rest is left alone. */
  method MaskInPlace(buf: array<Byte>, n: nat, spaceFill: bool)
    requires n <= buf.Length
    modifies buf
    ensures buf[..] == Masked(old(buf[..n]), spaceFill) + old(buf[n..])
  {
    var i := 0;
    while i < n
      invariant 0 <= i <= n
      invariant forall k :: 0 <= k < i ==> buf[k] == MaskByte(old(buf[k]), spaceFill)
      invariant forall k :: i <= k < buf.Length ==> buf[k] == old(buf[k])
    {
      if !Printable(buf[i]) {
        buf[i] := if spaceFill then ' ' as int else '.' as int;
      }
      i := i + 1;
    }
  }

  function Min(a: int, b: int): int
  {
    if a < b then a else b
  }

  /** `fread(buf, 1, buf.Length, file)` on a file whose unread part is
      `input[pos..]`: the next bytes, as many as fit, are copied to the front
      of the buffer, and their number is returned (0 at end of file). */
  method Fread(buf: array<Byte>, input: seq<Byte>, pos: nat) returns (n: nat)
    requires pos <= |input|
    modifies buf
    ensures n == Min(buf.Length, |input| - pos)
    ensures buf[..n] == input[pos..pos + n]
    ensures buf[n..] == old(buf[n..])
  {
    n := Min(buf.Length, |input| - pos);
    var i := 0;
    while i < n
      invariant 0 <= i <= n
      invariant forall k :: 0 <= k < i ==> buf[k] == input[pos + k]
      invariant forall k :: i <= k < buf.Length ==> buf[k] == old(buf[k])
    {
      buf[i] := input[pos + i];
      i := i + 1;
    }
    assert buf[..n] == input[pos..pos + n];
    assert buf[n..] == old(buf[n..]);
  }
}
