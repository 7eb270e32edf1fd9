/** Byte-level helpers shared by the virtual machine and the class compactor.

    A class file is reached only through a one-byte-at-an-offset callback; here a
    class's byte source is a `seq<byte>` and an offset past its end reads as 0. */
module Bytes {

  type byte = b: int | 0 <= b < 0x100
  /** A stack slot or other 32-bit machine word (uintptr_t on a 32-bit target). */
  type word = w: int | 0 <= w < 0x1_0000_0000

  datatype Option<T> = None | Some(value: T)

  /** The byte-source callback. */
  function ReadByte(data: seq<byte>, off: int): byte {
    if 0 <= off < |data| then data[off] else 0
  }

  /** Two bytes, big-endian, as an unsigned 16-bit value. */
  function ReadU16(data: seq<byte>, off: int): (r: int)
    ensures 0 <= r < 0x1_0000
  {
    ReadByte(data, off) * 0x100 + ReadByte(data, off + 1)
  }

  /** Three bytes, big-endian (the UInt24 offsets of the compact format). */
  function ReadU24(data: seq<byte>, off: int): (r: int)
    ensures 0 <= r < 0x100_0000
  {
    ReadU16(data, off) * 0x100 + ReadByte(data, off + 2)
  }

  /** Four bytes, big-endian, as an unsigned 32-bit value. */
  function ReadU32(data: seq<byte>, off: int): (r: word)
  {
    ReadU24(data, off) * 0x100 + ReadByte(data, off + 3)
  }

  /** Two's-complement reinterpretations used where the reader returns int16_t / int32_t. */
  function S16(u: int): (r: int)
    requires 0 <= u < 0x1_0000
    ensures -0x8000 <= r < 0x8000
    ensures r == u || r == u - 0x1_0000
  {
    if u < 0x8000 then u else u - 0x1_0000
  }

  function S32(u: word): (r: int)
    ensures -0x8000_0000 <= r < 0x8000_0000
    ensures r == u || r == u - 0x1_0000_0000
  {
    if u < 0x8000_0000 then u else u - 0x1_0000_0000
  }

  /** The word a signed 32-bit value is stored as. */
  function U32(i: int): (w: word)
    ensures (w - i) % 0x1_0000_0000 == 0
  {
    i % 0x1_0000_0000
  }

  function EncodeU16(v: int): (s: seq<byte>)
    requires 0 <= v < 0x1_0000
    ensures |s| == 2
  {
    [v / 0x100, v % 0x100]
  }

  function EncodeU24(v: int): (s: seq<byte>)
    requires 0 <= v < 0x100_0000
    ensures |s| == 3
  {
    [v / 0x1_0000, (v / 0x100) % 0x100, v % 0x100]
  }

  function EncodeU32(v: word): (s: seq<byte>)
    ensures |s| == 4
  {
    [v / 0x100_0000, (v / 0x1_0000) % 0x100, (v / 0x100) % 0x100, v % 0x100]
  }

  lemma ReadU16Encode(data: seq<byte>, off: int, v: int)
    requires 0 <= v < 0x1_0000
    requires 0 <= off && off + 2 <= |data| && data[off..off + 2] == EncodeU16(v)
    ensures ReadU16(data, off) == v
  {
    assert data[off] == data[off..off + 2][0];
    assert data[off + 1] == data[off..off + 2][1];
  }

  lemma U24Digits(v: int)
    requires 0 <= v < 0x100_0000
    ensures (v / 0x1_0000 * 0x100 + (v / 0x100) % 0x100) * 0x100 + v % 0x100 == v
  {
    var q1 := v / 0x100;
    assert v == q1 * 0x100 + v % 0x100;
    assert q1 == (q1 / 0x100) * 0x100 + q1 % 0x100;
    assert v / 0x1_0000 == q1 / 0x100;
  }

  lemma ReadU24Encode(data: seq<byte>, off: int, v: int)
    requires 0 <= v < 0x100_0000
    requires 0 <= off && off + 3 <= |data| && data[off..off + 3] == EncodeU24(v)
    ensures ReadU24(data, off) == v
  {
    var e := EncodeU24(v);
    assert ReadByte(data, off) == e[0] && ReadByte(data, off + 1) == e[1];
    assert ReadByte(data, off + 2) == e[2];
    U24Digits(v);
  }

  /** The big-endian digits of a word put back together. */
  lemma U32Digits(v: word)
    ensures ((v / 0x100_0000 * 0x100 + (v / 0x1_0000) % 0x100) * 0x100 + (v / 0x100) % 0x100) * 0x100
            + v % 0x100 == v
  {
    var q1 := v / 0x100;
    var q2 := q1 / 0x100;
    assert v == q1 * 0x100 + v % 0x100;
    assert q1 == q2 * 0x100 + q1 % 0x100;
    assert q2 == (q2 / 0x100) * 0x100 + q2 % 0x100;
    assert v / 0x1_0000 == q2;
    assert v / 0x100_0000 == q2 / 0x100;
  }

  lemma ReadU32Encode(data: seq<byte>, off: int, v: word)
    requires 0 <= off && off + 4 <= |data| && data[off..off + 4] == EncodeU32(v)
    ensures ReadU32(data, off) == v
  {
    var e := EncodeU32(v);
    assert ReadByte(data, off) == e[0] && ReadByte(data, off + 1) == e[1];
    assert ReadByte(data, off + 2) == e[2] && ReadByte(data, off + 3) == e[3];
    U32Digits(v);
  }

  /** `ujThreadPrvGet32`/`Put32` copy a word byte by byte in host order; the model
      takes the host to be little-endian. */
  function HostWord(data: seq<byte>, off: int): (w: word)
  {
    ReadByte(data, off) + 0x100 * (ReadByte(data, off + 1) + 0x100 * (ReadByte(data, off + 2)
      + 0x100 * ReadByte(data, off + 3)))
  }

  function HostBytes(v: word): (s: seq<byte>)
    ensures |s| == 4
  {
    var r1 := v / 0x100;
    var r2 := r1 / 0x100;
    [v % 0x100, r1 % 0x100, r2 % 0x100, r2 / 0x100]
  }

  lemma HostWordBytes(data: seq<byte>, off: int, v: word)
    requires 0 <= off && off + 4 <= |data| && data[off..off + 4] == HostBytes(v)
    ensures HostWord(data, off) == v
  {
    assert data[off] == data[off..off + 4][0];
    assert data[off + 1] == data[off..off + 4][1];
    assert data[off + 2] == data[off..off + 4][2];
    assert data[off + 3] == data[off..off + 4][3];
    var r1 := v / 0x100;
    var r2 := r1 / 0x100;
    assert v == 0x100 * r1 + v % 0x100;
    assert r1 == 0x100 * r2 + r1 % 0x100;
    assert r2 == 0x100 * (r2 / 0x100) + r2 % 0x100;
  }

  /** Overwrite `bytes` at `off` (the in-place stores of `ujThreadPrvPut*`). */
  function Splice(data: seq<byte>, off: int, bytes: seq<byte>): (r: seq<byte>)
    requires 0 <= off && off + |bytes| <= |data|
    ensures |r| == |data|
    ensures r[off..off + |bytes|] == bytes
    ensures forall i | 0 <= i < |data| && !(off <= i < off + |bytes|) :: r[i] == data[i]
  {
    data[..off] + bytes + data[off + |bytes|..]
  }
}

/** The small-integer result codes of the virtual machine (uJ/uj.h). */
module Errors {
  const ErrNone := 0
  const ErrFalse := 1
  const ErrInvalidOpcode := 2
  const ErrMethodNonexistent := 3
  const ErrDependencyMissing := 4
  const ErrStackSpace := 16
  const ErrMethodFlagsMismatch := 17
  const ErrDivByZero := 18
  const ErrInvalidCast := 19
  const ErrOutOfMemory := 20
  const ErrArrayIndexOob := 21
  const ErrFieldNotFound := 22
  const ErrNullPointer := 23
  const ErrMonStateErr := 24
  const ErrNegArrSz := 25
  const ErrRetryLater := 50
  const ErrUserException := 99
  const ErrInternal := 100

  /** A value returned from a C function declared `bool`: any nonzero code becomes 1. */
  function AsCBool(code: int): (b: int)
    ensures b == 0 || b == 1
    ensures b == 0 <==> code == 0
  {
    if code == 0 then 0 else 1
  }
}
