/**
 * Byte-order primitives of rime-mod/binary_manipulation.mjs: 16- and 32-bit reads and
 * writes on a Uint8Array with an endianness flag.
 *
 * The reads use JavaScript's `<<` and `|`, which work on signed 32-bit integers: the shifted
 * bytes never overlap, so the model adds them up and reinterprets the 32-bit pattern as a
 * signed number, and a 32-bit read whose most significant byte is 0x80 or more is negative. Reading past the end of a typed array
 * yields `undefined`, which those operators treat as 0 (`At`); storing past the end is
 * silently ignored (`Put`).
 */
module BinaryManipulation {

  type byte = x: int | 0 <= x < 256

  const TWO_8: int := 0x100
  const TWO_16: int := 0x1_0000
  const TWO_24: int := 0x100_0000
  const TWO_31: int := 0x8000_0000
  const TWO_32: int := 0x1_0000_0000

  /** `buffer[i]` as the bitwise operators see it. */
  function At(buffer: seq<byte>, i: int): byte
  {
    if 0 <= i < |buffer| then buffer[i] else 0
  }

  /**
   * The number a JavaScript bitwise operator returns for the 32-bit pattern whose unsigned
   * value is `u`: patterns with the top bit set are negative.
   */
  function Signed32(u: int): (r: int)
    requires 0 <= u < TWO_32
    ensures -TWO_31 <= r < TWO_31
    ensures r % TWO_32 == u
  {
    if u < TWO_31 then u else u - TWO_32
  }

  /**
   * `readUint16(buffer, off, bigendian)`. The two shifted bytes occupy disjoint bits, so
   * their `|` is their sum.
   */
  function ReadUint16(buffer: seq<byte>, off: int, bigEndian: bool): (r: int)
    ensures 0 <= r < TWO_16
  {
    var a, b := At(buffer, off), At(buffer, off + 1);
    if bigEndian then a * TWO_8 + b else a + b * TWO_8
  }

  /** The unsigned value of four bytes, most significant first. */
  function Unsigned32(hi: byte, b2: byte, b1: byte, lo: byte): (r: int)
    ensures 0 <= r < TWO_32
    ensures r < TWO_31 <==> hi < 0x80
  {
    hi * TWO_24 + b2 * TWO_16 + b1 * TWO_8 + lo
  }

  /**
   * `readUint32(buffer, off, bigendian)`: `a << 24` moves the most significant byte into the
   * sign bit, so the result is a signed 32-bit number.
   */
  function ReadUint32(buffer: seq<byte>, off: int, bigEndian: bool): (r: int)
    ensures -TWO_31 <= r < TWO_31
  {
    var a, b, c, d := At(buffer, off), At(buffer, off + 1), At(buffer, off + 2), At(buffer, off + 3);
    if bigEndian then Signed32(Unsigned32(a, b, c, d)) else Signed32(Unsigned32(d, c, b, a))
  }

  /**
   * The most significant byte decides the sign of a 32-bit read: it is negative exactly when
   * that byte is 0x80 or more, and four 0xFF bytes read as -1, never as 0xFFFFFFFF.
   */
  lemma ReadUint32Sign(buffer: seq<byte>, off: int, bigEndian: bool)
    ensures var msb := if bigEndian then At(buffer, off) else At(buffer, off + 3);
            ReadUint32(buffer, off, bigEndian) < 0 <==> msb >= 0x80
    ensures (forall k :: off <= k < off + 4 ==> At(buffer, k) == 0xFF) ==> ReadUint32(buffer, off, bigEndian) == -1
  {
    assert At(buffer, off) == At(buffer, off + 0);
  }

  /** A big-endian read is the little-endian read of the byte-reversed window, for both widths. */
  lemma BigEndianIsReversedLittleEndian(buffer: seq<byte>, off: int)
    ensures ReadUint16(buffer, off, true) == ReadUint16([At(buffer, off + 1), At(buffer, off)], 0, false)
    ensures ReadUint32(buffer, off, true)
            == ReadUint32([At(buffer, off + 3), At(buffer, off + 2), At(buffer, off + 1), At(buffer, off)], 0, false)
  {
  }

  /**
   * Byte `k` of `value` in two's complement, counting from the least significant. This is what
   * `(value & mask) >> shift` stores into a Uint8Array: the store keeps the low eight bits even
   * where the arithmetic shift of the top byte has made the operand negative.
   */
  function ByteOf(value: int, k: nat): byte
    decreases k
  {
    if k == 0 then value % TWO_8 else ByteOf(value / TWO_8, k - 1)
  }

  /** `buffer[i] = v` on a Uint8Array: ignored when `i` is out of range. */
  function Put(buffer: seq<byte>, i: int, v: byte): (r: seq<byte>)
    ensures |r| == |buffer|
  {
    if 0 <= i < |buffer| then buffer[i := v] else buffer
  }

  /** The buffer after `writeUint16(buffer, off, bigendian, value)`. */
  function Put16(buffer: seq<byte>, off: int, bigEndian: bool, value: int): (r: seq<byte>)
    ensures |r| == |buffer|
  {
    if bigEndian then Put(Put(buffer, off, ByteOf(value, 1)), off + 1, ByteOf(value, 0))
    else Put(Put(buffer, off, ByteOf(value, 0)), off + 1, ByteOf(value, 1))
  }

  /** The buffer after `writeUint32(buffer, off, bigendian, value)`. */
  function Put32(buffer: seq<byte>, off: int, bigEndian: bool, value: int): (r: seq<byte>)
    ensures |r| == |buffer|
  {
    if bigEndian then
      Put(Put(Put(Put(buffer, off, ByteOf(value, 3)), off + 1, ByteOf(value, 2)), off + 2, ByteOf(value, 1)), off + 3, ByteOf(value, 0))
    else
      Put(Put(Put(Put(buffer, off, ByteOf(value, 0)), off + 1, ByteOf(value, 1)), off + 2, ByteOf(value, 2)), off + 3, ByteOf(value, 3))
  }

  /** `writeUint16`: stores the low byte first for little-endian and last for big-endian. */
  method WriteUint16(buffer: array<byte>, off: int, bigEndian: bool, value: int)
    modifies buffer
    ensures buffer[..] == Put16(old(buffer[..]), off, bigEndian, value)
  {
    var a, b := ByteOf(value, 0), ByteOf(value, 1);
    if bigEndian {
      if 0 <= off < buffer.Length { buffer[off] := b; }
      if 0 <= off + 1 < buffer.Length { buffer[off + 1] := a; }
    } else {
      if 0 <= off < buffer.Length { buffer[off] := a; }
      if 0 <= off + 1 < buffer.Length { buffer[off + 1] := b; }
    }
  }

  /** `writeUint32`: the four bytes of `value`, least significant first for little-endian. */
  method WriteUint32(buffer: array<byte>, off: int, bigEndian: bool, value: int)
    modifies buffer
    ensures buffer[..] == Put32(old(buffer[..]), off, bigEndian, value)
  {
    var a, b, c, d := ByteOf(value, 0), ByteOf(value, 1), ByteOf(value, 2), ByteOf(value, 3);
    if bigEndian {
      if 0 <= off < buffer.Length { buffer[off] := d; }
      if 0 <= off + 1 < buffer.Length { buffer[off + 1] := c; }
      if 0 <= off + 2 < buffer.Length { buffer[off + 2] := b; }
      if 0 <= off + 3 < buffer.Length { buffer[off + 3] := a; }
    } else {
      if 0 <= off < buffer.Length { buffer[off] := a; }
      if 0 <= off + 1 < buffer.Length { buffer[off + 1] := b; }
      if 0 <= off + 2 < buffer.Length { buffer[off + 2] := c; }
      if 0 <= off + 3 < buffer.Length { buffer[off + 3] := d; }
    }
  }

  /** A 16-bit write touches only the two bytes at `off`, and only where they exist. */
  lemma Put16Frame(buffer: seq<byte>, off: int, bigEndian: bool, value: int)
    ensures forall i :: 0 <= i < |buffer| && i != off && i != off + 1 ==> Put16(buffer, off, bigEndian, value)[i] == buffer[i]
    ensures 0 <= off && off + 1 < |buffer| ==>
      Put16(buffer, off, bigEndian, value)[off] == (if bigEndian then ByteOf(value, 1) else ByteOf(value, 0))
  {
  }

  /**
   * A 32-bit write touches only the four bytes from `off` on; in range, little-endian puts byte
   * k of the value at `off + k` and big-endian at `off + 3 - k`, so the two orders are reversed.
   */
  lemma Put32Frame(buffer: seq<byte>, off: int, bigEndian: bool, value: int)
    ensures forall i :: 0 <= i < |buffer| && !(off <= i < off + 4) ==> Put32(buffer, off, bigEndian, value)[i] == buffer[i]
    ensures 0 <= off && off + 3 < |buffer| ==>
      forall k :: 0 <= k < 4 ==>
        Put32(buffer, off, false, value)[off + k] == ByteOf(value, k)
        && Put32(buffer, off, true, value)[off + 3 - k] == ByteOf(value, k)
  {
  }

  /** Splitting off the least significant byte of a residue. */
  lemma ModStep(v: int, m: int)
    requires m == TWO_8 || m == TWO_16 || m == TWO_24
    ensures v % (TWO_8 * m) == ((v / TWO_8) % m) * TWO_8 + v % TWO_8
  {
  }

  /** The two low bytes of a number make up its value modulo 2^16. */
  lemma LowBytes16(v: int)
    ensures ByteOf(v, 1) * TWO_8 + ByteOf(v, 0) == v % TWO_16
  {
    ModStep(v, TWO_8);
  }

  /** The four low bytes of a number make up its value modulo 2^32. */
  lemma LowBytes32(v: int)
    ensures Unsigned32(ByteOf(v, 3), ByteOf(v, 2), ByteOf(v, 1), ByteOf(v, 0)) == v % TWO_32
  {
    var w1 := v / TWO_8;
    var w2 := w1 / TWO_8;
    var w3 := w2 / TWO_8;
    assert ByteOf(v, 3) == w3 % TWO_8 && ByteOf(v, 2) == w2 % TWO_8 && ByteOf(v, 1) == w1 % TWO_8;
    ModStep(v, TWO_24);
    ModStep(w1, TWO_16);
    ModStep(w2, TWO_8);
  }

  /** Reading back a 16-bit write within the buffer gives the value modulo 2^16. */
  lemma ReadAfterWrite16(buffer: seq<byte>, off: int, bigEndian: bool, value: int)
    requires 0 <= off && off + 1 < |buffer|
    ensures ReadUint16(Put16(buffer, off, bigEndian, value), off, bigEndian) == value % TWO_16
  {
    LowBytes16(value);
  }

  /**
   * Reading back a 32-bit write within the buffer gives the value modulo 2^32 as a signed
   * 32-bit number: values from 2^31 up come back negative.
   */
  lemma ReadAfterWrite32(buffer: seq<byte>, off: int, bigEndian: bool, value: int)
    requires 0 <= off && off + 3 < |buffer|
    ensures ReadUint32(Put32(buffer, off, bigEndian, value), off, bigEndian) == Signed32(value % TWO_32)
  {
    LowBytes32(value);
    var u := Unsigned32(ByteOf(value, 3), ByteOf(value, 2), ByteOf(value, 1), ByteOf(value, 0));
    assert ByteOf(value, 3) >= 0x80 <==> u >= TWO_31;
  }

  /** A 32-bit write of a value in the signed 32-bit range reads back unchanged. */
  lemma ReadAfterWrite32Signed(buffer: seq<byte>, off: int, bigEndian: bool, value: int)
    requires 0 <= off && off + 3 < |buffer|
    requires -TWO_31 <= value < TWO_31
    ensures ReadUint32(Put32(buffer, off, bigEndian, value), off, bigEndian) == value
  {
    ReadAfterWrite32(buffer, off, bigEndian, value);
  }
}
