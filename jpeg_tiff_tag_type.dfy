/**
 * The TIFF field-type handlers of rime-mod/jpeg_tiff_tag_type.mjs: the element-size table and,
 * per handler class, `accept`, `decode`, `encode` and `toReadable`.
 *
 * Each handler class is a constructor of `Codec`; the value a handler decodes to is a
 * `TagValue` of the matching shape (`Fits`). Decoding reads through `BinaryManipulation`, so
 * it inherits its edge cases: bytes past the end read as 0 and LONG values are signed.
 *
 * The encoders call `writeUint16`/`writeUint32`, which the source file uses without importing;
 * the model takes them to be the functions of rime-mod/binary_manipulation.mjs.
 */
module JpegTiffTagType {
  import opened Wrappers
  import opened BinaryManipulation
  import JsText

  const TYPE_BYTE: int := 1
  const TYPE_ASCII: int := 2
  const TYPE_SHORT: int := 3
  const TYPE_LONG: int := 4
  const TYPE_RATIONAL: int := 5
  const TYPE_UNDEFINED: int := 7

  /** `getElementSize`: the byte size of one element of a TIFF field type, 0 for an unknown type. */
  function ElementSize(tagType: int): (r: nat)
    ensures r == 0 <==> tagType !in {TYPE_BYTE, TYPE_ASCII, TYPE_SHORT, TYPE_LONG, TYPE_RATIONAL, TYPE_UNDEFINED}
    ensures r in {0, 1, 2, 4, 8}
  {
    match tagType
    case 1 => 1
    case 2 => 1
    case 7 => 1
    case 3 => 2
    case 4 => 4
    case 5 => 8
    case _ => 0
  }

  /** One handler class each: `TagTypeHandler` (the base) and its eight subclasses. */
  datatype Codec =
    | BaseCodec
    | ByteCodec
    | AsciiCodec
    | ShortCodec
    | LongCodec
    | RationalCodec
    | UndefinedCodec
    | ShortOrLongCodec
    | UnknownCodec

  /** The value of an opaque field: what `UnknownTypeHandler` decodes to and every `encode` returns. */
  datatype Encoded = Encoded(tagType: int, buffer: seq<byte>, count: int)

  /** A fraction of rime-mod/fraction.mjs, kept as its numerator and denominator. */
  datatype Fraction = Fraction(n: int, d: int)

  /** A decoded field value, one constructor per value shape. */
  datatype TagValue =
    | Numbers(nums: seq<int>)
    | Text(text: string)
    | Fractions(fracs: seq<Fraction>)
    | Bytes(bytes: seq<byte>)
    | Opaque(raw: Encoded)

  /** The value shape a handler decodes to and takes back in `encode` and `toReadable`. */
  predicate Fits(c: Codec, v: TagValue)
  {
    match c
    case BaseCodec => true
    case ByteCodec => v.Numbers?
    case ShortCodec => v.Numbers?
    case LongCodec => v.Numbers?
    case ShortOrLongCodec => v.Numbers?
    case AsciiCodec => v.Text?
    case RationalCodec => v.Fractions?
    case UndefinedCodec => v.Bytes?
    case UnknownCodec => v.Opaque?
  }

  /** `accept(tagNum)` of each handler. */
  predicate Accept(c: Codec, tagType: int)
  {
    match c
    case BaseCodec => false
    case ByteCodec => tagType == 1
    case AsciiCodec => tagType == 2
    case ShortCodec => tagType == 3
    case LongCodec => tagType == 4
    case RationalCodec => tagType == 5
    case UndefinedCodec => tagType == 7
    case ShortOrLongCodec => tagType == 3 || tagType == 4
    case UnknownCodec => true
  }

  /** The type code a handler's `encode` writes, for the handlers that write a fixed one. */
  function EmittedType(c: Codec): (t: int)
    requires c != BaseCodec && c != UnknownCodec
  {
    match c
    case ByteCodec => TYPE_BYTE
    case AsciiCodec => TYPE_ASCII
    case ShortCodec => TYPE_SHORT
    case LongCodec => TYPE_LONG
    case RationalCodec => TYPE_RATIONAL
    case UndefinedCodec => TYPE_UNDEFINED
    case ShortOrLongCodec => TYPE_SHORT
  }

  /**
   * Every typed handler accepts the type its own `encode` emits, and a known element size;
   * the six single-type handlers accept nothing else. ShortOrLong also accepts LONG, Unknown
   * accepts every type and the base handler none.
   */
  lemma AcceptedTypes(c: Codec, tagType: int)
    ensures c != BaseCodec && c != UnknownCodec ==> Accept(c, EmittedType(c))
    ensures c != BaseCodec && c != UnknownCodec && Accept(c, tagType) ==> ElementSize(tagType) > 0
    ensures c !in {BaseCodec, UnknownCodec, ShortOrLongCodec} ==> (Accept(c, tagType) <==> tagType == EmittedType(c))
    ensures Accept(ShortOrLongCodec, tagType) <==> tagType == TYPE_SHORT || tagType == TYPE_LONG
    ensures Accept(UnknownCodec, tagType) && !Accept(BaseCodec, tagType)
  {
  }

  /** A loop bound `i < count` runs `Count(count)` times; a negative count runs none. */
  function Count(count: int): nat
  {
    if count < 0 then 0 else count
  }

  /** The `count` SHORT values from `off` on, two bytes apart. */
  function Shorts(data: seq<byte>, off: int, bigEndian: bool, count: int): (r: seq<int>)
    ensures |r| == Count(count)
    ensures forall i :: 0 <= i < |r| ==> 0 <= r[i] < TWO_16
  {
    seq(Count(count), i => ReadUint16(data, off + i * 2, bigEndian))
  }

  /** The `count` LONG values from `off` on, four bytes apart, each a signed 32-bit number. */
  function Longs(data: seq<byte>, off: int, bigEndian: bool, count: int): (r: seq<int>)
    ensures |r| == Count(count)
    ensures forall i :: 0 <= i < |r| ==> -TWO_31 <= r[i] < TWO_31
  {
    seq(Count(count), i => ReadUint32(data, off + i * 4, bigEndian))
  }

  /** The `count` RATIONAL values from `off` on: numerator and denominator, eight bytes apart. */
  function Rationals(data: seq<byte>, off: int, bigEndian: bool, count: int): (r: seq<Fraction>)
    ensures |r| == Count(count)
  {
    seq(Count(count), i => Fraction(ReadUint32(data, off + i * 8, bigEndian), ReadUint32(data, off + i * 8 + 4, bigEndian)))
  }

  /** `String.fromCharCode` of each byte. */
  function BytesToText(bytes: seq<byte>): (s: string)
    ensures |s| == |bytes|
    ensures forall i :: 0 <= i < |bytes| ==> s[i] as int == bytes[i]
  {
    seq(|bytes|, i requires 0 <= i < |bytes| => bytes[i] as char)
  }

  /** The value each handler's `decode` returns; the base handler throws. */
  function DecodeSpec(c: Codec, data: seq<byte>, tagType: int, off: int, bigEndian: bool, count: int): (r: Result<TagValue, string>)
    ensures r.Success? <==> c != BaseCodec
    ensures r.Success? ==> Fits(c, r.value)
  {
    match c
    case BaseCodec => Failure("need to override decode")
    case ByteCodec => Success(Numbers(JsText.Slice(data, off, off + count)))
    case AsciiCodec => Success(Text(BytesToText(JsText.Slice(data, off, off + count - 1))))
    case ShortCodec => Success(Numbers(Shorts(data, off, bigEndian, count)))
    case LongCodec => Success(Numbers(Longs(data, off, bigEndian, count)))
    case RationalCodec => Success(Fractions(Rationals(data, off, bigEndian, count)))
    case UndefinedCodec => Success(Bytes(JsText.Slice(data, off, off + count)))
    case ShortOrLongCodec =>
      Success(Numbers(if tagType == TYPE_LONG then Longs(data, off, bigEndian, count) else Shorts(data, off, bigEndian, count)))
    case UnknownCodec =>
      Success(Opaque(Encoded(tagType, JsText.Slice(data, off, off + ElementSize(tagType) * count), count)))
  }

  /** `ShortTypeHandler.decode`. */
  method DecodeShorts(data: seq<byte>, off: int, bigEndian: bool, count: int) returns (r: seq<int>)
    ensures r == Shorts(data, off, bigEndian, count)
  {
    r := [];
    var i := 0;
    while i < count
      invariant 0 <= i <= Count(count)
      invariant r == Shorts(data, off, bigEndian, i)
    {
      r := r + [ReadUint16(data, off + i * 2, bigEndian)];
      i := i + 1;
    }
  }

  /** `LongTypeHandler.decode`. */
  method DecodeLongs(data: seq<byte>, off: int, bigEndian: bool, count: int) returns (r: seq<int>)
    ensures r == Longs(data, off, bigEndian, count)
  {
    r := [];
    var i := 0;
    while i < count
      invariant 0 <= i <= Count(count)
      invariant r == Longs(data, off, bigEndian, i)
    {
      r := r + [ReadUint32(data, off + i * 4, bigEndian)];
      i := i + 1;
    }
  }

  /** `RationalTypeHandler.decode`. */
  method DecodeRationals(data: seq<byte>, off: int, bigEndian: bool, count: int) returns (r: seq<Fraction>)
    ensures r == Rationals(data, off, bigEndian, count)
  {
    r := [];
    var i := 0;
    while i < count
      invariant 0 <= i <= Count(count)
      invariant r == Rationals(data, off, bigEndian, i)
    {
      var num := ReadUint32(data, off + i * 8, bigEndian);
      var den := ReadUint32(data, off + i * 8 + 4, bigEndian);
      r := r + [Fraction(num, den)];
      i := i + 1;
    }
  }

  /** `ShortOrLongTypeHandler.decode`: LONG elements for type 4, SHORT elements for any other type. */
  method DecodeShortOrLong(data: seq<byte>, tagType: int, off: int, bigEndian: bool, count: int) returns (r: seq<int>)
    ensures r == if tagType == TYPE_LONG then Longs(data, off, bigEndian, count) else Shorts(data, off, bigEndian, count)
  {
    var size := if tagType == TYPE_LONG then 4 else 2;
    r := [];
    var i := 0;
    while i < count
      invariant 0 <= i <= Count(count)
      invariant r == if tagType == TYPE_LONG then Longs(data, off, bigEndian, i) else Shorts(data, off, bigEndian, i)
    {
      var v := if tagType == TYPE_LONG then ReadUint32(data, off + i * size, bigEndian)
               else ReadUint16(data, off + i * size, bigEndian);
      r := r + [v];
      i := i + 1;
    }
  }

  /** `decode(data, tagNum, off, bigendian, count)` of the handler `c`. */
  method Decode(c: Codec, data: seq<byte>, tagType: int, off: int, bigEndian: bool, count: int) returns (r: Result<TagValue, string>)
    ensures r == DecodeSpec(c, data, tagType, off, bigEndian, count)
  {
    match c
    case ShortCodec =>
      var nums := DecodeShorts(data, off, bigEndian, count);
      r := Success(Numbers(nums));
    case LongCodec =>
      var nums := DecodeLongs(data, off, bigEndian, count);
      r := Success(Numbers(nums));
    case RationalCodec =>
      var fracs := DecodeRationals(data, off, bigEndian, count);
      r := Success(Fractions(fracs));
    case ShortOrLongCodec =>
      var nums := DecodeShortOrLong(data, tagType, off, bigEndian, count);
      r := Success(Numbers(nums));
    case _ =>
      r := DecodeSpec(c, data, tagType, off, bigEndian, count);
  }

  // Encoding

  /** Each value modulo 2^16: what a SHORT field stores of it. */
  function Mod16(data: seq<int>): (r: seq<int>)
    ensures |r| == |data|
    ensures (forall i :: 0 <= i < |data| ==> 0 <= data[i] < TWO_16) <==> r == data
  {
    var r := seq(|data|, i requires 0 <= i < |data| => data[i] % TWO_16);
    assert r == data ==> forall i :: 0 <= i < |data| ==> 0 <= data[i] < TWO_16 by {
      if r == data {
        forall i | 0 <= i < |data| ensures 0 <= data[i] < TWO_16 {
          assert r[i] == data[i];
        }
      }
    }
    r
  }

  /** Each value modulo 2^32, read back as a signed 32-bit number: what a LONG field yields of it. */
  function Wrap32(data: seq<int>): (r: seq<int>)
    ensures |r| == |data|
    ensures (forall i :: 0 <= i < |data| ==> -TWO_31 <= data[i] < TWO_31) <==> r == data
  {
    var r := seq(|data|, i requires 0 <= i < |data| => Signed32(data[i] % TWO_32));
    assert r == data ==> forall i :: 0 <= i < |data| ==> -TWO_31 <= data[i] < TWO_31 by {
      if r == data {
        forall i | 0 <= i < |data| ensures -TWO_31 <= data[i] < TWO_31 {
          assert r[i] == data[i];
        }
      }
    }
    r
  }

  /**
   * `ShortTypeHandler.encode`: type 3, one element per value, two bytes each; decoding the
   * result gives every value modulo 2^16, so values in [0, 65535] come back unchanged.
   */
  method EncodeShorts(data: seq<int>, bigEndian: bool) returns (e: Encoded)
    ensures e.tagType == TYPE_SHORT && e.count == |data| && |e.buffer| == 2 * |data|
    ensures Shorts(e.buffer, 0, bigEndian, e.count) == Mod16(data)
  {
    var arr := new byte[2 * |data|];
    var i := 0;
    while i < |data|
      invariant 0 <= i <= |data|
      invariant forall j :: 0 <= j < i ==> ReadUint16(arr[..], j * 2, bigEndian) == data[j] % TWO_16
    {
      ghost var before := arr[..];
      WriteUint16(arr, i * 2, bigEndian, data[i]);
      Put16Frame(before, i * 2, bigEndian, data[i]);
      ReadAfterWrite16(before, i * 2, bigEndian, data[i]);
      i := i + 1;
    }
    e := Encoded(TYPE_SHORT, arr[..], |data|);
  }

  /**
   * `LongTypeHandler.encode`: type 4, four bytes per value; decoding the result gives each value
   * modulo 2^32 as a signed number, so values in the signed 32-bit range come back unchanged.
   */
  method EncodeLongs(data: seq<int>, bigEndian: bool) returns (e: Encoded)
    ensures e.tagType == TYPE_LONG && e.count == |data| && |e.buffer| == 4 * |data|
    ensures Longs(e.buffer, 0, bigEndian, e.count) == Wrap32(data)
  {
    var arr := new byte[4 * |data|];
    var i := 0;
    while i < |data|
      invariant 0 <= i <= |data|
      invariant forall j :: 0 <= j < i ==> ReadUint32(arr[..], j * 4, bigEndian) == Signed32(data[j] % TWO_32)
    {
      ghost var before := arr[..];
      WriteUint32(arr, i * 4, bigEndian, data[i]);
      WriteLong(before, bigEndian, data, i);
      i := i + 1;
    }
    e := Encoded(TYPE_LONG, arr[..], |data|);
    assert forall j :: 0 <= j < |data| ==> 0 + j * 4 == j * 4;
  }

  /** Writing element `i` at `4i` keeps the earlier elements and reads back as itself. */
  lemma WriteLong(before: seq<byte>, bigEndian: bool, data: seq<int>, i: int)
    requires 0 <= i < |data| && 4 * |data| == |before|
    requires forall j :: 0 <= j < i ==> ReadUint32(before, j * 4, bigEndian) == Signed32(data[j] % TWO_32)
    ensures var after := Put32(before, i * 4, bigEndian, data[i]);
      forall j :: 0 <= j <= i ==> ReadUint32(after, j * 4, bigEndian) == Signed32(data[j] % TWO_32)
  {
    var after := Put32(before, i * 4, bigEndian, data[i]);
    ReadAfterWrite32(before, i * 4, bigEndian, data[i]);
    forall j | 0 <= j < i
      ensures ReadUint32(after, j * 4, bigEndian) == ReadUint32(before, j * 4, bigEndian)
    {
      Put32KeepsReads(before, i * 4, bigEndian, data[i], j * 4);
    }
  }

  /**
   * `RationalTypeHandler.encode`: type 5, numerator then denominator, eight bytes per fraction;
   * decoding the result gives both parts modulo 2^32 as signed numbers.
   */
  method EncodeRationals(data: seq<Fraction>, bigEndian: bool) returns (e: Encoded)
    ensures e.tagType == TYPE_RATIONAL && e.count == |data| && |e.buffer| == 8 * |data|
    ensures Rationals(e.buffer, 0, bigEndian, e.count)
            == seq(|data|, i requires 0 <= i < |data| => Fraction(Signed32(data[i].n % TWO_32), Signed32(data[i].d % TWO_32)))
  {
    var arr := new byte[8 * |data|](_ => 0);
    var i := 0;
    while i < |data|
      invariant 0 <= i <= |data|
      invariant arr[..] == FractionsWritten(data, bigEndian, i)
    {
      FractionsWrittenStep(data, bigEndian, i);
      WriteUint32(arr, i * 8, bigEndian, data[i].n);
      WriteUint32(arr, i * 8 + 4, bigEndian, data[i].d);
      i := i + 1;
    }
    e := Encoded(TYPE_RATIONAL, arr[..], |data|);
    FractionsWrittenRead(data, bigEndian, |data|);
    RationalsWrittenRead(e.buffer, bigEndian, data);
  }

  /** The buffer of `RationalTypeHandler.encode` once the first `i` fractions are written. */
  function FractionsWritten(data: seq<Fraction>, bigEndian: bool, i: nat): (r: seq<byte>)
    requires i <= |data|
    ensures |r| == 8 * |data|
  {
    if i == 0 then seq(8 * |data|, _ => 0)
    else Put32(Put32(FractionsWritten(data, bigEndian, i - 1), (i - 1) * 8, bigEndian, data[i - 1].n),
               (i - 1) * 8 + 4, bigEndian, data[i - 1].d)
  }

  lemma FractionsWrittenStep(data: seq<Fraction>, bigEndian: bool, i: nat)
    requires i < |data|
    ensures FractionsWritten(data, bigEndian, i + 1)
         == Put32(Put32(FractionsWritten(data, bigEndian, i), i * 8, bigEndian, data[i].n), i * 8 + 4, bigEndian, data[i].d)
  {
  }

  /** Each written fraction reads back as its 32-bit wrap-around. */
  lemma {:induction false} FractionsWrittenRead(data: seq<Fraction>, bigEndian: bool, i: nat)
    requires i <= |data|
    ensures RationalsWritten(FractionsWritten(data, bigEndian, i), bigEndian, data, i)
  {
    if i > 0 {
      var k := i - 1;
      var prev := FractionsWritten(data, bigEndian, k);
      FractionsWrittenRead(data, bigEndian, k);
      FractionsWrittenStep(data, bigEndian, k);
      WriteFraction(prev, FractionsWritten(data, bigEndian, i), k * 8, bigEndian, k, data);
    }
  }

  /** The first `i` fractions read back from the buffer as their 32-bit wrap-around. */
  ghost predicate RationalsWritten(buffer: seq<byte>, bigEndian: bool, data: seq<Fraction>, i: int)
    requires 0 <= i <= |data|
  {
    forall j :: 0 <= j < i ==>
      ReadUint32(buffer, j * 8, bigEndian) == Signed32(data[j].n % TWO_32)
      && ReadUint32(buffer, j * 8 + 4, bigEndian) == Signed32(data[j].d % TWO_32)
  }

  /** Once every fraction is written, decoding the buffer reads them all back. */
  lemma RationalsWrittenRead(buffer: seq<byte>, bigEndian: bool, data: seq<Fraction>)
    requires RationalsWritten(buffer, bigEndian, data, |data|)
    ensures Rationals(buffer, 0, bigEndian, |data|)
            == seq(|data|, i requires 0 <= i < |data| => Fraction(Signed32(data[i].n % TWO_32), Signed32(data[i].d % TWO_32)))
  {
    var r := Rationals(buffer, 0, bigEndian, |data|);
    forall i | 0 <= i < |data|
      ensures r[i] == Fraction(Signed32(data[i].n % TWO_32), Signed32(data[i].d % TWO_32))
    {
      assert 0 + i * 8 == i * 8;
    }
  }

  /** A 32-bit write leaves every 32-bit read that does not overlap it unchanged. */
  lemma Put32KeepsReads(buffer: seq<byte>, off: int, bigEndian: bool, value: int, p: int)
    requires p + 4 <= off || off + 4 <= p
    ensures ReadUint32(Put32(buffer, off, bigEndian, value), p, bigEndian) == ReadUint32(buffer, p, bigEndian)
  {
    Put32Frame(buffer, off, bigEndian, value);
  }

  /** A 32-bit write past the first `i` fractions keeps them. */
  lemma Put32KeepsWritten(buffer: seq<byte>, off: int, bigEndian: bool, value: int, data: seq<Fraction>, i: int)
    requires 0 <= i <= |data| && off >= 8 * i
    requires RationalsWritten(buffer, bigEndian, data, i)
    ensures RationalsWritten(Put32(buffer, off, bigEndian, value), bigEndian, data, i)
  {
    forall j | 0 <= j < i
      ensures ReadUint32(Put32(buffer, off, bigEndian, value), j * 8, bigEndian) == ReadUint32(buffer, j * 8, bigEndian)
      ensures ReadUint32(Put32(buffer, off, bigEndian, value), j * 8 + 4, bigEndian) == ReadUint32(buffer, j * 8 + 4, bigEndian)
    {
      Put32KeepsReads(buffer, off, bigEndian, value, j * 8);
      Put32KeepsReads(buffer, off, bigEndian, value, j * 8 + 4);
    }
  }

  /** Writing fraction `i` at `off = 8i` keeps the earlier fractions and reads back as itself. */
  lemma WriteFraction(before: seq<byte>, after: seq<byte>, off: int, bigEndian: bool, i: nat, data: seq<Fraction>)
    requires i < |data| && off == i * 8 && off + 8 <= |before|
    requires after == Put32(Put32(before, off, bigEndian, data[i].n), off + 4, bigEndian, data[i].d)
    requires RationalsWritten(before, bigEndian, data, i)
    ensures RationalsWritten(after, bigEndian, data, i + 1)
  {
    var frac := data[i];
    var middle := Put32(before, off, bigEndian, frac.n);
    var n, d := Signed32(frac.n % TWO_32), Signed32(frac.d % TWO_32);
    assert RationalsWritten(middle, bigEndian, data, i) && ReadUint32(middle, off, bigEndian) == n by {
      Put32KeepsWritten(before, off, bigEndian, frac.n, data, i);
      ReadAfterWrite32(before, off, bigEndian, frac.n);
    }
    assert RationalsWritten(after, bigEndian, data, i) by {
      Put32KeepsWritten(middle, off + 4, bigEndian, frac.d, data, i);
    }
    assert ReadUint32(after, off, bigEndian) == n by {
      Put32KeepsReads(middle, off + 4, bigEndian, frac.d, off);
    }
    assert ReadUint32(after, off + 4, bigEndian) == d by {
      ReadAfterWrite32(middle, off + 4, bigEndian, frac.d);
    }
    ExtendWritten(after, bigEndian, data, i);
  }

  /** Fraction `i` read back from its place extends the written prefix by one. */
  lemma ExtendWritten(buffer: seq<byte>, bigEndian: bool, data: seq<Fraction>, i: nat)
    requires i < |data| && RationalsWritten(buffer, bigEndian, data, i)
    requires ReadUint32(buffer, i * 8, bigEndian) == Signed32(data[i].n % TWO_32)
    requires ReadUint32(buffer, i * 8 + 4, bigEndian) == Signed32(data[i].d % TWO_32)
    ensures RationalsWritten(buffer, bigEndian, data, i + 1)
  {
  }


  /**
   * `ShortOrLongTypeHandler.encode`, the same bytes as `ShortTypeHandler.encode`: always type 3
   * with two-byte elements, so decoding the result with this handler gives the input back
   * exactly when every value is in [0, 65535].
   */
  method EncodeShortOrLong(data: seq<int>, bigEndian: bool) returns (e: Encoded)
    ensures e.tagType == TYPE_SHORT && e.count == |data| && |e.buffer| == 2 * |data|
    ensures DecodeSpec(ShortOrLongCodec, e.buffer, e.tagType, 0, bigEndian, e.count) == Success(Numbers(data))
            <==> forall i :: 0 <= i < |data| ==> 0 <= data[i] < TWO_16
  {
    e := EncodeShorts(data, bigEndian);
  }

  /** `ByteTypeHandler.encode`: `new Uint8Array(data)` keeps each value modulo 256. */
  function EncodeBytes(data: seq<int>): (e: Encoded)
    ensures e.tagType == TYPE_BYTE && e.count == |data| && |e.buffer| == |data|
    ensures forall i :: 0 <= i < |data| ==> e.buffer[i] == data[i] % TWO_8
  {
    Encoded(TYPE_BYTE, seq(|data|, i requires 0 <= i < |data| => data[i] % TWO_8), |data|)
  }

  /** A string every character of which is 7-bit ASCII, the only text `EncodeAscii` models. */
  predicate IsAscii(s: string)
  {
    forall i :: 0 <= i < |s| ==> s[i] as int < 0x80
  }

  /** `ASCIITypeHandler.encode`: the characters and a NUL terminator, counted in `count`. */
  function EncodeAscii(s: string): (e: Encoded)
    requires IsAscii(s)
    ensures e.tagType == TYPE_ASCII && e.count == |s| + 1 && |e.buffer| == |s| + 1
    ensures e.buffer[|s|] == 0
    ensures forall i :: 0 <= i < |s| ==> e.buffer[i] == s[i] as int
  {
    Encoded(TYPE_ASCII, seq(|s|, i requires 0 <= i < |s| => s[i] as int as byte) + [0], |s| + 1)
  }

  /** `UndefinedTypeHandler.encode`: the bytes themselves. */
  function EncodeUndefined(bytes: seq<byte>): (e: Encoded)
    ensures e.tagType == TYPE_UNDEFINED && e.count == |bytes| && e.buffer == bytes
  {
    Encoded(TYPE_UNDEFINED, bytes, |bytes|)
  }

  /** Byte values in [0, 255] survive a BYTE round trip. */
  lemma ByteRoundTrip(data: seq<int>)
    requires forall i :: 0 <= i < |data| ==> 0 <= data[i] < TWO_8
    ensures var e := EncodeBytes(data); DecodeSpec(ByteCodec, e.buffer, e.tagType, 0, false, e.count) == Success(Numbers(data))
  {
    var e := EncodeBytes(data);
    assert e.buffer[0..e.count] == e.buffer;
    assert e.buffer == data;
  }

  /** A 7-bit ASCII string survives an ASCII round trip: decoding drops the NUL encoding added. */
  lemma AsciiRoundTrip(s: string, bigEndian: bool)
    requires IsAscii(s)
    ensures var e := EncodeAscii(s); DecodeSpec(AsciiCodec, e.buffer, e.tagType, 0, bigEndian, e.count) == Success(Text(s))
  {
    var e := EncodeAscii(s);
    assert JsText.Slice(e.buffer, 0, e.count - 1) == e.buffer[0..|s|];
    assert BytesToText(e.buffer[0..|s|]) == s;
  }

  /** UNDEFINED bytes survive a round trip. */
  lemma UndefinedRoundTrip(bytes: seq<byte>, bigEndian: bool)
    ensures var e := EncodeUndefined(bytes); DecodeSpec(UndefinedCodec, e.buffer, e.tagType, 0, bigEndian, e.count) == Success(Bytes(bytes))
  {
    assert bytes[0..|bytes|] == bytes;
  }

  /**
   * `UnknownTypeHandler`: decoding keeps the type and count and slices `ElementSize(type) * count`
   * bytes; encoding returns the value as it is, so an opaque value read at offset 0 from its own
   * buffer comes back unchanged when the buffer holds exactly that many bytes.
   */
  lemma UnknownRoundTrip(raw: Encoded, bigEndian: bool)
    requires raw.count >= 0 && |raw.buffer| == ElementSize(raw.tagType) * raw.count
    ensures DecodeSpec(UnknownCodec, raw.buffer, raw.tagType, 0, bigEndian, raw.count) == Success(Opaque(raw))
  {
    assert raw.buffer[0..|raw.buffer|] == raw.buffer;
  }

  // Display

  /** `data.join(", ")` of a list of numbers. */
  function JoinNumbers(nums: seq<int>): (r: string)
  {
    JsText.Join(seq(|nums|, i requires 0 <= i < |nums| => JsText.IntToString(nums[i])), ", ")
  }

  /** `f.n.toString() + "/" + f.d.toString()`. */
  function FractionText(f: Fraction): (r: string)
  {
    JsText.IntToString(f.n) + "/" + JsText.IntToString(f.d)
  }

  /**
   * The text of a fraction splits at its only '/' into the decimal texts of its two parts,
   * which read back as the numerator and the denominator, signs included.
   */
  lemma FractionTextRoundTrip(f: Fraction)
    ensures JsText.Split(FractionText(f), '/') == [JsText.IntToString(f.n), JsText.IntToString(f.d)]
    ensures JsText.ParseInt(JsText.Split(FractionText(f), '/')[0]) == f.n
    ensures JsText.ParseInt(JsText.Split(FractionText(f), '/')[1]) == f.d
  {
    var a, b := JsText.IntToString(f.n), JsText.IntToString(f.d);
    JsText.IntToStringRoundTrip(f.n);
    JsText.IntToStringRoundTrip(f.d);
    assert JsText.Split(FractionText(f), '/') == [a, b] by {
      assert FractionText(f) == a + ['/'] + b;
      assert '/' !in a && '/' !in b;
      JsText.SplitNoSeparator(b, '/');
      JsText.SplitPrefix(a, '/', b);
    }
  }

  /** The text of each fraction, in order. */
  function FractionTexts(fracs: seq<Fraction>): (r: seq<string>)
    ensures |r| == |fracs|
  {
    if fracs == [] then [] else FractionTexts(fracs[..|fracs| - 1]) + [FractionText(fracs[|fracs| - 1])]
  }

  /** The numerator/denominator texts of `RationalTypeHandler.toReadable`, joined with ", ". */
  function RationalText(fracs: seq<Fraction>): (r: string)
  {
    JsText.Join(FractionTexts(fracs), ", ")
  }

  /** `RationalTypeHandler.toReadable`: collects one text per fraction, then joins them. */
  method RationalToReadable(fracs: seq<Fraction>) returns (r: string)
    ensures r == RationalText(fracs)
  {
    var parts: seq<string> := [];
    for i := 0 to |fracs|
      invariant parts == FractionTexts(fracs[..i])
    {
      assert fracs[..i + 1][..i] == fracs[..i];
      parts := parts + [FractionText(fracs[i])];
    }
    assert fracs[..|fracs|] == fracs;
    r := JsText.Join(parts, ", ");
  }

  /** How `UndefinedTypeHandler.toReadable` shows one byte. */
  function EscapeByte(n: byte): (r: string)
    ensures 1 <= |r| <= 4
    ensures (32 <= n <= 127) <==> r == [n as char]
  {
    if n == 13 then "\\r"
    else if n == 10 then "\\n"
    else if n < 32 || n > 127 then
      JsText.HexUpperRoundTrip(n);
      "\\x" + JsText.HexUpper(n)
    else [n as char]
  }

  /** The shown bytes, in order, joined with "". */
  function EscapeBytes(bytes: seq<byte>): (r: string)
    ensures |bytes| <= |r| <= 4 * |bytes|
  {
    if bytes == [] then "" else EscapeBytes(bytes[..|bytes| - 1]) + EscapeByte(bytes[|bytes| - 1])
  }

  /** `UndefinedTypeHandler.toReadable`: pushes one or two texts per byte, then joins with "". */
  method UndefinedToReadable(bytes: seq<byte>) returns (r: string)
    ensures r == EscapeBytes(bytes)
  {
    var result: seq<string> := [];
    for i := 0 to |bytes|
      invariant JsText.Flatten(result) == EscapeBytes(bytes[..i])
    {
      var n := bytes[i];
      var added: seq<string>;
      if n == 13 {
        added := ["\\r"];
      } else if n == 10 {
        added := ["\\n"];
      } else if n < 32 || n > 127 {
        added := ["\\x", JsText.HexUpper(n)];
      } else {
        added := [[n as char]];
      }
      FlattenShort(added);
      JsText.FlattenAppend(result, added);
      assert bytes[..i + 1][..i] == bytes[..i];
      result := result + added;
    }
    assert bytes[..|bytes|] == bytes;
    r := JsText.Join(result, "");
    JoinEmptyIsFlatten(result);
  }

  lemma FlattenShort(xs: seq<string>)
    ensures |xs| == 1 ==> JsText.Flatten(xs) == xs[0]
    ensures |xs| == 2 ==> JsText.Flatten(xs) == xs[0] + xs[1]
  {
    if |xs| == 1 {
      assert xs[..0] == [];
    } else if |xs| == 2 {
      assert xs[..1][..0] == [];
    }
  }

  /** `join("")` is concatenation. */
  lemma {:induction false} JoinEmptyIsFlatten(parts: seq<string>)
    ensures JsText.Join(parts, "") == JsText.Flatten(parts)
  {
    if |parts| == 1 {
      assert parts[..0] == [];
    } else if |parts| > 1 {
      JoinEmptyIsFlatten(parts[..|parts| - 1]);
    }
  }

  /** Printable bytes (32 to 127, DEL included) are shown as themselves, one character each. */
  lemma {:induction false} EscapePrintable(bytes: seq<byte>)
    requires forall i :: 0 <= i < |bytes| ==> 32 <= bytes[i] <= 127
    ensures EscapeBytes(bytes) == BytesToText(bytes)
  {
    if bytes != [] {
      var init := bytes[..|bytes| - 1];
      EscapePrintable(init);
      assert BytesToText(bytes) == BytesToText(init) + [bytes[|bytes| - 1] as char];
    }
  }

  /**
   * The shown text is ambiguous, because `\x` is followed by unpadded hex digits: the bytes
   * 0x01 '0' and the single byte 0x10 are both shown as `\x10`.
   */
  lemma EscapeNotInjective()
    ensures EscapeBytes([0x01, 0x30]) == EscapeBytes([0x10]) == "\\x10"
  {
    HexDigit(1);
    HexDigit(0x10);
    assert [0x01, 0x30][..1] == [0x01];
    assert [0x01][..0] == [];
    var single: seq<byte> := [0x10];
    assert single[..0] == [];
  }

  lemma HexDigit(n: nat)
    requires n == 1 || n == 0x10
    ensures n == 1 ==> JsText.HexUpper(n) == "1"
    ensures n == 0x10 ==> JsText.HexUpper(n) == "10"
  {
    if n == 0x10 {
      assert JsText.Digits(0x10, 16) == JsText.Digits(1, 16) + [0];
    }
  }

  /** `toReadable(data)` of the handler `c`. */
  function ReadableSpec(c: Codec, v: TagValue): (r: string)
    requires Fits(c, v)
  {
    match c
    case BaseCodec => ""
    case ByteCodec => JoinNumbers(v.nums)
    case ShortCodec => JoinNumbers(v.nums)
    case LongCodec => JoinNumbers(v.nums)
    case ShortOrLongCodec => JoinNumbers(v.nums)
    case AsciiCodec => v.text
    case RationalCodec => RationalText(v.fracs)
    case UndefinedCodec => EscapeBytes(v.bytes)
    case UnknownCodec =>
      "Unknown data (type " + JsText.IntToString(v.raw.tagType) + " count " + JsText.IntToString(v.raw.count) + ")"
  }

  /** `toReadable(data)`, running the loops of the Rational and Undefined handlers. */
  method ToReadable(c: Codec, v: TagValue) returns (r: string)
    requires Fits(c, v)
    ensures r == ReadableSpec(c, v)
  {
    match c
    case RationalCodec =>
      r := RationalToReadable(v.fracs);
    case UndefinedCodec =>
      r := UndefinedToReadable(v.bytes);
    case _ =>
      r := ReadableSpec(c, v);
  }
}
