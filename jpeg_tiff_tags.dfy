/**
 * The tag catalog and display formatters of rime-mod/jpeg_tiff_tags.mjs.
 *
 * A handler class of the source is a field-type handler (`Codec`) together with the way its
 * `toReadable` is overridden (`Formatter`). Classes made by `defineEnumHandler`,
 * `defineUnitHandler` and `defineRationalUnitHandler` are new on every call, so a
 * `HandlerClass` also records the source line of the call that made it (0 for a named class):
 * the two "pixels" classes are distinct classes with the same behaviour.
 *
 * Floating-point quotients are not rendered: a display is a sequence of `Piece`s in which a
 * quotient `n / d` (and the clock time computed from three of them) stays symbolic.
 */
module JpegTiffTags {
  import opened Wrappers
  import opened BinaryManipulation
  import opened JpegTiffTagType
  import JsText

  // Formatters

  /** The value tables of the `defineEnumHandler` calls; keys are property names, as in a JavaScript object. */
  datatype EnumTable =
    | OrientationTable | ResolutionUnitTable | ExposureProgramTable | MeteringModeTable | LightSourceTable
    | SensingMethodTable | FileSourceTable | SceneTypeTable | GpsStatusTable | GpsMeasureModeTable | SpeedUnitTable

  function Labels(t: EnumTable): map<string, string>
  {
    match t
    case OrientationTable => map[
      "1" := "Top Left", "2" := "Top Right", "3" := "Bottom Right", "4" := "Bottom Left",
      "5" := "Left Top", "6" := "Right Top", "7" := "Right Bottom", "8" := "Left Bottom"]
    case ResolutionUnitTable => map["1" := "Relative", "2" := "Inch", "3" := "Centimeter"]
    case ExposureProgramTable => map[
      "0" := "Not Defined", "1" := "Manual", "2" := "Normal Program", "3" := "Aperture Priority",
      "4" := "Shutter Priority", "5" := "Creative Program (DoF)", "6" := "Action Program (fast shutter)",
      "7" := "Portrait Mode (close-up)", "8" := "Landscape Mode (background)"]
    case MeteringModeTable => map[
      "0" := "Unknown", "1" := "Average", "2" := "Center Weighted Average", "3" := "Spot",
      "4" := "Multi-spot", "5" := "Pattern", "6" := "Partial", "255" := "Other"]
    case LightSourceTable => map[
      "0" := "Unknown", "1" := "Daylight", "2" := "Fluorescent", "3" := "Tungsten (Incandescent Light)",
      "4" := "Flash", "9" := "Fine Weather", "10" := "Cloudy Weather", "11" := "Shade",
      "12" := "Daylight Fluorescent (D 5700 - 7100K)", "13" := "Day White Fluorescent (N 4600 - 5500K)",
      "14" := "Cool white Fluorescent (W 3800 - 4500K)", "15" := "White Fluorescent (WW 3250 - 3800K)",
      "16" := "Warm white fluorescent (L 2600 - 3250K)", "17" := "Standard Light A", "18" := "Standard Light B",
      "19" := "Standard Light C", "20" := "D55", "21" := "D65", "22" := "D75", "23" := "D50",
      "24" := "ISO Studio Tungsten", "255" := "Other"]
    case SensingMethodTable => map[
      "1" := "Not Defined", "2" := "One-Chip Color Area Sensor", "3" := "Two-Chip Color Area Sensor",
      "4" := "Three-Chip Color Area Sensor", "5" := "Color Sequential Area Sensor", "6" := "Trilinear Area Sensor",
      "7" := "Color Sequential Linear Sensor"]
    case FileSourceTable => map[
      "0" := "Other", "1" := "Scanner (Transparent Type)", "2" := "Scanner (Reflex Type)", "3" := "DSC"]
    case SceneTypeTable => map["1" := "Direct Photograph"]
    case GpsStatusTable => map["A" := "Measurement In Progress", "V" := "Measurement Interrupted"]
    case GpsMeasureModeTable => map["2" := "2-Dimensional Measurement", "3" := "3-Dimensional Measurement"]
    case SpeedUnitTable => map["K" := "Km/h", "M" := "Mph", "N" := "Knots"]
  }

  /** How a handler class overrides `toReadable`. */
  datatype Formatter =
    | Inherited                            // the field-type handler's own `toReadable`
    | Enum(table: EnumTable, fallback: string)
    | Unit(base: Formatter, unit: string)  // `super.toReadable(data) + " " + unit`
    | RationalUnit(unit: string)
    | CopyrightFormat
    | FNumberFormat
    | SubjectDistanceFormat
    | FlashStatusFormat
    | UserCommentFormat
    | LensSpecFormat
    | LatRefFormat
    | LonRefFormat
    | GpsPositionFormat
    | AltitudeRefFormat
    | GpsTimestampFormat
    | RationalToFloatFormat

  /** A handler class: the handler it extends, its formatter, and the line of the factory call that made it. */
  datatype HandlerClass = HandlerClass(site: nat, codec: Codec, fmt: Formatter)

  /** A piece of displayed text; quotients are JavaScript doubles and are kept symbolic. */
  datatype Piece =
    | Lit(s: string)
    | Quotient(f: Fraction)                   // `${f.n / f.d}`
    | ClockTime(hours: Fraction, minutes: Fraction, seconds: Fraction)

  type Display = seq<Piece>

  function Str(s: string): Display
  {
    [Lit(s)]
  }

  /** The handler each formatter's class extends in the source, and hence the value shape it reads. */
  predicate Shaped(fmt: Formatter, codec: Codec)
  {
    match fmt
    case Inherited => true
    case Enum(_, _) => codec in {ShortCodec, UndefinedCodec, AsciiCodec}
    case Unit(base, _) =>
      (base == Inherited && codec in {ShortOrLongCodec, RationalCodec}) || (base == RationalToFloatFormat && codec == RationalCodec)
    case RationalUnit(_) => codec == RationalCodec
    case CopyrightFormat => codec == AsciiCodec
    case FNumberFormat => codec == RationalCodec
    case SubjectDistanceFormat => codec == RationalCodec
    case FlashStatusFormat => codec == ShortCodec
    case UserCommentFormat => codec == UndefinedCodec
    case LensSpecFormat => codec == RationalCodec
    case LatRefFormat => codec == AsciiCodec
    case LonRefFormat => codec == AsciiCodec
    case GpsPositionFormat => codec == RationalCodec
    case AltitudeRefFormat => codec == ByteCodec
    case GpsTimestampFormat => codec == RationalCodec
    case RationalToFloatFormat => codec == RationalCodec
  }

  predicate WellFormed(cls: HandlerClass)
  {
    Shaped(cls.fmt, cls.codec)
  }

  /** The property name `values[data[0]]` looks up: `data[0]` of an empty value is `undefined`. */
  function EnumKey(v: TagValue): string
    requires v.Numbers? || v.Text? || v.Bytes?
  {
    match v
    case Numbers(nums) => if |nums| == 0 then "undefined" else JsText.IntToString(nums[0])
    case Text(t) => if |t| == 0 then "undefined" else [t[0]]
    case Bytes(b) => if |b| == 0 then "undefined" else JsText.IntToString(b[0])
  }

  /** `defineEnumHandler`: the label of the key when there is a non-empty one, else the default. */
  function EnumText(labels: map<string, string>, fallback: string, key: string): (r: string)
    ensures key in labels && labels[key] != "" ==> r == labels[key]
    ensures !(key in labels && labels[key] != "") ==> r == fallback
  {
    if key in labels && labels[key] != "" then labels[key] else fallback
  }

  /** `CopyrightTypeHandler.filter`: keep every part but a single space. */
  function DropSpaces(parts: seq<string>): (r: seq<string>)
    ensures |r| <= |parts|
    ensures forall i :: 0 <= i < |r| ==> r[i] != " " && r[i] in parts
  {
    if parts == [] then []
    else
      var init := DropSpaces(parts[..|parts| - 1]);
      assert forall p :: p in parts[..|parts| - 1] ==> p in parts;
      if parts[|parts| - 1] == " " then init else init + [parts[|parts| - 1]]
  }

  /** The filter keeps a single part unless it is " ". */
  lemma DropSpacesOne(p: string)
    ensures DropSpaces([p]) == if p == " " then [] else [p]
  {
    assert [p][..0] == [];
  }

  /** The filter works part by part: every other part is kept, in order. */
  lemma {:induction false} DropSpacesAppend(a: seq<string>, b: seq<string>)
    ensures DropSpaces(a + b) == DropSpaces(a) + DropSpaces(b)
    decreases |b|
  {
    if b == [] {
      assert a + b == a;
    } else {
      var init, last := b[..|b| - 1], b[|b| - 1];
      assert (a + b)[..|a + b| - 1] == a + init;
      assert (a + b)[|a + b| - 1] == last;
      DropSpacesAppend(a, init);
    }
  }

  /** `CopyrightTypeHandler.toReadable`: the NUL-separated parts, spaces dropped, joined with ". ". */
  function CopyrightText(s: string): (r: string)
    ensures '\0' !in r
  {
    var parts := JsText.Split(s, '\0');
    JsText.SplitPiecesFree(s, '\0');
    var kept := DropSpaces(parts);
    assert forall i :: 0 <= i < |kept| ==> '\0' !in kept[i] by {
      forall i | 0 <= i < |kept| ensures '\0' !in kept[i] {
        var j :| 0 <= j < |parts| && parts[j] == kept[i];
      }
    }
    JoinNulFree(kept, ". ");
    JsText.Join(kept, ". ")
  }

  /** A notice without NUL is shown unchanged, unless it is a single space, which shows as "". */
  lemma CopyrightSinglePart(s: string)
    requires '\0' !in s
    ensures CopyrightText(s) == if s == " " then "" else s
  {
    JsText.SplitNoSeparator(s, '\0');
    assert [s][..0] == [];
  }

  /** The pieces joined with a NUL-free separator contain no NUL when none of them does. */
  lemma {:induction false} JoinNulFree(parts: seq<string>, sep: string)
    requires '\0' !in sep
    requires forall i :: 0 <= i < |parts| ==> '\0' !in parts[i]
    ensures '\0' !in JsText.Join(parts, sep)
  {
    if |parts| > 1 {
      JoinNulFree(parts[..|parts| - 1], sep);
    }
  }

  /** `GPSLatRefHandler.toReadable`. */
  function LatRefText(s: string): (r: string)
    ensures r == "North" <==> s == "N"
    ensures r == "South" <==> s == "S"
    ensures r == "Reserved" <==> s != "N" && s != "S"
  {
    if s == "N" then "North" else if s == "S" then "South" else "Reserved"
  }

  /** `GPSLonRefHandler.toReadable`. */
  function LonRefText(s: string): (r: string)
    ensures r == "East" <==> s == "E"
    ensures r == "West" <==> s == "W"
    ensures r == "Reserved" <==> s != "E" && s != "W"
  {
    if s == "E" then "East" else if s == "W" then "West" else "Reserved"
  }

  /** `GPSAltitudeRefHandler.toReadable`: `undefined == 0` is false, so no data reads as below sea level. */
  function AltitudeRefText(nums: seq<int>): (r: string)
    ensures r == "At/Above Sea Level" <==> |nums| > 0 && nums[0] == 0
    ensures r == "Below Sea Level" <==> !(|nums| > 0 && nums[0] == 0)
  {
    if |nums| > 0 && nums[0] == 0 then "At/Above Sea Level" else "Below Sea Level"
  }

  // Flash

  function ReturnLightText(code: int): string
  {
    match code
    case 0 => "No Return Detection"
    case 2 => "No Strobe Return Light"
    case 3 => "Strobe Return Light"
    case _ => "Reserved Return Light"
  }

  function FlashModeText(code: int): string
  {
    match code
    case 1 => "Compulsory Firing"
    case 2 => "Compulsory Suppression"
    case 3 => "Auto Mode"
    case _ => "Unknown Flash Mode"
  }

  /**
   * The five parts `FlashStatusHandler.toReadable` joins. JavaScript's `&` and `>>` act on the
   * two's complement of the value; the low bits they select are the Euclidean `/` and `%` below.
   */
  function FlashParts(flash: int): (r: seq<string>)
    ensures |r| == 5
  {
    [ if flash % 2 == 1 then "Fired" else "Not Fired",
      ReturnLightText((flash / 2) % 4),
      FlashModeText((flash / 8) % 4),
      if (flash / 32) % 2 == 1 then "Has Flash" else "No Flash",
      if (flash / 64) % 2 == 1 then "Red-Eye Reduction" else "No Red-Eye Reduction" ]
  }

  /** `data[0]` as the bit operators see it: 0 when there is no element. */
  function FlashValue(nums: seq<int>): int
  {
    if |nums| == 0 then 0 else nums[0]
  }

  /**
   * The display of a flash value: with no value the bits read as 0, and of a value only bits 0
   * to 6 of the first number show.
   */
  function FlashText(nums: seq<int>): (r: string)
    ensures |nums| == 0 ==> r == JsText.Join(FlashParts(0), ", ")
    ensures |nums| > 0 ==> r == JsText.Join(FlashParts(nums[0] % 128), ", ")
  {
    FlashRoundTrip(FlashValue(nums));
    JsText.Join(FlashParts(FlashValue(nums)), ", ")
  }

  /** Euclidean division by a power of two is determined by any quotient and remainder in range. */
  lemma DivMod(x: int, d: int, q: int, r: int)
    requires d in {2, 4, 8, 32, 64, 128}
    requires x == d * q + r && 0 <= r < d
    ensures x / d == q && x % d == r
  {
  }

  /** The seven low bits of a number, as the five fields of the flash value. */
  lemma FlashFields(flash: int)
    ensures var r := flash % 128;
      && r == flash % 2 + 2 * ((flash / 2) % 4) + 8 * ((flash / 8) % 4) + 32 * ((flash / 32) % 2) + 64 * ((flash / 64) % 2)
      && r % 2 == flash % 2 && (r / 2) % 4 == (flash / 2) % 4 && (r / 8) % 4 == (flash / 8) % 4
      && (r / 32) % 2 == (flash / 32) % 2 && (r / 64) % 2 == (flash / 64) % 2
  {
    var q1, b0 := flash / 2, flash % 2;
    var q3, b12 := q1 / 4, q1 % 4;
    var q5, b34 := q3 / 4, q3 % 4;
    var q6, b5 := q5 / 2, q5 % 2;
    var q7, b6 := q6 / 2, q6 % 2;
    DivMod(flash, 8, q3, b0 + 2 * b12);
    DivMod(flash, 32, q5, b0 + 2 * b12 + 8 * b34);
    DivMod(flash, 64, q6, b0 + 2 * b12 + 8 * b34 + 32 * b5);
    var r := b0 + 2 * b12 + 8 * b34 + 32 * b5 + 64 * b6;
    DivMod(flash, 128, q7, r);
    DivMod(r, 2, b12 + 4 * b34 + 16 * b5 + 32 * b6, b0);
    DivMod(r / 2, 4, b34 + 4 * b5 + 8 * b6, b12);
    DivMod(r, 8, b34 + 4 * b5 + 8 * b6, b0 + 2 * b12);
    DivMod(r / 8, 4, b5 + 2 * b6, b34);
    DivMod(r, 32, b5 + 2 * b6, b0 + 2 * b12 + 8 * b34);
    DivMod(r / 32, 2, b6, b5);
    DivMod(r, 64, b6, b0 + 2 * b12 + 8 * b34 + 32 * b5);
  }

  function ReturnLightCode(s: string): int
  {
    if s == "No Return Detection" then 0
    else if s == "No Strobe Return Light" then 2
    else if s == "Strobe Return Light" then 3
    else 1
  }

  function FlashModeCode(s: string): int
  {
    if s == "Compulsory Firing" then 1
    else if s == "Compulsory Suppression" then 2
    else if s == "Auto Mode" then 3
    else 0
  }

  /** Reads the flash bits back from the five parts. */
  function FlashBits(parts: seq<string>): int
    requires |parts| == 5
  {
    (if parts[0] == "Fired" then 1 else 0) + 2 * ReturnLightCode(parts[1]) + 8 * FlashModeCode(parts[2])
    + (if parts[3] == "Has Flash" then 32 else 0) + (if parts[4] == "Red-Eye Reduction" then 64 else 0)
  }

  /**
   * The five parts name bits 0 to 6 of the flash value without loss: they read back as the
   * value modulo 128, and higher bits do not show.
   */
  lemma FlashRoundTrip(flash: int)
    ensures FlashBits(FlashParts(flash)) == flash % 128
    ensures FlashParts(flash) == FlashParts(flash % 128)
  {
    FlashFields(flash);
    var light, mode := (flash / 2) % 4, (flash / 8) % 4;
    assert ReturnLightCode(ReturnLightText(light)) == light;
    assert FlashModeCode(FlashModeText(mode)) == mode;
  }

  /** The first `switch` of `FlashStatusHandler.toReadable`, on the return-light bits. */
  method ReturnLightLabel(code: int) returns (text: string)
    ensures text == ReturnLightText(code)
  {
    if code == 0 {
      text := "No Return Detection";
    } else if code == 2 {
      text := "No Strobe Return Light";
    } else if code == 3 {
      text := "Strobe Return Light";
    } else {
      text := "Reserved Return Light";
    }
  }

  /** The second `switch` of `FlashStatusHandler.toReadable`, on the flash-mode bits. */
  method FlashModeLabel(code: int) returns (text: string)
    ensures text == FlashModeText(code)
  {
    if code == 1 {
      text := "Compulsory Firing";
    } else if code == 2 {
      text := "Compulsory Suppression";
    } else if code == 3 {
      text := "Auto Mode";
    } else {
      text := "Unknown Flash Mode";
    }
  }

  /** `FlashStatusHandler.toReadable`: pushes the five parts, then joins them with ", ". */
  method FlashStatusToReadable(nums: seq<int>) returns (r: string)
    ensures r == FlashText(nums)
  {
    var flash := if |nums| == 0 then 0 else nums[0];
    var result := [if flash % 2 == 1 then "Fired" else "Not Fired"];
    var returnLight := ReturnLightLabel((flash / 2) % 4);
    result := result + [returnLight];
    var mode := FlashModeLabel((flash / 8) % 4);
    result := result + [mode];
    result := result + [if (flash / 32) % 2 == 1 then "Has Flash" else "No Flash"];
    result := result + [if (flash / 64) % 2 == 1 then "Red-Eye Reduction" else "No Red-Eye Reduction"];
    assert result == FlashParts(flash);
    r := JsText.Join(result, ", ");
  }

  // User comment

  const CODE_ASCII: seq<int> := [0x41, 0x53, 0x43, 0x49, 0x49, 0, 0, 0]
  const CODE_JIS: seq<int> := [0x4A, 0x49, 0x53, 0, 0, 0, 0, 0]
  const CODE_UNICODE: seq<int> := [0x55, 0x4E, 0x49, 0x43, 0x4F, 0x44, 0x45, 0]
  const CODE_UNDEFINED: seq<int> := [0, 0, 0, 0, 0, 0, 0, 0]

  /**
   * `isArrayEqual(haystack, needle, start)`: false unless the needle ends strictly before the
   * end of the haystack, then element-wise equality (an index below 0 reads `undefined`).
   */
  predicate ArrayEqual(haystack: seq<byte>, needle: seq<int>, start: int)
  {
    start + |needle| < |haystack|
    && forall i :: 0 <= i < |needle| ==> Element(haystack, start + i) == Some(needle[i])
  }

  /** `haystack[k]` of a typed array: `undefined` outside its bounds. */
  function Element(haystack: seq<byte>, k: int): (r: Option<int>)
    ensures r.Some? <==> 0 <= k < |haystack|
  {
    if 0 <= k < |haystack| then Some(haystack[k]) else None
  }

  /** From the start, the guard makes the needle match only a strictly longer haystack. */
  lemma ArrayEqualPrefix(haystack: seq<byte>, needle: seq<int>)
    ensures ArrayEqual(haystack, needle, 0) <==> |needle| < |haystack| && haystack[..|needle|] == needle
  {
    if |needle| < |haystack| && haystack[..|needle|] == needle {
      forall i | 0 <= i < |needle| ensures Element(haystack, i) == Some(needle[i]) {
        assert haystack[..|needle|][i] == haystack[i];
      }
    }
  }

  /** `UserCommentHandler.isArrayEqual`: returns at the first mismatch. */
  method IsArrayEqual(haystack: seq<byte>, needle: seq<int>, start: int) returns (r: bool)
    ensures r == ArrayEqual(haystack, needle, start)
  {
    if start + |needle| >= |haystack| {
      return false;
    }
    var i := 0;
    while i < |needle|
      invariant 0 <= i <= |needle|
      invariant forall k :: 0 <= k < i ==> Element(haystack, start + k) == Some(needle[k])
    {
      if start + i < 0 || haystack[start + i] != needle[i] {
        assert Element(haystack, start + i) != Some(needle[i]);
        return false;
      }
      i := i + 1;
    }
    return true;
  }

  /** `UserCommentHandler.toReadable`: the character code prefix decides, tested in this order. */
  function UserCommentText(bytes: seq<byte>): (r: string)
  {
    if ArrayEqual(bytes, CODE_ASCII, 0) then BytesToText(bytes[8..])
    else if ArrayEqual(bytes, CODE_UNDEFINED, 0) then EscapeBytes(bytes[8..])
    else if ArrayEqual(bytes, CODE_JIS, 0) then "TODO JIS " + EscapeBytes(bytes[8..])
    else if ArrayEqual(bytes, CODE_UNICODE, 0) then "TODO UNICODE " + EscapeBytes(bytes[8..])
    else "Unknown Data"
  }

  /**
   * A comment of eight bytes or fewer is "Unknown Data", even one that is exactly a character
   * code: the code must end strictly before the end of the comment.
   */
  lemma ShortCommentUnknown(bytes: seq<byte>)
    requires |bytes| <= 8
    ensures UserCommentText(bytes) == "Unknown Data"
  {
  }

  /** An ASCII code followed by text shows the text. */
  lemma AsciiComment(text: seq<byte>)
    requires |text| > 0
    ensures UserCommentText(CodeBytes(CODE_ASCII) + text) == BytesToText(text)
  {
    var bytes := CodeBytes(CODE_ASCII) + text;
    ArrayEqualPrefix(bytes, CODE_ASCII);
    assert bytes[..8] == CodeBytes(CODE_ASCII);
    assert bytes[8..] == text;
  }

  /** A JIS code followed by text shows the escaped bytes after a marker. */
  lemma JisComment(text: seq<byte>)
    requires |text| > 0
    ensures UserCommentText(CodeBytes(CODE_JIS) + text) == "TODO JIS " + EscapeBytes(text)
  {
    var bytes := CodeBytes(CODE_JIS) + text;
    ArrayEqualPrefix(bytes, CODE_JIS);
    assert bytes[..8] == CodeBytes(CODE_JIS);
    assert bytes[8..] == text;
    assert Element(bytes, 0) == Some(0x4A);
    assert !ArrayEqual(bytes, CODE_ASCII, 0) by {
      assert Element(bytes, 0) != Some(CODE_ASCII[0]);
    }
    assert !ArrayEqual(bytes, CODE_UNDEFINED, 0) by {
      assert Element(bytes, 0) != Some(CODE_UNDEFINED[0]);
    }
  }

  /** An undefined code (eight zero bytes) followed by text shows the escaped bytes alone. */
  lemma UndefinedComment(text: seq<byte>)
    requires |text| > 0
    ensures UserCommentText(CodeBytes(CODE_UNDEFINED) + text) == EscapeBytes(text)
  {
    var bytes := CodeBytes(CODE_UNDEFINED) + text;
    ArrayEqualPrefix(bytes, CODE_UNDEFINED);
    assert bytes[..8] == CodeBytes(CODE_UNDEFINED);
    assert bytes[8..] == text;
    assert Element(bytes, 0) == Some(0);
    assert !ArrayEqual(bytes, CODE_ASCII, 0) by {
      assert Element(bytes, 0) != Some(CODE_ASCII[0]);
    }
  }

  /** A Unicode code followed by text shows the escaped bytes after a marker; the UCS-2 text is not decoded. */
  lemma UnicodeComment(text: seq<byte>)
    requires |text| > 0
    ensures UserCommentText(CodeBytes(CODE_UNICODE) + text) == "TODO UNICODE " + EscapeBytes(text)
  {
    var bytes := CodeBytes(CODE_UNICODE) + text;
    ArrayEqualPrefix(bytes, CODE_UNICODE);
    assert bytes[..8] == CodeBytes(CODE_UNICODE);
    assert bytes[8..] == text;
    assert Element(bytes, 0) == Some(0x55);
    assert !ArrayEqual(bytes, CODE_ASCII, 0) by {
      assert Element(bytes, 0) != Some(CODE_ASCII[0]);
    }
    assert !ArrayEqual(bytes, CODE_UNDEFINED, 0) by {
      assert Element(bytes, 0) != Some(CODE_UNDEFINED[0]);
    }
    assert !ArrayEqual(bytes, CODE_JIS, 0) by {
      assert Element(bytes, 0) != Some(CODE_JIS[0]);
    }
  }

  function CodeBytes(code: seq<int>): (r: seq<byte>)
    requires forall i :: 0 <= i < |code| ==> 0 <= code[i] < 256
    ensures |r| == |code| && forall i :: 0 <= i < |code| ==> r[i] == code[i]
  {
    seq(|code|, i requires 0 <= i < |code| => code[i] as byte)
  }

  /** `UserCommentHandler.toReadable`, with its character loop for the ASCII case. */
  method UserCommentToReadable(bytes: seq<byte>) returns (r: string)
    ensures r == UserCommentText(bytes)
  {
    var ascii := IsArrayEqual(bytes, CODE_ASCII, 0);
    if ascii {
      var rest := bytes[8..];
      var result: seq<string> := [];
      for i := 0 to |rest|
        invariant JsText.Flatten(result) == BytesToText(rest[..i])
      {
        assert rest[..i + 1] == rest[..i] + [rest[i]];
        assert BytesToText(rest[..i + 1]) == BytesToText(rest[..i]) + [rest[i] as char];
        JsText.FlattenAppend(result, [[rest[i] as char]]);
        assert [[rest[i] as char]][..0] == [];
        result := result + [[rest[i] as char]];
      }
      assert rest[..|rest|] == rest;
      r := JsText.Join(result, "");
      JoinEmptyIsFlatten(result);
      return;
    }
    var undefinedCode := IsArrayEqual(bytes, CODE_UNDEFINED, 0);
    if undefinedCode {
      r := UndefinedToReadable(bytes[8..]);
      return;
    }
    var jis := IsArrayEqual(bytes, CODE_JIS, 0);
    if jis {
      var tail := UndefinedToReadable(bytes[8..]);
      r := "TODO JIS " + tail;
      return;
    }
    var unicode := IsArrayEqual(bytes, CODE_UNICODE, 0);
    if unicode {
      var tail := UndefinedToReadable(bytes[8..]);
      r := "TODO UNICODE " + tail;
      return;
    }
    r := "Unknown Data";
  }

  // Rational formatters

  /** `LensSpecHandler.stringify`. */
  function LensPart(f: Fraction): Piece
  {
    if f.d == 0 then Lit("Unknown") else Quotient(f)
  }

  /** The text a handler class shows for a decoded value; `data[0].n` of no data is a TypeError. */
  function Format(fmt: Formatter, codec: Codec, v: TagValue): (r: Result<Display, string>)
    requires Shaped(fmt, codec) && Fits(codec, v)
    ensures r.Failure? ==> r.error == "TypeError" && v.Fractions? && |v.fracs| == 0
  {
    match fmt
    case Inherited => Success(Str(ReadableSpec(codec, v)))
    case Enum(table, fallback) => Success(Str(EnumText(Labels(table), fallback, EnumKey(v))))
    case Unit(base, unit) =>
      var inner := Format(base, codec, v);
      if inner.Failure? then inner else Success(inner.value + Str(" " + unit))
    case RationalUnit(unit) =>
      if |v.fracs| == 0 then Failure("TypeError")
      else if v.fracs[0].d == 0xFFFF_FFFF then Success(Str("Unknown"))
      else Success([Quotient(v.fracs[0]), Lit(" " + unit)])
    case CopyrightFormat => Success(Str(CopyrightText(v.text)))
    case FNumberFormat =>
      if |v.fracs| == 0 then Failure("TypeError") else Success([Lit("f/"), Quotient(v.fracs[0])])
    case SubjectDistanceFormat =>
      if |v.fracs| == 0 then Failure("TypeError")
      else if v.fracs[0].n == 0xFFFF_FFFF then Success(Str("Infinity"))
      else if v.fracs[0].n == 0 then Success(Str("Unknown"))
      else Success([Quotient(v.fracs[0]), Lit(" meter(s)")])
    case FlashStatusFormat => Success(Str(FlashText(v.nums)))
    case UserCommentFormat => Success(Str(UserCommentText(v.bytes)))
    case LensSpecFormat =>
      var d := v.fracs;
      if |d| < 4 then Success(Str("Unknown"))
      else Success([Lit("Focal Length "), LensPart(d[0]), Lit(" - "), LensPart(d[1]), Lit(" mm, f/"),
                    LensPart(d[2]), Lit(" - f/"), LensPart(d[3])])
    case LatRefFormat => Success(Str(LatRefText(v.text)))
    case LonRefFormat => Success(Str(LonRefText(v.text)))
    case GpsPositionFormat =>
      var d := v.fracs;
      if |d| < 3 then Success(Str("Unknown"))
      else Success([Quotient(d[0]), Lit("°"), Quotient(d[1]), Lit("'"), Quotient(d[2]), Lit("\"")])
    case AltitudeRefFormat => Success(Str(AltitudeRefText(v.nums)))
    case GpsTimestampFormat =>
      var d := v.fracs;
      if |d| < 3 then Success(Str("Unknown")) else Success([ClockTime(d[0], d[1], d[2])])
    case RationalToFloatFormat =>
      if |v.fracs| == 0 then Failure("TypeError") else Success([Quotient(v.fracs[0])])
  }

  /** `toReadable(data)` of a handler class. */
  function Readable(cls: HandlerClass, v: TagValue): Result<Display, string>
    requires WellFormed(cls) && Fits(cls.codec, v)
  {
    Format(cls.fmt, cls.codec, v)
  }

  /** `toReadable(data)`, running the loops of the source where it has them. */
  method ToReadable(cls: HandlerClass, v: TagValue) returns (r: Result<Display, string>)
    requires WellFormed(cls) && Fits(cls.codec, v)
    ensures r == Readable(cls, v)
  {
    match cls.fmt
    case Inherited =>
      var s := JpegTiffTagType.ToReadable(cls.codec, v);
      r := Success(Str(s));
    case FlashStatusFormat =>
      var s := FlashStatusToReadable(v.nums);
      r := Success(Str(s));
    case UserCommentFormat =>
      var s := UserCommentToReadable(v.bytes);
      r := Success(Str(s));
    case _ =>
      r := Format(cls.fmt, cls.codec, v);
  }

  /**
   * Decoded RATIONAL parts are signed 32-bit numbers, so they never equal 0xFFFFFFFF: the
   * "Unknown" branch of `defineRationalUnitHandler` and the "Infinity" branch of
   * `SubjectDistanceTypeHandler` are never taken for a decoded value.
   */
  lemma DecodedRationalsNeverAllOnes(data: seq<byte>, off: int, bigEndian: bool, count: int, unit: string)
    requires count >= 1
    ensures var fracs := Rationals(data, off, bigEndian, count);
      && Format(RationalUnit(unit), RationalCodec, Fractions(fracs)) == Success([Quotient(fracs[0]), Lit(" " + unit)])
      && Format(SubjectDistanceFormat, RationalCodec, Fractions(fracs)) != Success(Str("Infinity"))
  {
    var fracs := Rationals(data, off, bigEndian, count);
    assert fracs[0] == Fraction(ReadUint32(data, off, bigEndian), ReadUint32(data, off + 4, bigEndian));
  }

  /** The tables looked up with `Text` values, whose keys are single letters. */
  predicate LetterKeyed(table: EnumTable)
  {
    table.GpsStatusTable? || table.SpeedUnitTable?
  }

  predicate IsLetterKey(k: string)
  {
    |k| == 1 && 'A' <= k[0] <= 'Z'
  }

  /**
   * The shape of a value table: every label is non-empty, and every key is a canonical decimal
   * numeral (the property name a number becomes) or, for the GPS status and speed unit tables,
   * a single capital letter.
   */
  predicate TableShape(table: EnumTable)
  {
    forall k | k in Labels(table) ::
      Labels(table)[k] != "" && (if LetterKeyed(table) then IsLetterKey(k) else JsText.IsDecimalNumeral(k))
  }

  lemma OrientationShape()
    ensures TableShape(OrientationTable)
  {
  }

  lemma ResolutionUnitShape()
    ensures TableShape(ResolutionUnitTable)
  {
  }

  lemma ExposureProgramShape()
    ensures TableShape(ExposureProgramTable)
  {
  }

  lemma MeteringModeShape()
    ensures TableShape(MeteringModeTable)
  {
  }

  lemma LightSourceShape()
    ensures TableShape(LightSourceTable)
  {
    var m := Labels(LightSourceTable);
    forall k | k in m
      ensures m[k] != "" && JsText.IsDecimalNumeral(k)
    {
      if |k| == 1 {
        assert '0' <= k[0] <= '9';
      } else {
        assert k[0] != '0';
      }
    }
  }

  lemma SensingMethodShape()
    ensures TableShape(SensingMethodTable)
  {
  }

  lemma FileSourceShape()
    ensures TableShape(FileSourceTable)
  {
  }

  lemma SceneTypeShape()
    ensures TableShape(SceneTypeTable)
  {
  }

  lemma GpsStatusShape()
    ensures TableShape(GpsStatusTable)
  {
  }

  lemma GpsMeasureModeShape()
    ensures TableShape(GpsMeasureModeTable)
  {
  }

  lemma SpeedUnitShape()
    ensures TableShape(SpeedUnitTable)
  {
  }

  /** Every value table of the catalog has that shape. */
  lemma TablesShape(table: EnumTable)
    ensures TableShape(table)
  {
    match table
    case OrientationTable => OrientationShape();
    case ResolutionUnitTable => ResolutionUnitShape();
    case ExposureProgramTable => ExposureProgramShape();
    case MeteringModeTable => MeteringModeShape();
    case LightSourceTable => LightSourceShape();
    case SensingMethodTable => SensingMethodShape();
    case FileSourceTable => FileSourceShape();
    case SceneTypeTable => SceneTypeShape();
    case GpsStatusTable => GpsStatusShape();
    case GpsMeasureModeTable => GpsMeasureModeShape();
    case SpeedUnitTable => SpeedUnitShape();
  }

  /**
   * Every label of a table can be shown, whichever way the table's handler decodes its value:
   * a numeric key is the property name of the number it denotes, read as a SHORT or, below 256,
   * as a byte; a one-character key, letter or digit, is the first character of that ASCII text.
   */
  lemma EveryLabelReachable(table: EnumTable, fallback: string, k: string)
    requires k in Labels(table)
    ensures !LetterKeyed(table) ==>
      EnumText(Labels(table), fallback, EnumKey(Numbers([JsText.ParseNumeral(k, 10)]))) == Labels(table)[k]
    ensures !LetterKeyed(table) && JsText.ParseNumeral(k, 10) < 256 ==>
      EnumText(Labels(table), fallback, EnumKey(Bytes([JsText.ParseNumeral(k, 10)]))) == Labels(table)[k]
    ensures LetterKeyed(table) || |k| == 1 ==> EnumText(Labels(table), fallback, EnumKey(Text(k))) == Labels(table)[k]
  {
    TablesShape(table);
    LabelReachable(Labels(table), LetterKeyed(table), fallback, k);
  }

  /** A key of the shape `TableShape` asks for is the key of the value it names. */
  lemma LabelReachable(labels: map<string, string>, letters: bool, fallback: string, k: string)
    requires k in labels && labels[k] != ""
    requires if letters then IsLetterKey(k) else JsText.IsDecimalNumeral(k)
    ensures !letters ==> EnumText(labels, fallback, EnumKey(Numbers([JsText.ParseNumeral(k, 10)]))) == labels[k]
    ensures !letters && JsText.ParseNumeral(k, 10) < 256 ==>
      EnumText(labels, fallback, EnumKey(Bytes([JsText.ParseNumeral(k, 10)]))) == labels[k]
    ensures letters || |k| == 1 ==> EnumText(labels, fallback, EnumKey(Text(k))) == labels[k]
  {
    if !letters {
      JsText.NumeralIsNatToString(k);
    }
    if |k| == 1 {
      assert [k[0]] == k;
    }
  }

  /**
   * `v ? v : defval` treats an empty label as missing, but no table has one: an enum shows the
   * label of a listed key and the default otherwise, and the default when there is no value
   * (no table has the key "undefined").
   */
  lemma EnumLabels(table: EnumTable, fallback: string, v: TagValue)
    requires v.Numbers? || v.Text? || v.Bytes?
    ensures var key := EnumKey(v);
      && (key in Labels(table) ==> EnumText(Labels(table), fallback, key) == Labels(table)[key])
      && (key !in Labels(table) ==> EnumText(Labels(table), fallback, key) == fallback)
    ensures (v == Numbers([]) || v == Bytes([]) || v == Text("")) ==> EnumText(Labels(table), fallback, EnumKey(v)) == fallback
  {
    TablesShape(table);
    LabelLookup(Labels(table), LetterKeyed(table), fallback, EnumKey(v));
  }

  /**
   * In a label map of the shape `TableShape` asks for, a key finds its label when it is present
   * and the default otherwise; "undefined", the key of an empty value, is never present.
   */
  lemma LabelLookup(labels: map<string, string>, letters: bool, fallback: string, key: string)
    requires forall k | k in labels :: labels[k] != "" && (if letters then IsLetterKey(k) else JsText.IsDecimalNumeral(k))
    ensures key in labels ==> EnumText(labels, fallback, key) == labels[key]
    ensures key !in labels ==> EnumText(labels, fallback, key) == fallback
    ensures EnumText(labels, fallback, "undefined") == fallback
  {
    assert "undefined"[0] == 'u' && |"undefined"| == 9;
  }

  // Catalog

  /** A catalog entry as the rest of the program reads it: the description is left out. */
  datatype CatalogEntry = CatalogEntry(name: string, cls: HandlerClass, level: int)

  const ASCII: HandlerClass := HandlerClass(0, AsciiCodec, Inherited)
  const SHORT: HandlerClass := HandlerClass(0, ShortCodec, Inherited)
  const LONG: HandlerClass := HandlerClass(0, LongCodec, Inherited)
  const RATIONAL: HandlerClass := HandlerClass(0, RationalCodec, Inherited)
  const UNDEFINED: HandlerClass := HandlerClass(0, UndefinedCodec, Inherited)
  const COPYRIGHT: HandlerClass := HandlerClass(0, AsciiCodec, CopyrightFormat)
  const FNUMBER: HandlerClass := HandlerClass(0, RationalCodec, FNumberFormat)
  const SUBJECT_DISTANCE: HandlerClass := HandlerClass(0, RationalCodec, SubjectDistanceFormat)
  const FLASH_STATUS: HandlerClass := HandlerClass(0, ShortCodec, FlashStatusFormat)
  const USER_COMMENT: HandlerClass := HandlerClass(0, UndefinedCodec, UserCommentFormat)
  const LENS_SPEC: HandlerClass := HandlerClass(0, RationalCodec, LensSpecFormat)
  const GPS_LAT_REF: HandlerClass := HandlerClass(0, AsciiCodec, LatRefFormat)
  const GPS_LON_REF: HandlerClass := HandlerClass(0, AsciiCodec, LonRefFormat)
  const GPS_POSITION: HandlerClass := HandlerClass(0, RationalCodec, GpsPositionFormat)
  const GPS_ALTITUDE_REF: HandlerClass := HandlerClass(0, ByteCodec, AltitudeRefFormat)
  const GPS_TIMESTAMP: HandlerClass := HandlerClass(0, RationalCodec, GpsTimestampFormat)
  const RATIONAL_TO_FLOAT: HandlerClass := HandlerClass(0, RationalCodec, RationalToFloatFormat)

  /** The TIFF section of TIFF_TAGS, registered over `m` in the order of the module. */
  function TiffSection(m: map<int, CatalogEntry>): map<int, CatalogEntry>
  {
    m
    [256 := CatalogEntry("Image Width", HandlerClass(335, ShortOrLongCodec, Unit(Inherited, "pixels")), 0)]
    [257 := CatalogEntry("Image Height", HandlerClass(336, ShortOrLongCodec, Unit(Inherited, "pixels")), 0)]
    [271 := CatalogEntry("Manufacturer", ASCII, 2)]
    [272 := CatalogEntry("Model Name", ASCII, 2)]
    [274 := CatalogEntry("Orientation", HandlerClass(339, ShortCodec, Enum(OrientationTable, "Unknown")), 0)]
    [282 := CatalogEntry("X Resolution", RATIONAL, 0)]
    [283 := CatalogEntry("Y Resolution", RATIONAL, 0)]
    [296 := CatalogEntry("Resolution Unit", HandlerClass(355, ShortCodec, Enum(ResolutionUnitTable, "Unknown")), 0)]
    [305 := CatalogEntry("Software", ASCII, 2)]
    [306 := CatalogEntry("Date & Time", ASCII, 2)]
    [315 := CatalogEntry("Artist", ASCII, 1)]
  }

  /** The Exif tags from Copyright to the time offsets, registered over `m` in the order of the module. */
  function ExifDates(m: map<int, CatalogEntry>): map<int, CatalogEntry>
  {
    m
    [0x8298 := CatalogEntry("Copyright", COPYRIGHT, 1)]
    [0x8769 := CatalogEntry("ExifIFD", LONG, 0)]
    [0x8825 := CatalogEntry("GPSIFD", LONG, 0)]
    [0x829A := CatalogEntry("Exposure Time", HandlerClass(375, RationalCodec, Unit(Inherited, "second(s)")), 1)]
    [0x829D := CatalogEntry("f-number", FNUMBER, 1)]
    [0x8822 := CatalogEntry("Exposure Program", HandlerClass(377, ShortCodec, Enum(ExposureProgramTable, "Reserved")), 1)]
    [0x8827 := CatalogEntry("Photo Sensitivity", SHORT, 1)]
    [0x9003 := CatalogEntry("Original Date & Time", ASCII, 2)]
    [0x9004 := CatalogEntry("Digitized Date & Time", ASCII, 2)]
    [0x9010 := CatalogEntry("Time Offset", ASCII, 2)]
    [0x9011 := CatalogEntry("Original Time Offset", ASCII, 2)]
    [0x9012 := CatalogEntry("Digitized Time Offset", ASCII, 2)]
  }

  /** The Exif tags from Subject Distance to the subsecond times, registered over `m` in the order of the module. */
  function ExifShooting(m: map<int, CatalogEntry>): map<int, CatalogEntry>
  {
    m
    [0x9206 := CatalogEntry("Subject Distance", SUBJECT_DISTANCE, 1)]
    [0x9207 := CatalogEntry("Metering Mode", HandlerClass(424, ShortCodec, Enum(MeteringModeTable, "Reserved")), 1)]
    [0x9208 := CatalogEntry("Light Source", HandlerClass(434, ShortCodec, Enum(LightSourceTable, "Reserved")), 1)]
    [0x9209 := CatalogEntry("Flash Status", FLASH_STATUS, 1)]
    [0x920A := CatalogEntry("Focal Length", HandlerClass(461, RationalCodec, Unit(Inherited, "mm")), 1)]
    [0x927C := CatalogEntry("Maker Note", UNDEFINED, 1)]
    [0x9286 := CatalogEntry("User Comment", USER_COMMENT, 1)]
    [0x9290 := CatalogEntry("Subsecond Time", ASCII, 2)]
    [0x9291 := CatalogEntry("Original Subsecond Time", ASCII, 2)]
    [0x9292 := CatalogEntry("Digitized Subsecond Time", ASCII, 2)]
  }

  /** The Exif tags from Humidity to the lens serial number, registered over `m` in the order of the module. */
  function ExifDevice(m: map<int, CatalogEntry>): map<int, CatalogEntry>
  {
    m
    [0x9401 := CatalogEntry("Humidity", HandlerClass(482, RationalCodec, RationalUnit("%")), 1)]
    [0x9402 := CatalogEntry("Pressure", HandlerClass(486, RationalCodec, RationalUnit("hPa")), 1)]
    [0x9404 := CatalogEntry("Acceleration", HandlerClass(491, RationalCodec, RationalUnit("mGal")), 1)]
    [0xA20B := CatalogEntry("Flash Energy", HandlerClass(496, RationalCodec, Unit(Inherited, "BPCS")), 1)]
    [0xA215 := CatalogEntry("Exposure Index", RATIONAL, 1)]
    [0xA217 := CatalogEntry("Sensing Method", HandlerClass(502, ShortCodec, Enum(SensingMethodTable, "Reserved")), 1)]
    [0xA300 := CatalogEntry("File Source", HandlerClass(511, UndefinedCodec, Enum(FileSourceTable, "Reserved")), 1)]
    [0xA301 := CatalogEntry("Scene Type", HandlerClass(517, UndefinedCodec, Enum(SceneTypeTable, "Reserved")), 1)]
    [0xA430 := CatalogEntry("Camera Owner", ASCII, 2)]
    [0xA431 := CatalogEntry("Camera Body S/N", ASCII, 2)]
    [0xA432 := CatalogEntry("Lens Specification", LENS_SPEC, 1)]
    [0xA433 := CatalogEntry("Lens Manufacturer", ASCII, 1)]
    [0xA434 := CatalogEntry("Lens Model", ASCII, 1)]
    [0xA435 := CatalogEntry("Lens S/N", ASCII, 2)]
  }

  /** The GPS tags, registered over `m` in the order of the module. */
  function GpsSection(m: map<int, CatalogEntry>): map<int, CatalogEntry>
  {
    m
    [1 := CatalogEntry("Latitude Ref", GPS_LAT_REF, 2)]
    [2 := CatalogEntry("Latitude", GPS_POSITION, 2)]
    [3 := CatalogEntry("Longitude Ref", GPS_LON_REF, 2)]
    [4 := CatalogEntry("Longitude", GPS_POSITION, 2)]
    [5 := CatalogEntry("Altitude Reference", GPS_ALTITUDE_REF, 2)]
    [6 := CatalogEntry("Altitude", HandlerClass(560, RationalCodec, Unit(RationalToFloatFormat, "meters")), 2)]
    [7 := CatalogEntry("GPS Timestamp", GPS_TIMESTAMP, 2)]
    [8 := CatalogEntry("GPS Satellites", ASCII, 2)]
    [9 := CatalogEntry("GPS Status", HandlerClass(573, AsciiCodec, Enum(GpsStatusTable, "Reserved")), 1)]
    [10 := CatalogEntry("GPS Measurement Mode", HandlerClass(577, AsciiCodec, Enum(GpsMeasureModeTable, "Reserved")), 1)]
    [11 := CatalogEntry("GPS DOP", RATIONAL_TO_FLOAT, 2)]
    [12 := CatalogEntry("Speed Unit", HandlerClass(586, AsciiCodec, Enum(SpeedUnitTable, "Reserved")), 1)]
    [13 := CatalogEntry("Speed", RATIONAL_TO_FLOAT, 1)]
  }
  /** TIFF_TAGS once the module has run. */
  function TiffTags(): map<int, CatalogEntry>
  {
    ExifDevice(ExifShooting(ExifDates(TiffSection(map[]))))
  }

  /** GPS_TAGS once the module has run. */
  function GpsTags(): map<int, CatalogEntry>
  {
    GpsSection(map[])
  }

  /** The ids each section registers, and what it leaves alone. */
  lemma TiffSectionIds(m: map<int, CatalogEntry>, id: int)
    ensures id in TiffSection(m) <==> id in m || id in {256, 257, 271, 272, 274, 282, 283, 296, 305, 306, 315}
  {
  }

  lemma ExifDatesIds(m: map<int, CatalogEntry>, id: int)
    ensures id in ExifDates(m) <==> id in m || (0x8298 <= id <= 0x9012 && id in ExifDates(map[]))
    ensures id in m && id < 0x8298 ==> ExifDates(m)[id] == m[id]
  {
  }

  lemma ExifShootingIds(m: map<int, CatalogEntry>, id: int)
    ensures id in ExifShooting(m) <==> id in m || (0x9206 <= id <= 0x9292 && id in ExifShooting(map[]))
    ensures id in m && id < 0x9206 ==> ExifShooting(m)[id] == m[id]
  {
  }

  lemma ExifDeviceIds(m: map<int, CatalogEntry>, id: int)
    ensures id in ExifDevice(m) <==> id in m || (0x9401 <= id <= 0xA435 && id in ExifDevice(map[]))
    ensures id in m && id < 0x9401 ==> ExifDevice(m)[id] == m[id]
  {
  }

  lemma GpsSectionIds(m: map<int, CatalogEntry>, id: int)
    ensures id in GpsSection(m) <==> id in m || 1 <= id <= 13
  {
  }

  lemma SectionIds(m: map<int, CatalogEntry>, id: int)
    ensures id in TiffSection(m) <==> id in m || id in {256, 257, 271, 272, 274, 282, 283, 296, 305, 306, 315}
    ensures id in ExifDates(m) <==> id in m || (0x8298 <= id <= 0x9012 && id in ExifDates(map[]))
    ensures id in ExifShooting(m) <==> id in m || (0x9206 <= id <= 0x9292 && id in ExifShooting(map[]))
    ensures id in ExifDevice(m) <==> id in m || (0x9401 <= id <= 0xA435 && id in ExifDevice(map[]))
    ensures id in GpsSection(m) <==> id in m || 1 <= id <= 13
    ensures id in m && id < 0x8298 ==> ExifDates(m)[id] == m[id]
    ensures id in m && id < 0x9206 ==> ExifShooting(m)[id] == m[id] && ExifDevice(m)[id] == m[id]
  {
    TiffSectionIds(m, id);
    ExifDatesIds(m, id);
    ExifShootingIds(m, id);
    ExifDeviceIds(m, id);
    GpsSectionIds(m, id);
  }

  /** Ids 1 to 13 are exactly the GPS tags, and every TIFF tag id is above them. */
  lemma CatalogIds(id: int)
    ensures id in GpsTags() <==> 1 <= id <= 13
    ensures id in TiffTags() ==> id >= 256 && id !in GpsTags()
  {
    var m0: map<int, CatalogEntry> := map[];
    SectionIds(m0, id);
    SectionIds(TiffSection(m0), id);
    SectionIds(ExifDates(TiffSection(m0)), id);
    SectionIds(ExifShooting(ExifDates(TiffSection(m0))), id);
  }

  /** A TIFF-section entry keeps its place through the Exif sections. */
  lemma TiffEntry(id: int)
    requires id in TiffSection(map[])
    ensures id in TiffTags() && TiffTags()[id] == TiffSection(map[])[id]
  {
    var t := TiffSection(map[]);
    TiffSectionIds(map[], id);
    ExifDatesIds(t, id);
    var d := ExifDates(t);
    ExifShootingIds(d, id);
    ExifDeviceIds(ExifShooting(d), id);
  }

  /** An id of the first Exif section gets that section's entry, whatever was registered before. */
  lemma ExifDatesOverride(m: map<int, CatalogEntry>, id: int)
    requires id in ExifDates(map[])
    ensures id in ExifDates(m) && ExifDates(m)[id] == ExifDates(map[])[id]
  {
  }

  /** An entry of the first Exif section keeps its place through the later ones. */
  lemma ExifDatesEntry(id: int)
    requires id in ExifDates(map[])
    ensures id in TiffTags() && TiffTags()[id] == ExifDates(map[])[id]
  {
    ExifDatesIds(map[], id);
    var d := ExifDates(TiffSection(map[]));
    ExifDatesOverride(TiffSection(map[]), id);
    ExifShootingIds(d, id);
    ExifDeviceIds(ExifShooting(d), id);
  }

  /** Image Width and Image Height: level 0, each with its own "pixels" class. */
  lemma ImageSizeEntries()
    ensures 256 in TiffTags() && TiffTags()[256] == CatalogEntry("Image Width", HandlerClass(335, ShortOrLongCodec, Unit(Inherited, "pixels")), 0)
    ensures 257 in TiffTags() && TiffTags()[257] == CatalogEntry("Image Height", HandlerClass(336, ShortOrLongCodec, Unit(Inherited, "pixels")), 0)
  {
    TiffEntry(256);
    TiffEntry(257);
  }

  /** Manufacturer and Model Name: plain ASCII, selected by default (level 2). */
  lemma MakerEntries()
    ensures 271 in TiffTags() && TiffTags()[271] == CatalogEntry("Manufacturer", ASCII, 2)
    ensures 272 in TiffTags() && TiffTags()[272] == CatalogEntry("Model Name", ASCII, 2)
  {
    TiffEntry(271);
    TiffEntry(272);
  }

  /** Software and Date & Time: plain ASCII, selected by default (level 2). */
  lemma SoftwareEntries()
    ensures 305 in TiffTags() && TiffTags()[305] == CatalogEntry("Software", ASCII, 2)
    ensures 306 in TiffTags() && TiffTags()[306] == CatalogEntry("Date & Time", ASCII, 2)
  {
    TiffEntry(305);
    TiffEntry(306);
  }

  /** Orientation is an enumeration at level 0; Artist is ASCII at level 1. */
  lemma OrientationArtistEntries()
    ensures 274 in TiffTags() && TiffTags()[274] == CatalogEntry("Orientation", HandlerClass(339, ShortCodec, Enum(OrientationTable, "Unknown")), 0)
    ensures 315 in TiffTags() && TiffTags()[315] == CatalogEntry("Artist", ASCII, 1)
  {
    TiffEntry(274);
    TiffEntry(315);
  }

  /** The Exif pointer tag: a LONG at level 0. */
  lemma ExifPointerEntry()
    ensures 0x8769 in TiffTags() && TiffTags()[0x8769] == CatalogEntry("ExifIFD", LONG, 0)
  {
    ExifDatesEntry(0x8769);
  }

  /** The GPS pointer tag: a LONG at level 0. */
  lemma GpsPointerEntry()
    ensures 0x8825 in TiffTags() && TiffTags()[0x8825] == CatalogEntry("GPSIFD", LONG, 0)
  {
    ExifDatesEntry(0x8825);
  }

  /**
   * Tags of one handler class share it: Manufacturer and Model Name are both ASCII; the two
   * "pixels" classes come from two factory calls and differ.
   */
  lemma CatalogSharing()
    ensures 256 in TiffTags() && 257 in TiffTags() && 271 in TiffTags() && 272 in TiffTags()
    ensures TiffTags()[271].cls == TiffTags()[272].cls == ASCII
    ensures TiffTags()[256].cls != TiffTags()[257].cls
    ensures TiffTags()[256].cls.fmt == TiffTags()[257].cls.fmt
  {
    ImageSizeEntries();
    MakerEntries();
  }

  /** Every class of a table extends the handler its formatter expects. */
  ghost predicate AllWellFormed(m: map<int, CatalogEntry>)
  {
    forall id | id in m :: WellFormed(m[id].cls)
  }

  lemma TiffSectionWellFormed(m: map<int, CatalogEntry>)
    requires AllWellFormed(m)
    ensures AllWellFormed(TiffSection(m))
  {
  }

  lemma ExifDatesWellFormed(m: map<int, CatalogEntry>)
    requires AllWellFormed(m)
    ensures AllWellFormed(ExifDates(m))
  {
  }

  lemma ExifShootingWellFormed(m: map<int, CatalogEntry>)
    requires AllWellFormed(m)
    ensures AllWellFormed(ExifShooting(m))
  {
  }

  lemma ExifDeviceWellFormed(m: map<int, CatalogEntry>)
    requires AllWellFormed(m)
    ensures AllWellFormed(ExifDevice(m))
  {
  }

  lemma GpsSectionWellFormed(m: map<int, CatalogEntry>)
    requires AllWellFormed(m)
    ensures AllWellFormed(GpsSection(m))
  {
  }

  /** Every class in the catalog extends the handler its formatter expects. */
  lemma CatalogWellFormed()
    ensures AllWellFormed(TiffTags())
    ensures AllWellFormed(GpsTags())
  {
    var m0: map<int, CatalogEntry> := map[];
    TiffSectionWellFormed(m0);
    ExifDatesWellFormed(TiffSection(m0));
    ExifShootingWellFormed(ExifDates(TiffSection(m0)));
    ExifDeviceWellFormed(ExifShooting(ExifDates(TiffSection(m0))));
    GpsSectionWellFormed(m0);
  }

  /** An EXIF pointer tag is registered with the LONG handler, which accepts type 4 only. */
  lemma PointerTagsAreLong()
    ensures TiffTags()[0x8769].cls.codec == LongCodec && TiffTags()[0x8825].cls.codec == LongCodec
    ensures forall t :: Accept(LongCodec, t) <==> t == TYPE_LONG
  {
    ExifPointerEntry();
    GpsPointerEntry();
  }

  // Registration

  /** One instance of a handler class. */
  class Handler {
    const cls: HandlerClass

    constructor (cls: HandlerClass)
      ensures this.cls == cls
    {
      this.cls := cls;
    }
  }

  /** A registered tag: `{name, handler, level, info}` without the description. */
  datatype TagInfo = TagInfo(name: string, handler: Handler, level: int)

  datatype Dest = TiffTable | GpsTable

  /** The catalog entries a table holds, with each handler instance replaced by its class. */
  function View(m: map<int, TagInfo>): (r: map<int, CatalogEntry>)
    ensures r.Keys == m.Keys
  {
    map id | id in m :: CatalogEntry(m[id].name, m[id].handler.cls, m[id].level)
  }

  /** The module-level maps TIFF_TAGS, GPS_TAGS and SINGLETON_INSTANCE. */
  class TagRegistry {
    var tiffTags: map<int, TagInfo>
    var gpsTags: map<int, TagInfo>
    var singletons: map<HandlerClass, Handler>

    /** Each cached instance is of its key's class, and every registered tag uses the cached instance. */
    ghost predicate Valid()
      reads this
    {
      && (forall c | c in singletons :: singletons[c].cls == c)
      && (forall id | id in tiffTags :: tiffTags[id].handler.cls in singletons && singletons[tiffTags[id].handler.cls] == tiffTags[id].handler)
      && (forall id | id in gpsTags :: gpsTags[id].handler.cls in singletons && singletons[gpsTags[id].handler.cls] == gpsTags[id].handler)
    }

    /**
     * `defineTag(id, name, level, handler, description, dest)`: the first use of a class
     * creates and caches its instance, later uses share it; `dest[id]` is overwritten.
     */
    method DefineTag(id: int, name: string, level: int, cls: HandlerClass, dest: Dest)
      requires Valid()
      modifies this
      ensures Valid()
      ensures cls in singletons && singletons.Keys == old(singletons.Keys) + {cls}
      ensures forall c | c in old(singletons) :: singletons[c] == old(singletons[c])
      ensures cls !in old(singletons) ==> fresh(singletons[cls])
      ensures dest == TiffTable ==> tiffTags == old(tiffTags)[id := TagInfo(name, singletons[cls], level)] && gpsTags == old(gpsTags)
      ensures dest == GpsTable ==> gpsTags == old(gpsTags)[id := TagInfo(name, singletons[cls], level)] && tiffTags == old(tiffTags)
      ensures dest == TiffTable ==> View(tiffTags) == View(old(tiffTags))[id := CatalogEntry(name, cls, level)]
      ensures dest == GpsTable ==> View(gpsTags) == View(old(gpsTags))[id := CatalogEntry(name, cls, level)]
    {
      var instance: Handler;
      if cls !in singletons {
        instance := new Handler(cls);
        singletons := singletons[cls := instance];
      } else {
        instance := singletons[cls];
      }
      if dest == TiffTable {
        tiffTags := tiffTags[id := TagInfo(name, instance, level)];
      } else {
        gpsTags := gpsTags[id := TagInfo(name, instance, level)];
      }
    }

    /**
     * Runs every `defineTag` call of the module, in order. Tags of one class share its single
     * instance; the two "pixels" classes are distinct, so their instances are too.
     */
    constructor ()
      ensures Valid()
      ensures View(tiffTags) == TiffTags()
      ensures View(gpsTags) == GpsTags()
      ensures 271 in tiffTags && 272 in tiffTags && tiffTags[271].handler == tiffTags[272].handler
      ensures 256 in tiffTags && 257 in tiffTags && tiffTags[256].handler != tiffTags[257].handler
    {
      tiffTags, gpsTags, singletons := map[], map[], map[];
      new;
      assert View(tiffTags) == map[] && View(gpsTags) == map[];
      RegisterTiffSection();
      RegisterExifDates();
      RegisterExifShooting();
      RegisterExifDevice();
      RegisterGpsSection();
      CatalogSharing();
    }

    method RegisterTiffSection()
      requires Valid()
      modifies this
      ensures Valid()
      ensures View(tiffTags) == TiffSection(View(old(tiffTags))) && gpsTags == old(gpsTags)
      ensures forall c | c in old(singletons) :: c in singletons && singletons[c] == old(singletons[c])
    {
      DefineTag(256, "Image Width", 0, HandlerClass(335, ShortOrLongCodec, Unit(Inherited, "pixels")), TiffTable);
      DefineTag(257, "Image Height", 0, HandlerClass(336, ShortOrLongCodec, Unit(Inherited, "pixels")), TiffTable);
      DefineTag(271, "Manufacturer", 2, ASCII, TiffTable);
      DefineTag(272, "Model Name", 2, ASCII, TiffTable);
      DefineTag(274, "Orientation", 0, HandlerClass(339, ShortCodec, Enum(OrientationTable, "Unknown")), TiffTable);
      DefineTag(282, "X Resolution", 0, RATIONAL, TiffTable);
      DefineTag(283, "Y Resolution", 0, RATIONAL, TiffTable);
      DefineTag(296, "Resolution Unit", 0, HandlerClass(355, ShortCodec, Enum(ResolutionUnitTable, "Unknown")), TiffTable);
      DefineTag(305, "Software", 2, ASCII, TiffTable);
      DefineTag(306, "Date & Time", 2, ASCII, TiffTable);
      DefineTag(315, "Artist", 1, ASCII, TiffTable);
    }

    method RegisterExifDates()
      requires Valid()
      modifies this
      ensures Valid()
      ensures View(tiffTags) == ExifDates(View(old(tiffTags))) && gpsTags == old(gpsTags)
      ensures forall c | c in old(singletons) :: c in singletons && singletons[c] == old(singletons[c])
    {
      DefineTag(0x8298, "Copyright", 1, COPYRIGHT, TiffTable);
      DefineTag(0x8769, "ExifIFD", 0, LONG, TiffTable);
      DefineTag(0x8825, "GPSIFD", 0, LONG, TiffTable);
      DefineTag(0x829A, "Exposure Time", 1, HandlerClass(375, RationalCodec, Unit(Inherited, "second(s)")), TiffTable);
      DefineTag(0x829D, "f-number", 1, FNUMBER, TiffTable);
      DefineTag(0x8822, "Exposure Program", 1, HandlerClass(377, ShortCodec, Enum(ExposureProgramTable, "Reserved")), TiffTable);
      DefineTag(0x8827, "Photo Sensitivity", 1, SHORT, TiffTable);
      DefineTag(0x9003, "Original Date & Time", 2, ASCII, TiffTable);
      DefineTag(0x9004, "Digitized Date & Time", 2, ASCII, TiffTable);
      DefineTag(0x9010, "Time Offset", 2, ASCII, TiffTable);
      DefineTag(0x9011, "Original Time Offset", 2, ASCII, TiffTable);
      DefineTag(0x9012, "Digitized Time Offset", 2, ASCII, TiffTable);
    }

    method RegisterExifShooting()
      requires Valid()
      modifies this
      ensures Valid()
      ensures View(tiffTags) == ExifShooting(View(old(tiffTags))) && gpsTags == old(gpsTags)
      ensures forall c | c in old(singletons) :: c in singletons && singletons[c] == old(singletons[c])
    {
      DefineTag(0x9206, "Subject Distance", 1, SUBJECT_DISTANCE, TiffTable);
      DefineTag(0x9207, "Metering Mode", 1, HandlerClass(424, ShortCodec, Enum(MeteringModeTable, "Reserved")), TiffTable);
      DefineTag(0x9208, "Light Source", 1, HandlerClass(434, ShortCodec, Enum(LightSourceTable, "Reserved")), TiffTable);
      DefineTag(0x9209, "Flash Status", 1, FLASH_STATUS, TiffTable);
      DefineTag(0x920A, "Focal Length", 1, HandlerClass(461, RationalCodec, Unit(Inherited, "mm")), TiffTable);
      DefineTag(0x927C, "Maker Note", 1, UNDEFINED, TiffTable);
      DefineTag(0x9286, "User Comment", 1, USER_COMMENT, TiffTable);
      DefineTag(0x9290, "Subsecond Time", 2, ASCII, TiffTable);
      DefineTag(0x9291, "Original Subsecond Time", 2, ASCII, TiffTable);
      DefineTag(0x9292, "Digitized Subsecond Time", 2, ASCII, TiffTable);
    }

    method RegisterExifDevice()
      requires Valid()
      modifies this
      ensures Valid()
      ensures View(tiffTags) == ExifDevice(View(old(tiffTags))) && gpsTags == old(gpsTags)
      ensures forall c | c in old(singletons) :: c in singletons && singletons[c] == old(singletons[c])
    {
      DefineTag(0x9401, "Humidity", 1, HandlerClass(482, RationalCodec, RationalUnit("%")), TiffTable);
      DefineTag(0x9402, "Pressure", 1, HandlerClass(486, RationalCodec, RationalUnit("hPa")), TiffTable);
      DefineTag(0x9404, "Acceleration", 1, HandlerClass(491, RationalCodec, RationalUnit("mGal")), TiffTable);
      DefineTag(0xA20B, "Flash Energy", 1, HandlerClass(496, RationalCodec, Unit(Inherited, "BPCS")), TiffTable);
      DefineTag(0xA215, "Exposure Index", 1, RATIONAL, TiffTable);
      DefineTag(0xA217, "Sensing Method", 1, HandlerClass(502, ShortCodec, Enum(SensingMethodTable, "Reserved")), TiffTable);
      DefineTag(0xA300, "File Source", 1, HandlerClass(511, UndefinedCodec, Enum(FileSourceTable, "Reserved")), TiffTable);
      DefineTag(0xA301, "Scene Type", 1, HandlerClass(517, UndefinedCodec, Enum(SceneTypeTable, "Reserved")), TiffTable);
      DefineTag(0xA430, "Camera Owner", 2, ASCII, TiffTable);
      DefineTag(0xA431, "Camera Body S/N", 2, ASCII, TiffTable);
      DefineTag(0xA432, "Lens Specification", 1, LENS_SPEC, TiffTable);
      DefineTag(0xA433, "Lens Manufacturer", 1, ASCII, TiffTable);
      DefineTag(0xA434, "Lens Model", 1, ASCII, TiffTable);
      DefineTag(0xA435, "Lens S/N", 2, ASCII, TiffTable);
    }

    method RegisterGpsSection()
      requires Valid()
      modifies this
      ensures Valid()
      ensures View(gpsTags) == GpsSection(View(old(gpsTags))) && tiffTags == old(tiffTags)
      ensures forall c | c in old(singletons) :: c in singletons && singletons[c] == old(singletons[c])
    {
      DefineTag(1, "Latitude Ref", 2, GPS_LAT_REF, GpsTable);
      DefineTag(2, "Latitude", 2, GPS_POSITION, GpsTable);
      DefineTag(3, "Longitude Ref", 2, GPS_LON_REF, GpsTable);
      DefineTag(4, "Longitude", 2, GPS_POSITION, GpsTable);
      DefineTag(5, "Altitude Reference", 2, GPS_ALTITUDE_REF, GpsTable);
      DefineTag(6, "Altitude", 2, HandlerClass(560, RationalCodec, Unit(RationalToFloatFormat, "meters")), GpsTable);
      DefineTag(7, "GPS Timestamp", 2, GPS_TIMESTAMP, GpsTable);
      DefineTag(8, "GPS Satellites", 2, ASCII, GpsTable);
      DefineTag(9, "GPS Status", 1, HandlerClass(573, AsciiCodec, Enum(GpsStatusTable, "Reserved")), GpsTable);
      DefineTag(10, "GPS Measurement Mode", 1, HandlerClass(577, AsciiCodec, Enum(GpsMeasureModeTable, "Reserved")), GpsTable);
      DefineTag(11, "GPS DOP", 2, RATIONAL_TO_FLOAT, GpsTable);
      DefineTag(12, "Speed Unit", 1, HandlerClass(586, AsciiCodec, Enum(SpeedUnitTable, "Reserved")), GpsTable);
      DefineTag(13, "Speed", 1, RATIONAL_TO_FLOAT, GpsTable);
    }
  }
}
