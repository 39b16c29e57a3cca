# RIME metadata reader: a Dafny model

RIME ("Remove Image Metadata") shows the metadata of a JPEG file and exports it. This project
models the part that reads the metadata, in Dafny:

- the byte-order primitives;
- the TIFF field-type handlers and the tag catalog with its display formatters;
- the JPEG marker scan, the APP1 (Exif) payload concatenation, and the TIFF header and IFD
  decoder;
- `getMetadata`;
- the parser dispatch of `loadMetadata`;
- the CSV export;
- the HTML escaping and row classification of the table generator.

There is one module per source file:

| module | file | form |
|---|---|---|
| `BinaryManipulation` | `rime-mod/binary_manipulation.mjs` | functions on `seq<byte>`; the writes are methods on an `array` |
| `JpegTiffTagType` | `rime-mod/jpeg_tiff_tag_type.mjs` | a `Codec` per handler class; the loops of `decode`, `encode` and `toReadable` are methods proved against functions |
| `JpegTiffTags` | `rime-mod/jpeg_tiff_tags.mjs` | formatters as functions; `defineTag` and the two catalogs are a `TagRegistry` class |
| `JpegIfd` | `parseIFD` and `parseTIFF` of `rime-mod/jpeg_metadata.mjs` | methods with loops, proved against `FillIfd`, `Walk` and `TiffSpec` |
| `JpegMetadata` | `JPEGMetadata` of `rime-mod/jpeg_metadata.mjs` | the `JpegMetadataObject` class, whose fields the constructor fills, proved against `LoadSpec` |
| `MainDispatch` | `rime-mod/main.mjs`, `rime-mod/error.mjs` | `loadMetadata` as a loop over abstract parser trials |
| `MetadataToCsv` | `rime-mod/metadata_to_csv.mjs` | `csvEscape` as a function; `metadataToCSV` as a loop |
| `GenerateTbody` | `generate_tbody.mjs` | `escapeHtml` as a loop; the row classification |

`JsText` states the JavaScript built-ins the source relies on:

- `slice`, `join`, `split` and `indexOf`;
- `toString` of integers in base 10 and base 16.

`Wrappers` holds `Option` and `Result`.

## Reading the model

JavaScript behaviour the model writes out:

- **Signed reads.** `readUint32` combines bytes with `<<` and `|`, which work on signed 32-bit
  integers. So a 32-bit read whose most significant byte is 0x80 or more is negative, and
  `FF FF FF FF` reads as -1 (`BinaryManipulation.ReadUint32Sign`).
- **No `0xFFFFFFFF` match.** Because of the signed reads, the `0xFFFFFFFF` tests of the rational
  formatters never match a decoded value (`JpegTiffTags.DecodedRationalsNeverAllOnes`).
- **Reads past the end.** A read past the end of a typed array gives `undefined`. The bitwise
  operators treat that as 0, and `==` treats it as equal to no number.
- **`slice`.** `slice` clamps its bounds and counts negative bounds from the end. This matters
  because a signed offset can be negative.

Source behaviour modelled as written, with the places it differs from the standards:

- **Offset arithmetic.** The IFD offsets differ from section 2 of TIFF Revision 6.0 in three
  places:
  - the entries are read from `start`, where the count is, instead of `start + 2`;
  - the next pointer is read at `start + 12 * count`;
  - the chain starts at the header's offset field (`offset + 4`) instead of at the offset that
    field holds.

  Value offsets and the EXIF directory offset index the APP1 payload, which still carries the
  6-byte identifier.
- **Upper-case identifier.** The identifier checked is `EXIF\0\0`. Section 4.7.2 of Exif 2.3
  (CIPA DC-008) specifies `Exif\0\0`, so a standard file is rejected
  (`JpegMetadata.StandardIdentifierRejected`).
- **First quote only.** `csvEscape` doubles only the first double quote of a field. Rule 7 of
  section 2 of RFC 4180 doubles every one (`MetadataToCsv.QuirkNotRfc4180`).
- **Both IFD maps.** An IFD entry goes to the parsed map or the raw map, but an id that occurs
  twice can end up in both maps, once accepted and once not. `parseIFD` never deletes from the
  other map (`JpegIfd.IfdPlacement`).

Some statements cannot run as written. The model follows their evident intent:

- `writeUint16` and `writeUint32` are used in `jpeg_tiff_tag_type.mjs` without being imported.
  The model takes them from `binary_manipulation.mjs`.
- `ParsedIFDData` and `RawIFDData` are defined in no file of the source. The model records:
  - for a parsed entry, its name, handler class, type, count and value bytes;
  - for a raw entry, its type, count and value bytes.
- The `JPEGMetadata` constructor assigns `this.file` before `super()`.
- The two deletions test `x in this.parsedExifData[0]` on an undefined value. The model deletes
  0x8825 and 0xA005 from the EXIF directory's parsed map.
- `loadMetadata` builds its message with `parser.name()`, which calls a string. The model uses
  the parser's name.

Two loops of the source have no bound, and the model reports each one as an outcome:

- The marker scan loops forever when the file ends before any APP1 segment. The model returns
  `None` there (`JpegMetadata.NoSegmentsDiverges`).
- The IFD chain loops forever when an offset repeats. The model returns `Diverges` there
  (`JpegIfd.SelfLinkDiverges`).

## Model

| member | source | states |
|---|---|---|
| `BinaryManipulation.Signed32` | rime-mod/binary_manipulation.mjs:43-47 | the signed reading of a 32-bit pattern is in [-2^31, 2^31) and congruent to the pattern modulo 2^32 |
| `BinaryManipulation.ReadUint16` | rime-mod/binary_manipulation.mjs:6-11 | a 16-bit read is always in [0, 65535], past the end of the buffer included |
| `BinaryManipulation.Unsigned32` | rime-mod/binary_manipulation.mjs:43-47 | the unsigned 32-bit value of four bytes is below 2^31 exactly when the most significant byte is below 0x80 |
| `BinaryManipulation.ReadUint32` | rime-mod/binary_manipulation.mjs:37-48 | a 32-bit read is a signed 32-bit number |
| `BinaryManipulation.ReadUint32Sign` | rime-mod/binary_manipulation.mjs:37-48 | a 32-bit read is negative exactly when its most significant byte is 0x80 or more, and four 0xFF bytes read as -1 |
| `BinaryManipulation.BigEndianIsReversedLittleEndian` | rime-mod/binary_manipulation.mjs:6-48 | a big-endian read of either width equals the little-endian read of the reversed bytes |
| `BinaryManipulation.WriteUint16` | rime-mod/binary_manipulation.mjs:19-30 | the array after the write is the 16-bit store of the value into the old contents; with `ReadAfterWrite16` it reads back as the value modulo 2^16 |
| `BinaryManipulation.WriteUint32` | rime-mod/binary_manipulation.mjs:56-73 | the array after the write is the 32-bit store of the value into the old contents |
| `BinaryManipulation.Put16Frame` | rime-mod/binary_manipulation.mjs:19-30 | a 16-bit store changes no byte other than `off` and `off + 1`; in range, little-endian puts the low byte first and big-endian puts it last |
| `BinaryManipulation.Put32Frame` | rime-mod/binary_manipulation.mjs:56-73 | a 32-bit store changes no byte outside `off` to `off + 3`; in range, the big-endian byte order is the reverse of the little-endian one |
| `BinaryManipulation.ReadAfterWrite16` | rime-mod/binary_manipulation.mjs:6-30 | reading 16 bits where they were written, in the same byte order, gives the value modulo 2^16, so any value in [0, 65535] comes back unchanged |
| `BinaryManipulation.ReadAfterWrite32` | rime-mod/binary_manipulation.mjs:37-73 | reading 32 bits where they were written gives the signed reading of the value modulo 2^32 |
| `BinaryManipulation.ReadAfterWrite32Signed` | rime-mod/binary_manipulation.mjs:37-73 | a signed 32-bit value comes back unchanged |
| `JpegTiffTagType.ElementSize` | rime-mod/jpeg_tiff_tag_type.mjs:11-26 | the size is 0 exactly for types other than 1, 2, 3, 4, 5 and 7, and is always one of 0, 1, 2, 4 and 8 |
| `JpegTiffTagType.AcceptedTypes` | rime-mod/jpeg_tiff_tag_type.mjs:35-433 | each typed handler accepts exactly its own type code, SHORT-or-LONG exactly 3 and 4, the catch-all every type and the base handler none; an accepted type has a non-zero element size |
| `JpegTiffTagType.Shorts` | rime-mod/jpeg_tiff_tag_type.mjs:171-180 | SHORT decode gives `count` elements, each in [0, 65535] |
| `JpegTiffTagType.Longs` | rime-mod/jpeg_tiff_tag_type.mjs:223-232 | LONG decode gives `count` elements, each a signed 32-bit number |
| `JpegTiffTagType.Rationals` | rime-mod/jpeg_tiff_tag_type.mjs:274-285 | RATIONAL decode gives `count` fractions |
| `JpegTiffTagType.BytesToText` | rime-mod/jpeg_tiff_tag_type.mjs:131-134 | `String.fromCharCode` over bytes gives one character per byte, with that byte as its code |
| `JpegTiffTagType.DecodeSpec` | rime-mod/jpeg_tiff_tag_type.mjs:47-445 | decode fails only for the base handler, which throws, and every decoded value has the shape of its handler |
| `JpegTiffTagType.DecodeShorts` | rime-mod/jpeg_tiff_tag_type.mjs:171-180 | the loop returns the SHORT decode: element i read at `off + 2i` |
| `JpegTiffTagType.DecodeLongs` | rime-mod/jpeg_tiff_tag_type.mjs:223-232 | the loop returns the LONG decode: element i read at `off + 4i` |
| `JpegTiffTagType.DecodeRationals` | rime-mod/jpeg_tiff_tag_type.mjs:274-285 | the loop returns the RATIONAL decode: numerator at `off + 8i`, denominator at `off + 8i + 4` |
| `JpegTiffTagType.DecodeShortOrLong` | rime-mod/jpeg_tiff_tag_type.mjs:389-400 | the loop reads LONG elements for type 4 and SHORT elements for any other type |
| `JpegTiffTagType.Decode` | rime-mod/jpeg_tiff_tag_type.mjs:47-445 | the dispatch over the handler returns the handler's decode |
| `JpegTiffTagType.Mod16` | rime-mod/jpeg_tiff_tag_type.mjs:186-194 | what a 16-bit store keeps of the values equals the values exactly when all of them are in [0, 65535] |
| `JpegTiffTagType.Wrap32` | rime-mod/jpeg_tiff_tag_type.mjs:238-246 | what a 32-bit store keeps, read back signed, equals the values exactly when all of them are signed 32-bit numbers |
| `JpegTiffTagType.EncodeShorts` | rime-mod/jpeg_tiff_tag_type.mjs:186-194 | SHORT encode emits type 3, count `\|data\|` and 2 bytes per value, and decoding the buffer gives the values modulo 2^16 |
| `JpegTiffTagType.EncodeLongs` | rime-mod/jpeg_tiff_tag_type.mjs:238-246 | LONG encode emits type 4, count `\|data\|` and 4 bytes per value, and decoding gives the values wrapped to signed 32 bits |
| `JpegTiffTagType.EncodeRationals` | rime-mod/jpeg_tiff_tag_type.mjs:291-301 | RATIONAL encode emits type 5, count `\|data\|` and 8 bytes per fraction, and decoding gives each numerator and denominator wrapped to signed 32 bits |
| `JpegTiffTagType.EncodeShortOrLong` | rime-mod/jpeg_tiff_tag_type.mjs:406-414 | SHORT-or-LONG encode always emits type 3 with 2-byte elements, and its decode gives the values back exactly when all of them are in [0, 65535] |
| `JpegTiffTagType.EncodeBytes` | rime-mod/jpeg_tiff_tag_type.mjs:96-98 | BYTE encode emits type 1, count `\|data\|`, and each value modulo 256 |
| `JpegTiffTagType.EncodeAscii` | rime-mod/jpeg_tiff_tag_type.mjs:140-143 | ASCII encode emits type 2, count `\|s\| + 1`, the character codes and a closing NUL |
| `JpegTiffTagType.EncodeUndefined` | rime-mod/jpeg_tiff_tag_type.mjs:344-346 | UNDEFINED encode emits type 7, count `\|bytes\|`, and the bytes unchanged |
| `JpegTiffTagType.ByteRoundTrip` | rime-mod/jpeg_tiff_tag_type.mjs:88-98 | BYTE decode after encode gives the values back |
| `JpegTiffTagType.AsciiRoundTrip` | rime-mod/jpeg_tiff_tag_type.mjs:131-143 | ASCII decode, which drops the last byte, after encode, which appends NUL, gives the text back |
| `JpegTiffTagType.UndefinedRoundTrip` | rime-mod/jpeg_tiff_tag_type.mjs:336-346 | UNDEFINED decode after encode gives the bytes back |
| `JpegTiffTagType.UnknownRoundTrip` | rime-mod/jpeg_tiff_tag_type.mjs:442-453 | the catch-all decode keeps type, count and the `size * count` bytes, so it undoes its identity encode |
| `JpegTiffTagType.FractionTextRoundTrip` | rime-mod/jpeg_tiff_tag_type.mjs:311 | for any integer numerator and denominator, signs included, the text `n/d` splits at `/` into exactly the two numerals, which read back (optional `-`, then decimal digits) as `n` and `d` |
| `JsText.IntToStringRoundTrip` | rime-mod/jpeg_tiff_tag_type.mjs:311 | the decimal text of any integer (`toString`) holds only digits and `-`, and reads back as that integer |
| `JpegTiffTagType.RationalToReadable` | rime-mod/jpeg_tiff_tag_type.mjs:306-315 | the loop gives the `n/d` texts of the fractions joined by ", " |
| `JpegTiffTagType.EscapeByte` | rime-mod/jpeg_tiff_tag_type.mjs:356-364 | one byte gives 1 to 4 characters, and it is copied as its own character exactly when it is in [32, 127] |
| `JpegTiffTagType.EscapeBytes` | rime-mod/jpeg_tiff_tag_type.mjs:351-368 | the rendering of n bytes is between n and 4n characters long |
| `JpegTiffTagType.UndefinedToReadable` | rime-mod/jpeg_tiff_tag_type.mjs:351-368 | the loop gives the escapes of the bytes in order, joined with no separator |
| `JpegTiffTagType.EscapePrintable` | rime-mod/jpeg_tiff_tag_type.mjs:351-368 | bytes all in [32, 127] render as their characters, unchanged |
| `JpegTiffTagType.EscapeNotInjective` | rime-mod/jpeg_tiff_tag_type.mjs:360-361 | hex escapes have no zero padding, so bytes 01 30 and byte 10 both render as `\x10` |
| `JpegTiffTagType.ToReadable` | rime-mod/jpeg_tiff_tag_type.mjs:64-460 | the dispatch over the handler returns that handler's `toReadable` |
| `JpegTiffTags.EnumText` | rime-mod/jpeg_tiff_tags.mjs:35-45 | an enum shows the label of the key when there is a non-empty one, and the default otherwise |
| `JpegTiffTags.DropSpaces` | rime-mod/jpeg_tiff_tags.mjs:84-91 | the filtered parts are parts of the input, and none is exactly " " |
| `JpegTiffTags.DropSpacesOne` | rime-mod/jpeg_tiff_tags.mjs:84-91 | a single part is dropped exactly when it is " " and kept otherwise |
| `JpegTiffTags.DropSpacesAppend` | rime-mod/jpeg_tiff_tags.mjs:84-91 | the filter works part by part: filtering a concatenation concatenates the filtered halves, so every other part is kept, in order |
| `JpegTiffTags.CopyrightSinglePart` | rime-mod/jpeg_tiff_tags.mjs:80-94 | a copyright without NUL shows as itself, or as nothing when it is exactly " " |
| `JpegTiffTags.CopyrightText` | rime-mod/jpeg_tiff_tags.mjs:80-94 | the copyright display never holds NUL: the text is split at every NUL and joined with ". " |
| `JpegTiffTags.LatRefText` | rime-mod/jpeg_tiff_tags.mjs:246-260 | "North" exactly for "N", "South" exactly for "S", "Reserved" for anything else |
| `JpegTiffTags.LonRefText` | rime-mod/jpeg_tiff_tags.mjs:262-276 | "East" exactly for "E", "West" exactly for "W", "Reserved" for anything else |
| `JpegTiffTags.AltitudeRefText` | rime-mod/jpeg_tiff_tags.mjs:291-302 | "At/Above Sea Level" exactly when the first value exists and is 0, and "Below Sea Level" otherwise |
| `JpegTiffTags.FlashParts` | rime-mod/jpeg_tiff_tags.mjs:127-166 | the flash display has exactly five parts |
| `JpegTiffTags.FlashRoundTrip` | rime-mod/jpeg_tiff_tags.mjs:122-169 | the five parts determine bits 0 to 6 of the flash value, which is read back from them, and no higher bit changes the display |
| `JpegTiffTags.FlashText` | rime-mod/jpeg_tiff_tags.mjs:122-169 | with no value the flash bits read as 0; otherwise only bits 0 to 6 of the first value show |
| `JpegTiffTags.ReturnLightLabel` | rime-mod/jpeg_tiff_tags.mjs:132-146 | the `switch` over bits 1 to 2 gives the return-light label, with 1 and any other value "Reserved Return Light" |
| `JpegTiffTags.FlashModeLabel` | rime-mod/jpeg_tiff_tags.mjs:148-162 | the `switch` over bits 3 to 4 gives the flash-mode label, with 0 and any other value "Unknown Flash Mode" |
| `JpegTiffTags.FlashStatusToReadable` | rime-mod/jpeg_tiff_tags.mjs:122-169 | the handler gives the five parts joined by ", " |
| `JpegTiffTags.ArrayEqualPrefix` | rime-mod/jpeg_tiff_tags.mjs:207-219 | the comparison from 0 holds exactly when the haystack is strictly longer than the needle and starts with it |
| `JpegTiffTags.IsArrayEqual` | rime-mod/jpeg_tiff_tags.mjs:207-219 | the loop answers false when `start + \|needle\| >= \|haystack\|`, and otherwise compares element by element |
| `JpegTiffTags.ShortCommentUnknown` | rime-mod/jpeg_tiff_tags.mjs:181-219 | a user comment of at most 8 bytes is "Unknown Data", its charset code included |
| `JpegTiffTags.AsciiComment` | rime-mod/jpeg_tiff_tags.mjs:182-190 | an ASCII-coded comment shows its text bytes as characters |
| `JpegTiffTags.JisComment` | rime-mod/jpeg_tiff_tags.mjs:193-194 | a JIS-coded comment shows "TODO JIS " and the escaped text bytes |
| `JpegTiffTags.UndefinedComment` | rime-mod/jpeg_tiff_tags.mjs:191-192 | a comment coded as eight zero bytes shows its text bytes escaped, with no marker |
| `JpegTiffTags.UnicodeComment` | rime-mod/jpeg_tiff_tags.mjs:195-196 | a Unicode-coded comment shows "TODO UNICODE " and the escaped text bytes; the UCS-2 text is not decoded |
| `JpegTiffTags.UserCommentToReadable` | rime-mod/jpeg_tiff_tags.mjs:176-200 | the handler checks the ASCII, UNDEFINED, JIS and UNICODE codes in that order, else "Unknown Data" |
| `JpegTiffTags.Format` | rime-mod/jpeg_tiff_tags.mjs:35-329 | on values its handler decodes, a formatter fails only with the TypeError of `data[0].n` on an empty list of fractions |
| `JpegTiffTags.ToReadable` | rime-mod/jpeg_tiff_tags.mjs:35-329 | the dispatch over the handler class returns its formatter's display |
| `JpegTiffTags.DecodedRationalsNeverAllOnes` | rime-mod/jpeg_tiff_tags.mjs:68-120 | on decoded fractions the rational-unit formatter never says "Unknown" and subject distance never says "Infinity" |
| `JpegTiffTags.OrientationShape` | rime-mod/jpeg_tiff_tags.mjs:339-348 | the orientation table's keys are decimal numerals without a leading zero and its labels are non-empty |
| `JpegTiffTags.ResolutionUnitShape` | rime-mod/jpeg_tiff_tags.mjs:355-359 | the same for the resolution-unit table |
| `JpegTiffTags.ExposureProgramShape` | rime-mod/jpeg_tiff_tags.mjs:377-387 | the same for the exposure-program table |
| `JpegTiffTags.MeteringModeShape` | rime-mod/jpeg_tiff_tags.mjs:424-433 | the same for the metering-mode table |
| `JpegTiffTags.LightSourceShape` | rime-mod/jpeg_tiff_tags.mjs:434-457 | the same for the light-source table |
| `JpegTiffTags.SensingMethodShape` | rime-mod/jpeg_tiff_tags.mjs:502-510 | the same for the sensing-method table |
| `JpegTiffTags.FileSourceShape` | rime-mod/jpeg_tiff_tags.mjs:511-516 | the same for the file-source table |
| `JpegTiffTags.SceneTypeShape` | rime-mod/jpeg_tiff_tags.mjs:517-519 | the same for the scene-type table |
| `JpegTiffTags.GpsStatusShape` | rime-mod/jpeg_tiff_tags.mjs:573-576 | the GPS-status table's keys are single upper-case letters and its labels are non-empty |
| `JpegTiffTags.GpsMeasureModeShape` | rime-mod/jpeg_tiff_tags.mjs:577-580 | the measurement-mode table's keys are decimal numerals without a leading zero and its labels are non-empty |
| `JpegTiffTags.SpeedUnitShape` | rime-mod/jpeg_tiff_tags.mjs:586-590 | the same for the speed-unit table |
| `JpegTiffTags.TablesShape` | rime-mod/jpeg_tiff_tags.mjs:339-590 | every value table has non-empty labels, and keys that are decimal numerals without a leading zero, or single upper-case letters for the GPS-status and speed-unit tables |
| `JpegTiffTags.EnumLabels` | rime-mod/jpeg_tiff_tags.mjs:35-45 | an enum shows the table's label for a listed key and the default for any other key, including when there is no value at all |
| `JpegTiffTags.EveryLabelReachable` | rime-mod/jpeg_tiff_tags.mjs:35-45 | every label of every table is shown for some value: a numeral key's label for the number it names, and, when that number is below 256, for the one byte of that value (the UNDEFINED-coded tables); a one-character key's label for that character as text (the ASCII-coded tables: the letter keys, and the measurement mode's "2" and "3") |
| `JpegTiffTags.LabelReachable` | rime-mod/jpeg_tiff_tags.mjs:35-45 | in any label map, a label under a numeral key is shown for the number the key names and, below 256, for that single byte; a label under a one-character key is shown for that character as text |
| `JpegTiffTags.LabelLookup` | rime-mod/jpeg_tiff_tags.mjs:35-45 | in a label map with non-empty labels and numeral or one-letter keys, a present key shows its label, an absent key the default, and the key "undefined" of an empty value is never present |
| `JpegTiffTags.TiffSectionIds` | rime-mod/jpeg_tiff_tags.mjs:335-367 | the TIFF section registers exactly ids 256, 257, 271, 272, 274, 282, 283, 296, 305, 306 and 315 |
| `JpegTiffTags.ExifDatesIds` | rime-mod/jpeg_tiff_tags.mjs:372-415 | the first EXIF section registers ids from 0x8298 to 0x9012 and keeps earlier entries below them |
| `JpegTiffTags.ExifShootingIds` | rime-mod/jpeg_tiff_tags.mjs:421-480 | the second EXIF section registers ids from 0x9206 to 0x9292 and keeps earlier entries below them |
| `JpegTiffTags.ExifDeviceIds` | rime-mod/jpeg_tiff_tags.mjs:482-533 | the third EXIF section registers ids from 0x9401 to 0xA435 and keeps earlier entries below them |
| `JpegTiffTags.GpsSectionIds` | rime-mod/jpeg_tiff_tags.mjs:539-594 | the GPS section registers exactly ids 1 to 13 |
| `JpegTiffTags.SectionIds` | rime-mod/jpeg_tiff_tags.mjs:335-594 | the ids of every section together |
| `JpegTiffTags.CatalogIds` | rime-mod/jpeg_tiff_tags.mjs:335-594 | `GPS_TAGS` holds exactly ids 1 to 13; every id of `TIFF_TAGS` is 256 or more and is not a GPS id |
| `JpegTiffTags.TiffEntry` | rime-mod/jpeg_tiff_tags.mjs:335-367 | every entry of the TIFF section is in `TIFF_TAGS` as registered |
| `JpegTiffTags.ExifDatesOverride` | rime-mod/jpeg_tiff_tags.mjs:372-415 | a later registration of an id overwrites an earlier one |
| `JpegTiffTags.ExifDatesEntry` | rime-mod/jpeg_tiff_tags.mjs:372-415 | every entry of the first EXIF section is in `TIFF_TAGS` as registered |
| `JpegTiffTags.ImageSizeEntries` | rime-mod/jpeg_tiff_tags.mjs:335-336 | Image Width and Image Height: level 0, SHORT-or-LONG values, "pixels" unit |
| `JpegTiffTags.MakerEntries` | rime-mod/jpeg_tiff_tags.mjs:337-338 | Manufacturer and Model Name: level 2, ASCII |
| `JpegTiffTags.SoftwareEntries` | rime-mod/jpeg_tiff_tags.mjs:360-363 | Software and Date & Time: level 2, ASCII |
| `JpegTiffTags.OrientationArtistEntries` | rime-mod/jpeg_tiff_tags.mjs:339-367 | Orientation: level 0, a SHORT enum defaulting to "Unknown"; Artist: level 1, ASCII |
| `JpegTiffTags.ExifPointerEntry` | rime-mod/jpeg_tiff_tags.mjs:373 | ExifIFD (0x8769): level 0, LONG |
| `JpegTiffTags.GpsPointerEntry` | rime-mod/jpeg_tiff_tags.mjs:374 | GPSIFD (0x8825): level 0, LONG |
| `JpegTiffTags.CatalogSharing` | rime-mod/jpeg_tiff_tags.mjs:335-338 | Manufacturer and Model Name share the ASCII class; the two "pixels" classes are distinct classes that format alike |
| `JpegTiffTags.TiffSectionWellFormed` | rime-mod/jpeg_tiff_tags.mjs:335-367 | the TIFF section pairs each formatter with a handler whose values it can format |
| `JpegTiffTags.ExifDatesWellFormed` | rime-mod/jpeg_tiff_tags.mjs:372-415 | the same for the first EXIF section |
| `JpegTiffTags.ExifShootingWellFormed` | rime-mod/jpeg_tiff_tags.mjs:421-480 | the same for the second EXIF section |
| `JpegTiffTags.ExifDeviceWellFormed` | rime-mod/jpeg_tiff_tags.mjs:482-533 | the same for the third EXIF section |
| `JpegTiffTags.GpsSectionWellFormed` | rime-mod/jpeg_tiff_tags.mjs:539-594 | the same for the GPS section |
| `JpegTiffTags.CatalogWellFormed` | rime-mod/jpeg_tiff_tags.mjs:335-594 | every entry of both catalogs is well formed |
| `JpegTiffTags.PointerTagsAreLong` | rime-mod/jpeg_tiff_tags.mjs:373-374 | both pointer tags have the LONG handler, which accepts type 4 and no other |
| `JpegTiffTags.Handler.constructor` | rime-mod/jpeg_tiff_tags.mjs:21 | `new handler()`: an instance of the given class |
| `JpegTiffTags.TagRegistry.DefineTag` | rime-mod/jpeg_tiff_tags.mjs:18-27 | `defineTag` makes an instance only for a class not yet cached and reuses the cached one otherwise; it sets `dest[id]`, overwriting, and leaves the other map unchanged |
| `JpegTiffTags.TagRegistry.constructor` | rime-mod/jpeg_tiff_tags.mjs:4-10 | the two maps after all registrations are the catalogs; Manufacturer and Model Name share one instance, and the two "pixels" entries have different ones |
| `JpegTiffTags.TagRegistry.RegisterTiffSection` | rime-mod/jpeg_tiff_tags.mjs:335-367 | the TIFF section's registrations, into `TIFF_TAGS` only; every handler instance created before is kept |
| `JpegTiffTags.TagRegistry.RegisterExifDates` | rime-mod/jpeg_tiff_tags.mjs:372-415 | the first EXIF section's registrations, into `TIFF_TAGS` only; every handler instance created before is kept |
| `JpegTiffTags.TagRegistry.RegisterExifShooting` | rime-mod/jpeg_tiff_tags.mjs:421-480 | the second EXIF section's registrations, into `TIFF_TAGS` only; every handler instance created before is kept |
| `JpegTiffTags.TagRegistry.RegisterExifDevice` | rime-mod/jpeg_tiff_tags.mjs:482-533 | the third EXIF section's registrations, into `TIFF_TAGS` only; every handler instance created before is kept |
| `JpegTiffTags.TagRegistry.RegisterGpsSection` | rime-mod/jpeg_tiff_tags.mjs:539-594 | the GPS section's registrations, into `GPS_TAGS` only; every handler instance created before is kept |
| `JpegIfd.ReadEntry` | rime-mod/jpeg_metadata.mjs:61-64 | an entry's id and type are 16-bit numbers |
| `JpegIfd.EntryValueLayout` | rime-mod/jpeg_metadata.mjs:61-73 | entry i is read at `start + 12i`; a value of at most 4 bytes is inline, and a longer one is at the 32-bit offset the field holds |
| `JpegIfd.FillIfdParsed` | rime-mod/jpeg_metadata.mjs:75-85 | for each id, the parsed map holds the last entry with that id whose type its handler accepts, or what it held before |
| `JpegIfd.FillIfdRaw` | rime-mod/jpeg_metadata.mjs:75-85 | for each id, the raw map holds the last entry with that id that the parsed map did not take, or what it held before |
| `JpegIfd.IfdPlacement` | rime-mod/jpeg_metadata.mjs:75-85 | an id is in some map exactly when an entry has it, and in both maps only when one entry with it was accepted and another was not |
| `JpegIfd.ParsedFromCatalog` | rime-mod/jpeg_metadata.mjs:75-79 | every parsed entry has the catalog's name and class for its id, and a type that class accepts |
| `JpegIfd.DirectoryKeys16` | rime-mod/jpeg_metadata.mjs:57-89 | every key of a directory is a 16-bit tag id |
| `JpegIfd.ReadValueData` | rime-mod/jpeg_metadata.mjs:65-73 | the value bytes are those of the layout above |
| `JpegIfd.ReadEntryAt` | rime-mod/jpeg_metadata.mjs:61-73 | the reads of one loop turn give entry i |
| `JpegIfd.FillEntries` | rime-mod/jpeg_metadata.mjs:60-86 | the loop leaves the destination maps filled by the entries in order |
| `JpegIfd.ParseIfd` | rime-mod/jpeg_metadata.mjs:57-89 | `parseIFD` fills the maps with the count-many entries and returns the 32-bit number at `start + 12 * count` |
| `JpegIfd.Walk` | rime-mod/jpeg_metadata.mjs:113-121 | the chain walk fails only with `Diverges`, and keeps the directories already collected as a prefix |
| `JpegIfd.SelfLinkDiverges` | rime-mod/jpeg_metadata.mjs:113-121 | a directory that points to itself makes the walk loop forever |
| `JpegIfd.WalkFirst` | rime-mod/jpeg_metadata.mjs:113-121 | a walk from a non-zero offset starts with the directory at that offset |
| `JpegIfd.WalkKeys16` | rime-mod/jpeg_metadata.mjs:113-121 | every directory the walk collects has 16-bit keys |
| `JpegIfd.WalkFollowsChain` | rime-mod/jpeg_metadata.mjs:113-121 | on success the walk holds the directory at each offset of the next-pointer chain from the first, up to the first offset that is 0, and none before it is 0; it diverges exactly when an offset of the chain comes round again before a 0 |
| `JpegIfd.WalkChain` | rime-mod/jpeg_metadata.mjs:113-121 | the walk from the k-th chain offset, having visited the first k offsets and collected their directories, ends on a 0 with a chain prefix, or fails on a repeat |
| `JpegIfd.WalkStep` | rime-mod/jpeg_metadata.mjs:113-121 | one turn at a new non-zero offset collects the directory there and goes on from its next pointer |
| `JpegIfd.ChainRevisit` | rime-mod/jpeg_metadata.mjs:113-121 | an offset met again among the visited ones, before any 0, is a repeat of the chain |
| `JpegIfd.RepeatNeverZero` | rime-mod/jpeg_metadata.mjs:113-121 | once an offset comes round again before a 0, no later offset of the chain is 0, so the loop never ends |
| `JpegIfd.FollowShift` | rime-mod/jpeg_metadata.mjs:113-121 | the next offset depends on the current one alone: equal offsets stay equal along the chain |
| `JpegIfd.TiffHeader` | rime-mod/jpeg_metadata.mjs:98-125 | the header error is thrown exactly when the header is neither "MM" nor "II" followed by 42; "MM" means big-endian; the first directory is the one at `offset + 4` |
| `JpegIfd.TiffKeys16` | rime-mod/jpeg_metadata.mjs:98-125 | every directory of a decoded TIFF has 16-bit keys |
| `JpegIfd.ParseTiff` | rime-mod/jpeg_metadata.mjs:98-125 | `parseTIFF` returns the header check followed by the chain walk |
| `JpegMetadata.HasExifData` | rime-mod/jpeg_metadata.mjs:19-27 | the loop answers whether the six identifier bytes are at `offset` |
| `JpegMetadata.IdentifierPrefix` | rime-mod/jpeg_metadata.mjs:19-27 | at offset 0 the check holds exactly when the data starts with 69 88 73 70 0 0 |
| `JpegMetadata.StandardIdentifierRejected` | rime-mod/jpeg_const.mjs:4 | data that starts with the standard `Exif\0\0` fails the check |
| `JpegMetadata.SegmentLength` | rime-mod/jpeg_metadata.mjs:154 | a segment's payload length is in [-2, 65533] |
| `JpegMetadata.ScanStep` | rime-mod/jpeg_metadata.mjs:147-170 | a turn that goes on was inside the file and advances by at least 2 |
| `JpegMetadata.Hop` | rime-mod/jpeg_metadata.mjs:154-169 | the next marker position is at least two bytes on |
| `JpegMetadata.ScanFrom` | rime-mod/jpeg_metadata.mjs:147-170 | a scan that ends without APP1 has changed nothing; once APP1 was seen, the scan always ends, still found, with the start kept |
| `JpegMetadata.ScanPayloads` | rime-mod/jpeg_metadata.mjs:156-167 | the scan keeps the payloads already collected first, and has found APP1 exactly when it had before or collected a payload since |
| `JpegMetadata.ScanStart` | rime-mod/jpeg_metadata.mjs:156-163 | `startExifPos` is an APP1 marker position at or after the scan's start, kept once set |
| `JpegMetadata.ScanEnd` | rime-mod/jpeg_metadata.mjs:164-167 | `endExifPos` changes only after an APP1 segment, to a later position holding neither APP1 nor FF D9 to FF DF |
| `JpegMetadata.SingleSegmentScan` | rime-mod/jpeg_metadata.mjs:141-170 | one APP1 segment then FF D9: its payload is collected, the start is 2, and the end stays 0 |
| `JpegMetadata.FindApp1` | rime-mod/jpeg_metadata.mjs:147-169 | following the segments from a position finds an APP1 marker at or after it, unless FF D9 to FF DF or the end of the file comes first |
| `JpegMetadata.App1Run` | rime-mod/jpeg_metadata.mjs:156-169 | the run of consecutive APP1 segments from a position holds only APP1 positions, and starts there exactly when that position is APP1 |
| `JpegMetadata.RunEnd` | rime-mod/jpeg_metadata.mjs:156-169 | the marker after a run of APP1 segments is not APP1 |
| `JpegMetadata.FindApp1First` | rime-mod/jpeg_metadata.mjs:147-169 | the APP1 marker found is the first along the chain of segments: every marker visited before it lies in the file and is neither APP1 nor FF D9 to FF DF |
| `JpegMetadata.App1RunChain` | rime-mod/jpeg_metadata.mjs:156-169 | the run of APP1 segments is the chain of markers visited one segment after another, and ends at `RunEnd` |
| `JpegMetadata.Payloads` | rime-mod/jpeg_metadata.mjs:163 | one payload per segment, in order, each `file.slice(p + 4, p + 4 + length)` |
| `JpegMetadata.ScanAfterFirst` | rime-mod/jpeg_metadata.mjs:147-170 | after an APP1 segment the loop collects the payloads of the run of APP1 segments in order and sets `endExifPos` at the marker after the run unless it is FF D9 to FF DF |
| `JpegMetadata.ScanBeforeFirst` | rime-mod/jpeg_metadata.mjs:147-170 | before any APP1 segment the loop skips segments: it stops with nothing found at FF D9 to FF DF, loops forever past the end of the file, and otherwise reaches the first APP1 marker unchanged |
| `JpegMetadata.ScanCollects` | rime-mod/jpeg_metadata.mjs:139-170 | from position 2 the scan starts the Exif data at the first APP1 marker of the segment chain, collects exactly the payloads of that marker's run of APP1 segments, and ends it at the next marker unless that is FF D9 to FF DF; nothing is found when such a marker comes first, and the scan loops forever when the chain leaves the file first |
| `JpegMetadata.NoSegmentsDiverges` | rime-mod/jpeg_metadata.mjs:147-170 | a file that ends after FF D8 makes the scan loop forever |
| `JpegMetadata.SetAt` | rime-mod/jpeg_metadata.mjs:43 | `set` copies the array in at `start` and changes nothing else |
| `JpegMetadata.ConsolidateUint8Array` | rime-mod/jpeg_metadata.mjs:32-48 | the new array is the concatenation of the arrays, in order |
| `JpegMetadata.DecodeExifCases` | rime-mod/jpeg_metadata.mjs:182-208 | the decode fails with the TIFF error, or gives the TIFF directories and the EXIF directory without ids 0x8825 and 0xA005 |
| `JpegMetadata.LoadErrors` | rime-mod/jpeg_metadata.mjs:131-193 | "Not JPEG" exactly when `test` fails; "No EXIF data present." exactly when no APP1 was found or the payload lacks the identifier; the header error exactly for a bad header at offset 6 |
| `JpegMetadata.ExifKeys16` | rime-mod/jpeg_metadata.mjs:195-199 | every key of the EXIF directory is a 16-bit tag id |
| `JpegMetadata.DecodedState` | rime-mod/jpeg_metadata.mjs:182-208 | a decode gives at least IFD0, as many raw maps as parsed ones, no 0x8825 or 0xA005 in the EXIF map, and 16-bit keys, whatever the catalog |
| `JpegMetadata.LoadedState` | rime-mod/jpeg_metadata.mjs:131-208 | the same for every file the constructor accepts |
| `JpegMetadata.IdsFrom` | rime-mod/jpeg_metadata.mjs:216 | `Object.entries` lists the integer keys in ascending order, each exactly once |
| `JpegMetadata.RowsIds` | rime-mod/jpeg_metadata.mjs:216-222 | each row's id is the decimal text of its key, and reads back as that key |
| `JpegMetadata.RowsMatchIds` | rime-mod/jpeg_metadata.mjs:216-233 | each row carries the entry, the name and the level of its key |
| `JpegMetadata.RowsAscendingIds` | rime-mod/jpeg_metadata.mjs:216-233 | the rows are in ascending id order |
| `JpegMetadata.RowsCoverIds` | rime-mod/jpeg_metadata.mjs:216-233 | every key of the map has a row |
| `JpegMetadata.RowsListEntries` | rime-mod/jpeg_metadata.mjs:216-233 | the rows list the map's entries, one per id, at the given level, in ascending order |
| `JpegMetadata.MetadataListing` | rime-mod/jpeg_metadata.mjs:211-236 | `getMetadata` lists IFD0's parsed entries at level 0, then the EXIF directory's at level 2, with no raw entries |
| `JpegMetadata.JpegMetadataObject.constructor` | rime-mod/jpeg_metadata.mjs:131-132 | the new object holds the file and no decoded directory |
| `JpegMetadata.JpegMetadataObject.Parse` | rime-mod/jpeg_metadata.mjs:131-209 | the constructor body leaves the fields equal to the decoded file, or reports the error it throws |
| `JpegMetadata.JpegMetadataObject.ScanMarkers` | rime-mod/jpeg_metadata.mjs:139-170 | the marker loop leaves the scan's result and sets `startExifPos` and `endExifPos` from it; it changes no other field |
| `JpegMetadata.JpegMetadataObject.DecodeFields` | rime-mod/jpeg_metadata.mjs:182-208 | the fields after the TIFF and EXIF decode are the decoded state, or the error is reported |
| `JpegMetadata.JpegMetadataObject.GetMetadata` | rime-mod/jpeg_metadata.mjs:211-236 | the rows of `MetadataListing` for the object's fields |
| `JpegMetadata.DecodePayload` | rime-mod/jpeg_metadata.mjs:192-208 | the TIFF parse, the EXIF directory and the two deletions give the decode |
| `JpegMetadata.ReadExifIfd` | rime-mod/jpeg_metadata.mjs:196-199 | the EXIF directory is parsed at the pointer's offset, and is empty without a pointer |
| `JpegMetadata.PushRows` | rime-mod/jpeg_metadata.mjs:216-233 | the `push` loop appends one row per key, in ascending order |
| `JpegMetadata.Load` | rime-mod/jpeg_metadata.mjs:131-209 | `new JPEGMetadata(file)` fails exactly when the decode fails, with its error, and otherwise gives a fresh object holding the decoded state |
| `MainDispatch.DispatchStops` | rime-mod/main.mjs:16-31 | the load returns or throws what the first stopping parser returns or throws |
| `MainDispatch.Dispatch` | rime-mod/main.mjs:14-34 | the loop throws only `RIMEError`s, and a loaded object is the construction outcome of a parser whose test passed |
| `MainDispatch.DispatchExhausts` | rime-mod/main.mjs:14-34 | when no parser stops the loop, `FileUnsupportedError` carries every parser's message in order |
| `MainDispatch.FirstSuccess` | rime-mod/main.mjs:16-19 | a successful load is the object of a parser whose test passed, and no earlier parser stopped the loop |
| `MainDispatch.RimeErrorPropagates` | rime-mod/main.mjs:20-22 | a `RIMEError` from a construction is thrown on, whatever the later parsers do |
| `MainDispatch.LoadMetadata` | rime-mod/main.mjs:13-35 | the loop returns the dispatch over the parsers in order |
| `MainDispatch.OneTrial` | rime-mod/error.mjs:12-19 | a single parser gives its object, its `RIMEError`, or `FileUnsupportedError` with the prefix text and its one message |
| `MainDispatch.JpegDispatch` | rime-mod/main.mjs:8-35 | with `[JPEGMetadata]`: "Not JPEGMetadata" for a non-JPEG file, the decoded object, or unsupported with the constructor's message |
| `MetadataToCsv.CsvEscapeQuotes` | rime-mod/metadata_to_csv.mjs:7-15 | a field is quoted exactly when it holds CR LF, a comma or a double quote, and grows by the two quotes and one doubled quote |
| `MetadataToCsv.CsvEscape` | rime-mod/metadata_to_csv.mjs:7-15 | a text needing quotes comes back enclosed in double quotes around its text with the first double quote doubled; any other text comes back unchanged |
| `MetadataToCsv.ReplaceFirst` | rime-mod/metadata_to_csv.mjs:11 | `replace` with a string pattern replaces the first occurrence only, and leaves a text without one unchanged |
| `MetadataToCsv.LoneBreaksUnquoted` | rime-mod/metadata_to_csv.mjs:8 | a lone CR or a lone LF does not cause quoting |
| `MetadataToCsv.CsvRoundTrip` | rime-mod/metadata_to_csv.mjs:7-15 | a field with at most one double quote reads back, under RFC 4180, as the original text |
| `MetadataToCsv.QuirkNotRfc4180` | rime-mod/metadata_to_csv.mjs:11 | `a"b"` escapes to a field that does not read back |
| `MetadataToCsv.Lines` | rime-mod/metadata_to_csv.mjs:22-28 | there is one line per row plus the header, which comes first |
| `MetadataToCsv.LinesAt` | rime-mod/metadata_to_csv.mjs:25-28 | line k + 1 is row k with its 1-based number |
| `MetadataToCsv.CsvEmpty` | rime-mod/metadata_to_csv.mjs:22-30 | no rows give exactly the header |
| `MetadataToCsv.CsvAppend` | rime-mod/metadata_to_csv.mjs:25-30 | one more row adds CR LF and its line at the end |
| `MetadataToCsv.CsvLayout` | rime-mod/metadata_to_csv.mjs:20-31 | the text is the header followed by CR LF and a line for each row: the last CR LF is stripped |
| `MetadataToCsv.MetadataToCsvText` | rime-mod/metadata_to_csv.mjs:20-31 | the loop and the final `substring` give that text |
| `GenerateTbody.FirstSpecial` | generate_tbody.mjs:16-27 | the regular expression finds the first of the five special characters, or -1 when there is none |
| `GenerateTbody.EscapedPlain` | generate_tbody.mjs:27-31 | a text without special characters is unchanged |
| `GenerateTbody.EscapedAppend` | generate_tbody.mjs:38-69 | escaping works character by character |
| `GenerateTbody.Escaped` | generate_tbody.mjs:25-70 | escaping never shortens a text and at most sextuples it |
| `GenerateTbody.EscapedLength` | generate_tbody.mjs:25-70 | escaping keeps the length of a text exactly when the text holds no special character |
| `GenerateTbody.EscapeHtml` | generate_tbody.mjs:25-70 | `escapeHtml` replaces each special character by its entity and copies every other character, in order |
| `GenerateTbody.EscapedIsInert` | generate_tbody.mjs:25-70 | the escaped text holds none of `"`, `'`, `<` and `>` |
| `GenerateTbody.EscapeRoundTrip` | generate_tbody.mjs:39-64 | unescaping the five entities gives the text back, so no two texts escape alike |
| `GenerateTbody.ClassifyRow` | generate_tbody.mjs:72-89 | a row is selected (class and `checked`) exactly when its level is at least 2, disabled exactly when it is 0, and neither otherwise |

## Left out

- `JpegTiffTagType.EncodeAscii`: the source encodes with `TextEncoder`, which is UTF-8; the model encodes only 7-bit ASCII text, for which UTF-8 is one byte per character.
- Floating-point division: the quotients `n / d` of the rational formatters and the GPS clock time stay symbolic (`Piece`), because the model has no JavaScript number rendering.
- Tag descriptions (`info`): no modelled operation reads them.
- The GPS IFD: the source does not parse it (a TODO), and neither does the model. `GPS_TAGS` is modelled as a catalog only.
- `ParsedIFDData.toString` and the value text of `getMetadata`: the class is not part of the source's files. Rows carry the parsed entry, and the CSV export takes rows whose value is already text.
- `parseIFD`'s destination objects: they are passed and returned as values rather than mutated in place. Nothing else holds them, so no aliasing is lost.
- `Metadata`, `removeMetadata` and `mimeType` in `rime-mod/metadata.mjs`: they are abstract and are not called on the modelled path.
- `fraction.mjs` is not part of this model: a fraction is a pair of numerator and denominator.
- `MainDispatch.LoadMetadata`: a parser is modelled by the outcome of its test and construction on the file. Parsers other than `JPEGMetadata` are parameters.
- Input and output: the file reading and printing of `generate_tbody.mjs`, `index.mjs` (browser UI) and `worker.mjs` (web worker messaging).
- `GenerateTbody.ClassifyRow`: the HTML text of a row is not modelled. The model gives its varying parts: id, classes and checkbox attribute.
- Non-termination: the marker scan and the IFD walk report a run that never ends as `None` or `Diverges` instead of running.
