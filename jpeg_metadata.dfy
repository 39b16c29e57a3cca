/**
 * `JPEGMetadata` of rime-mod/jpeg_metadata.mjs: the signature test, the scan of the marker
 * segments for APP1 (FF E1) payloads, their concatenation, the identifier check, the TIFF
 * decode of IFD0 and of the EXIF IFD, and `getMetadata`.
 *
 * Three statements of the source cannot run as written, and the model follows their evident
 * intent: the constructor assigns `this.file` before `super()`, and the two deletions test
 * `x in this.parsedExifData[0]` on a value that is undefined; the model deletes ids 0x8825
 * and 0xA005 from the EXIF directory's parsed map.
 *
 * The identifier checked is upper-case `EXIF\0\0`, as the source has it, whereas section 4.7.2
 * of Exif 2.3 (CIPA DC-008) specifies `Exif\0\0` (`StandardIdentifierRejected`).
 */
module JpegMetadata {
  import opened Wrappers
  import opened BinaryManipulation
  import opened JpegTiffTagType
  import opened JpegIfd
  import JpegTiffTags
  import JsText

  /** The second bytes of FF D9 to FF DF: markers at which the scan stops. */
  const MARKER_INVALID: set<int> := {0xD9, 0xDA, 0xDB, 0xDC, 0xDD, 0xDE, 0xDF}
  const EXIF_IDENTIFIER: seq<int> := [69, 88, 73, 70, 0, 0]
  const EXIF_IFD_ID: int := 0x8769
  const GPS_IFD_ID: int := 0x8825
  const INTEROP_IFD_ID: int := 0xA005

  const NOT_JPEG: string := "Not JPEG"
  const NO_EXIF: string := "No EXIF data present."

  /** `data[i] == v` in JavaScript: an index outside the array reads `undefined`, which equals no number. */
  predicate ByteIs(data: seq<byte>, i: int, v: int)
  {
    0 <= i < |data| && data[i] == v
  }

  /** `isInvalidMarker`: FF followed by one of D9 to DF. */
  predicate IsInvalidMarker(data: seq<byte>, offset: int)
  {
    ByteIs(data, offset, 0xFF) && 0 <= offset + 1 < |data| && data[offset + 1] in MARKER_INVALID
  }

  /** `isEXIFMarker`: FF E1, the APP1 marker. */
  predicate IsExifMarker(data: seq<byte>, offset: int)
  {
    ByteIs(data, offset, 0xFF) && ByteIs(data, offset + 1, 0xE1)
  }

  /** `JPEGMetadata.test`: at least two bytes, and the SOI marker FF D8 first. */
  predicate Test(file: seq<byte>)
  {
    |file| >= 2 && file[0] == 0xFF && file[1] == 0xD8
  }

  /** The six identifier bytes from `offset` on. */
  predicate HasIdentifier(data: seq<byte>, offset: int)
  {
    forall i :: 0 <= i < |EXIF_IDENTIFIER| ==> ByteIs(data, offset + i, EXIF_IDENTIFIER[i])
  }

  /** `hasEXIFData(data, offset)`: compares byte by byte and stops at the first difference. */
  method HasExifData(data: seq<byte>, offset: int) returns (r: bool)
    ensures r == HasIdentifier(data, offset)
  {
    for i := 0 to |EXIF_IDENTIFIER|
      invariant forall j :: 0 <= j < i ==> ByteIs(data, offset + j, EXIF_IDENTIFIER[j])
    {
      if !ByteIs(data, offset + i, EXIF_IDENTIFIER[i]) {
        return false;
      }
    }
    return true;
  }

  /** A payload passes the check exactly when it starts with the bytes of "EXIF" and two zeros. */
  lemma IdentifierPrefix(data: seq<byte>)
    ensures HasIdentifier(data, 0) <==> |data| >= 6 && data[..6] == [69, 88, 73, 70, 0, 0]
  {
    if |data| >= 6 && data[..6] == [69, 88, 73, 70, 0, 0] {
      forall i | 0 <= i < 6 ensures ByteIs(data, i, EXIF_IDENTIFIER[i]) {
        assert data[i] == data[..6][i];
      }
    }
    if HasIdentifier(data, 0) {
      assert ByteIs(data, 5, EXIF_IDENTIFIER[5]);
    }
  }

  /** A payload with the identifier of the Exif standard, "Exif" and two zeros, is refused. */
  lemma StandardIdentifierRejected(data: seq<byte>)
    requires |data| >= 6 && data[..6] == [69, 120, 105, 102, 0, 0]
    ensures !HasIdentifier(data, 0)
  {
    assert data[1] == data[..6][1];
    assert !ByteIs(data, 1, EXIF_IDENTIFIER[1]);
  }

  // The marker scan

  /** The state of the scan: `exifFound`, `startExifPos`, `endExifPos` and the collected payloads. */
  datatype Scan = Scan(exifFound: bool, startExifPos: int, endExifPos: int, exifs: seq<seq<byte>>)

  const SCAN_START: Scan := Scan(false, 0, 0, [])

  /** The big-endian segment length at `pos + 2` minus the two bytes of the length itself. */
  function SegmentLength(file: seq<byte>, pos: int): (r: int)
    ensures -2 <= r < TWO_16 - 2
  {
    ReadUint16(file, pos + 2, true) - 2
  }

  /** `pos + 4 + length`: the position of the marker after the segment at `pos`. */
  function Hop(file: seq<byte>, pos: int): (r: int)
    ensures r >= pos + 2
  {
    pos + 4 + SegmentLength(file, pos)
  }

  /** `file.slice(pos + 4, pos + 4 + length)`: the payload of the segment at `pos`. */
  function Payload(file: seq<byte>, pos: int): seq<byte>
  {
    JsText.Slice(file, pos + 4, Hop(file, pos))
  }

  /** What one turn of the marker loop does: stop with its result, or go on at a later position. */
  datatype Turn = Stop(result: Option<Scan>) | Go(pos: int, scan: Scan)

  /**
   * One turn of the `while (true)` loop of the constructor at `pos`. Past the end of the file
   * every read is `undefined`: the loop then stops if an APP1 segment was seen (setting
   * `endExifPos` there) and otherwise advances by two forever, which the model reports as
   * `Stop(None)`.
   */
  function ScanStep(file: seq<byte>, pos: int, s: Scan): (t: Turn)
    ensures t.Go? ==> pos < |file| && t.pos >= pos + 2
  {
    if pos >= |file| && !s.exifFound then Stop(None)
    else if IsInvalidMarker(file, pos) then Stop(Some(s))
    else
      if IsExifMarker(file, pos) then
        Go(Hop(file, pos), Scan(true, if s.exifFound then s.startExifPos else pos, s.endExifPos, s.exifs + [Payload(file, pos)]))
      else if s.exifFound then Stop(Some(s.(endExifPos := pos)))
      else Go(Hop(file, pos), s)
  }

  /** The loop from `pos` on: its final state, or `None` where the source loops forever. */
  function ScanFrom(file: seq<byte>, pos: int, s: Scan): (r: Option<Scan>)
    ensures r.Some? && !r.value.exifFound ==> r.value == s
    ensures s.exifFound ==> r.Some? && r.value.exifFound && r.value.startExifPos == s.startExifPos
    decreases if pos < |file| then |file| - pos + 1 else 0
  {
    match ScanStep(file, pos, s)
    case Stop(r) => r
    case Go(next, n) => ScanFrom(file, next, n)
  }

  // The scan described segment by segment

  /** Where the search for the first APP1 segment along the chain of segments ends. */
  datatype Search = FoundAt(pos: int) | InvalidFirst | PastEnd

  /**
   * Following the segments from `pos`: the first APP1 marker, unless an FF D9 to FF DF marker
   * comes first or the chain leaves the file.
   */
  function FindApp1(file: seq<byte>, pos: int): (r: Search)
    ensures r.FoundAt? ==> IsExifMarker(file, r.pos) && r.pos >= pos
    decreases if pos < |file| then |file| - pos + 1 else 0
  {
    if pos >= |file| then PastEnd
    else if IsInvalidMarker(file, pos) then InvalidFirst
    else if IsExifMarker(file, pos) then FoundAt(pos)
    else FindApp1(file, Hop(file, pos))
  }

  /** The marker position reached from `pos` after following `n` segments. */
  function SegmentAt(file: seq<byte>, pos: int, n: nat): int
    decreases n
  {
    if n == 0 then pos else SegmentAt(file, Hop(file, pos), n - 1)
  }

  /**
   * The APP1 marker the search finds is the first one along the chain: every marker visited
   * before it is neither APP1 nor FF D9 to FF DF, and lies inside the file.
   */
  lemma {:induction false} FindApp1First(file: seq<byte>, pos: int) returns (n: nat)
    requires FindApp1(file, pos).FoundAt?
    ensures SegmentAt(file, pos, n) == FindApp1(file, pos).pos
    ensures forall m :: 0 <= m < n ==>
      var p := SegmentAt(file, pos, m);
      p < |file| && !IsExifMarker(file, p) && !IsInvalidMarker(file, p)
    decreases if pos < |file| then |file| - pos + 1 else 0
  {
    if IsExifMarker(file, pos) {
      n := 0;
    } else {
      var k := FindApp1First(file, Hop(file, pos));
      n := k + 1;
      forall m | 0 <= m < n
        ensures var p := SegmentAt(file, pos, m);
          p < |file| && !IsExifMarker(file, p) && !IsInvalidMarker(file, p)
      {
        if m > 0 {
          assert SegmentAt(file, pos, m) == SegmentAt(file, Hop(file, pos), m - 1);
        }
      }
    }
  }

  /** The positions of the APP1 segments that follow one another from `pos` on. */
  function App1Run(file: seq<byte>, pos: int): (r: seq<int>)
    ensures forall i :: 0 <= i < |r| ==> IsExifMarker(file, r[i]) && r[i] >= pos
    ensures IsExifMarker(file, pos) <==> |r| > 0 && r[0] == pos
    decreases |file| - pos
  {
    if IsExifMarker(file, pos) then [pos] + App1Run(file, Hop(file, pos)) else []
  }

  /** The run holds the markers visited one segment after another, and ends where `RunEnd` is. */
  lemma {:induction false} App1RunChain(file: seq<byte>, pos: int)
    ensures var r := App1Run(file, pos);
      (forall i :: 0 <= i < |r| ==> r[i] == SegmentAt(file, pos, i))
      && SegmentAt(file, pos, |r|) == RunEnd(file, pos)
    decreases |file| - pos
  {
    if IsExifMarker(file, pos) {
      var next := Hop(file, pos);
      App1RunChain(file, next);
      var r, t := App1Run(file, pos), App1Run(file, next);
      assert r == [pos] + t;
      forall i | 0 <= i < |r|
        ensures r[i] == SegmentAt(file, pos, i)
      {
        if i > 0 {
          assert r[i] == t[i - 1];
        }
      }
    }
  }

  /** The position of the first marker after that run: not an APP1 marker. */
  function RunEnd(file: seq<byte>, pos: int): (r: int)
    ensures r >= pos && !IsExifMarker(file, r)
    decreases |file| - pos
  {
    if IsExifMarker(file, pos) then RunEnd(file, Hop(file, pos)) else pos
  }

  /** The payloads of the segments at `ps`, in order. */
  function Payloads(file: seq<byte>, ps: seq<int>): (r: seq<seq<byte>>)
    ensures |r| == |ps| && forall i :: 0 <= i < |ps| ==> r[i] == Payload(file, ps[i])
  {
    if ps == [] then [] else [Payload(file, ps[0])] + Payloads(file, ps[1..])
  }

  lemma PayloadsCons(file: seq<byte>, p: int, ps: seq<int>)
    ensures Payloads(file, [p] + ps) == [Payload(file, p)] + Payloads(file, ps)
  {
    assert ([p] + ps)[1..] == ps;
  }

  /**
   * After an APP1 segment has been seen, the loop collects the payloads of the run of APP1
   * segments from `pos`, and at the marker that ends the run sets `endExifPos` unless it is
   * FF D9 to FF DF; it never loops forever.
   */
  lemma {:induction false} ScanAfterFirst(file: seq<byte>, pos: int, s: Scan)
    requires s.exifFound
    ensures var e := RunEnd(file, pos);
      ScanFrom(file, pos, s)
      == Some(s.(exifs := s.exifs + Payloads(file, App1Run(file, pos)),
                 endExifPos := if IsInvalidMarker(file, e) then s.endExifPos else e))
    decreases |file| - pos
  {
    if IsExifMarker(file, pos) {
      var next, p := Hop(file, pos), Payload(file, pos);
      var n := Scan(true, s.startExifPos, s.endExifPos, s.exifs + [p]);
      assert ScanStep(file, pos, s) == Go(next, n);
      assert ScanFrom(file, pos, s) == ScanFrom(file, next, n);
      ScanAfterFirst(file, next, n);
      var e := RunEnd(file, next);
      assert RunEnd(file, pos) == e;
      var rest := Payloads(file, App1Run(file, next));
      assert App1Run(file, pos) == [pos] + App1Run(file, next);
      PayloadsCons(file, pos, App1Run(file, next));
      var end := if IsInvalidMarker(file, e) then s.endExifPos else e;
      assert ScanFrom(file, next, n) == Some(Scan(true, s.startExifPos, end, (s.exifs + [p]) + rest));
      assert Payloads(file, App1Run(file, pos)) == [p] + rest;
      JsText.ConcatAssoc(s.exifs, [p], rest);
    } else {
      assert App1Run(file, pos) == [];
      assert s.exifs + [] == s.exifs;
    }
  }

  /**
   * Before any APP1 segment the loop skips segments: it stops with nothing found at an FF D9
   * to FF DF marker, loops forever once it leaves the file, and at the first APP1 marker goes
   * on collecting from there.
   */
  lemma {:induction false} ScanBeforeFirst(file: seq<byte>, pos: int, s: Scan)
    requires !s.exifFound
    ensures match FindApp1(file, pos)
      case PastEnd => ScanFrom(file, pos, s) == None
      case InvalidFirst => ScanFrom(file, pos, s) == Some(s)
      case FoundAt(q) => ScanFrom(file, pos, s) == ScanFrom(file, q, s)
    decreases if pos < |file| then |file| - pos + 1 else 0
  {
    if pos < |file| && !IsInvalidMarker(file, pos) && !IsExifMarker(file, pos) {
      ScanBeforeFirst(file, Hop(file, pos), s);
    }
  }

  /**
   * The whole marker loop from position 2: it starts the Exif data at the first APP1 marker of
   * the chain of segments, collects the payloads of that marker's run of APP1 segments, and
   * ends the data at the marker after the run unless that is FF D9 to FF DF. It finds nothing
   * when such a marker comes before any APP1 marker, and loops forever when the chain leaves
   * the file first.
   */
  lemma ScanCollects(file: seq<byte>)
    ensures ScanFrom(file, 2, SCAN_START) ==
      match FindApp1(file, 2)
      case PastEnd => None
      case InvalidFirst => Some(SCAN_START)
      case FoundAt(q) =>
        var e := RunEnd(file, q);
        Some(Scan(true, q, if IsInvalidMarker(file, e) then 0 else e, Payloads(file, App1Run(file, q))))
  {
    ScanBeforeFirst(file, 2, SCAN_START);
    match FindApp1(file, 2)
    case PastEnd =>
    case InvalidFirst =>
    case FoundAt(q) =>
      var n := Scan(true, q, 0, [Payload(file, q)]);
      assert ScanStep(file, q, SCAN_START) == Go(Hop(file, q), n);
      ScanAfterFirst(file, Hop(file, q), n);
      PayloadsCons(file, q, App1Run(file, Hop(file, q)));
  }

  /**
   * The payloads the scan collects: those already collected come first, and the scan has
   * found an APP1 segment exactly when it had one before or collected a payload since.
   */
  lemma {:induction false} ScanPayloads(file: seq<byte>, pos: int, s: Scan)
    ensures var r := ScanFrom(file, pos, s);
            r.Some? ==>
              && (r.value.exifFound <==> s.exifFound || |r.value.exifs| > |s.exifs|)
              && |r.value.exifs| >= |s.exifs| && r.value.exifs[..|s.exifs|] == s.exifs
    decreases if pos < |file| then |file| - pos + 1 else 0
  {
    var t := ScanStep(file, pos, s);
    if t.Go? {
      ScanPayloads(file, t.pos, t.scan);
      var r := ScanFrom(file, t.pos, t.scan);
      if r.Some? && t.scan != s {
        assert t.scan.exifs[..|s.exifs|] == s.exifs;
        PrefixOfPrefix(r.value.exifs, t.scan.exifs, s.exifs);
      }
    }
  }

  lemma PrefixOfPrefix<T>(a: seq<T>, b: seq<T>, c: seq<T>)
    requires |b| <= |a| && a[..|b|] == b
    requires |c| <= |b| && b[..|c|] == c
    ensures a[..|c|] == c
  {
    assert a[..|c|] == a[..|b|][..|c|];
  }

  /**
   * Where the scan starts the Exif data: at the first APP1 marker, kept once set.
   */
  lemma {:induction false} ScanStart(file: seq<byte>, pos: int, s: Scan)
    requires s.exifFound ==> IsExifMarker(file, s.startExifPos) && s.startExifPos < pos
    ensures var r := ScanFrom(file, pos, s);
            r.Some? ==>
              && (s.exifFound ==> r.value.startExifPos == s.startExifPos)
              && (r.value.exifFound ==> IsExifMarker(file, r.value.startExifPos))
              && (!s.exifFound && r.value.exifFound ==> r.value.startExifPos >= pos)
    decreases if pos < |file| then |file| - pos + 1 else 0
  {
    var t := ScanStep(file, pos, s);
    if t.Go? {
      ScanStart(file, t.pos, t.scan);
    }
  }

  /**
   * Where the scan ends the Exif data: `endExifPos` changes only at a position after the first
   * APP1 marker that holds neither an APP1 marker nor FF D9 to FF DF, and only once one has
   * been seen.
   */
  lemma {:induction false} ScanEnd(file: seq<byte>, pos: int, s: Scan)
    requires s.exifFound ==> IsExifMarker(file, s.startExifPos) && s.startExifPos < pos
    ensures var r := ScanFrom(file, pos, s);
            r.Some? && r.value.endExifPos != s.endExifPos ==>
              r.value.exifFound && r.value.endExifPos > r.value.startExifPos
              && !IsExifMarker(file, r.value.endExifPos) && !IsInvalidMarker(file, r.value.endExifPos)
    decreases if pos < |file| then |file| - pos + 1 else 0
  {
    var t := ScanStep(file, pos, s);
    if t.Go? {
      ScanEnd(file, t.pos, t.scan);
    }
  }

  /**
   * An APP1 segment followed by the end of the image: its payload is collected, the start is
   * the marker's position, and `endExifPos` stays 0.
   */
  lemma SingleSegmentScan()
    ensures ScanFrom([0xFF, 0xD8, 0xFF, 0xE1, 0, 8, 69, 88, 73, 70, 0, 0, 0xFF, 0xD9], 2, SCAN_START)
            == Some(Scan(true, 2, 0, [[69, 88, 73, 70, 0, 0]]))
  {
    var file: seq<byte> := [0xFF, 0xD8, 0xFF, 0xE1, 0, 8, 69, 88, 73, 70, 0, 0, 0xFF, 0xD9];
    assert IsExifMarker(file, 2) && !IsInvalidMarker(file, 2);
    assert SegmentLength(file, 2) == 6;
    var payload := JsText.Slice(file, 6, 12);
    assert payload == [69, 88, 73, 70, 0, 0];
    assert IsInvalidMarker(file, 12);
    assert SCAN_START.exifs + [payload] == [payload];
    assert ScanFrom(file, 12, Scan(true, 2, 0, [payload])) == Some(Scan(true, 2, 0, [payload]));
  }

  /** A file that runs out before any APP1 segment makes the source loop forever. */
  lemma NoSegmentsDiverges()
    ensures ScanFrom([0xFF, 0xD8], 2, SCAN_START) == None
  {
  }

  // Concatenation

  /** `result.set(arr, start)`: copies `arr` into `result` from `start` on. */
  method SetAt(result: array<byte>, arr: seq<byte>, start: int)
    requires 0 <= start && start + |arr| <= result.Length
    modifies result
    ensures result[..] == old(result[..start]) + arr + old(result[start + |arr|..])
  {
    forall k | 0 <= k < |arr| {
      result[start + k] := arr[k];
    }
  }

  /** `consolidateUint8Array(arrays)`: one array holding all the arrays, in order. */
  method ConsolidateUint8Array(arrays: seq<seq<byte>>) returns (result: array<byte>)
    ensures result[..] == JsText.Flatten(arrays)
  {
    var length := 0;
    for i := 0 to |arrays|
      invariant length == JsText.TotalLength(arrays[..i])
    {
      assert arrays[..i + 1][..i] == arrays[..i];
      length := length + |arrays[i]|;
    }
    assert arrays[..|arrays|] == arrays;
    JsText.FlattenLength(arrays);
    result := new byte[length](_ => 0);
    var start := 0;
    for i := 0 to |arrays|
      invariant result.Length == |JsText.Flatten(arrays)|
      invariant start == |JsText.Flatten(arrays[..i])| <= result.Length
      invariant result[..start] == JsText.Flatten(arrays[..i])
    {
      ghost var done := JsText.Flatten(arrays[..i]);
      assert JsText.Flatten(arrays[..i + 1]) == done + arrays[i] by {
        assert arrays[..i + 1][..i] == arrays[..i];
      }
      assert start + |arrays[i]| <= result.Length by {
        JsText.FlattenAppend(arrays[..i + 1], arrays[i + 1..]);
        assert arrays[..i + 1] + arrays[i + 1..] == arrays;
      }
      SetAt(result, arrays[i], start);
      start := start + |arrays[i]|;
    }
  }

  // The decoded file

  /** The fields the constructor fills in. */
  datatype JpegState = JpegState(
    file: seq<byte>,
    startExifPos: int,
    endExifPos: int,
    bigEndian: bool,
    parsedTiffData: seq<map<int, ParsedIfdData>>,
    rawTiffData: seq<map<int, RawIfdData>>,
    parsedExifData: map<int, ParsedIfdData>,
    rawExifData: map<int, RawIfdData>)

  /**
   * `parsedData[0]` of the EXIF pointer entry: the first number its handler decodes from the
   * value bytes, if any. The class of a parsed entry is not part of the source's files; the
   * model takes `parsedData` to be the handler's `decode` of the entry's bytes, type and count.
   */
  function ExifPointer(p: ParsedIfdData, bigEndian: bool): Option<int>
  {
    match DecodeSpec(p.cls.codec, p.bytes, p.tagType, 0, bigEndian, p.count)
    case Success(Numbers(nums)) => if |nums| > 0 then Some(nums[0]) else None
    case _ => None
  }

  /**
   * The EXIF directory: parsed at the offset the IFD0 pointer entry holds, or left empty when
   * there is no such entry. With no decoded number, the source calls `parseIFD` at an undefined
   * offset, where the entry count reads as 0.
   */
  function ExifIfd(exifData: seq<byte>, tags: map<int, CatalogEntry>, bigEndian: bool, ifd0: Ifd): Ifd
  {
    if EXIF_IFD_ID in ifd0.parsed then
      match ExifPointer(ifd0.parsed[EXIF_IFD_ID], bigEndian)
      case Some(offset) => FillIfd(EMPTY_IFD, tags, Entries(exifData, offset, bigEndian))
      case None => EMPTY_IFD
    else EMPTY_IFD
  }

  function ParsedMaps(ifds: seq<Ifd>): (r: seq<map<int, ParsedIfdData>>)
    ensures |r| == |ifds| && forall i :: 0 <= i < |ifds| ==> r[i] == ifds[i].parsed
  {
    seq(|ifds|, i requires 0 <= i < |ifds| => ifds[i].parsed)
  }

  function RawMaps(ifds: seq<Ifd>): (r: seq<map<int, RawIfdData>>)
    ensures |r| == |ifds| && forall i :: 0 <= i < |ifds| ==> r[i] == ifds[i].raw
  {
    seq(|ifds|, i requires 0 <= i < |ifds| => ifds[i].raw)
  }

  /** The TIFF decode of the payloads and the EXIF directory, with its pointer entries removed. */
  function DecodeExif(file: seq<byte>, s: Scan, exifData: seq<byte>, tags: map<int, CatalogEntry>): (r: Result<JpegState, ParseError>)
  {
    var tiff :- TiffSpec(exifData, 6, tags);
    TiffHeader(exifData, 6, tags);
    var exif := ExifIfd(exifData, tags, tiff.bigEndian, tiff.ifds[0]);
    Success(JpegState(file, s.startExifPos, s.endExifPos, tiff.bigEndian, ParsedMaps(tiff.ifds), RawMaps(tiff.ifds),
                      exif.parsed - {GPS_IFD_ID, INTEROP_IFD_ID}, exif.raw))
  }

  /** `DecodeExif` once the TIFF decode has succeeded, and when it has failed. */
  lemma DecodeExifCases(file: seq<byte>, s: Scan, exifData: seq<byte>, tags: map<int, CatalogEntry>)
    ensures TiffSpec(exifData, 6, tags).Failure? ==> DecodeExif(file, s, exifData, tags) == Failure(TiffSpec(exifData, 6, tags).error)
    ensures TiffSpec(exifData, 6, tags).Success? ==>
              var tiff := TiffSpec(exifData, 6, tags).value;
              |tiff.ifds| >= 1 &&
              var exif := ExifIfd(exifData, tags, tiff.bigEndian, tiff.ifds[0]);
              DecodeExif(file, s, exifData, tags) ==
                Success(JpegState(file, s.startExifPos, s.endExifPos, tiff.bigEndian, ParsedMaps(tiff.ifds), RawMaps(tiff.ifds),
                                  exif.parsed - {GPS_IFD_ID, INTEROP_IFD_ID}, exif.raw))
  {
    TiffHeader(exifData, 6, tags);
  }

  /** What `new JPEGMetadata(file)` leaves behind, or the error it throws. */
  function LoadSpec(file: seq<byte>): Result<JpegState, ParseError>
  {
    if !Test(file) then Failure(Thrown(NOT_JPEG))
    else
      match ScanFrom(file, 2, SCAN_START)
      case None => Failure(Diverges)
      case Some(s) =>
        if !s.exifFound then Failure(Thrown(NO_EXIF))
        else
          var exifData := JsText.Flatten(s.exifs);
          if !HasIdentifier(exifData, 0) then Failure(Thrown(NO_EXIF))
          else DecodeExif(file, s, exifData, JpegTiffTags.TiffTags())
  }

  /**
   * The errors the constructor throws, in order: a file that fails `test` is "Not JPEG"; one
   * that passes it but has no APP1 payload, or whose payloads do not start with the identifier,
   * is "No EXIF data present."; a bad TIFF header gives the header message.
   */
  lemma LoadErrors(file: seq<byte>)
    ensures !Test(file) <==> LoadSpec(file) == Failure(Thrown(NOT_JPEG))
    ensures var scan := ScanFrom(file, 2, SCAN_START);
            Test(file) && scan.Some? ==>
              ((LoadSpec(file) == Failure(Thrown(NO_EXIF)))
               <==> (!scan.value.exifFound || !HasIdentifier(JsText.Flatten(scan.value.exifs), 0)))
    ensures var scan := ScanFrom(file, 2, SCAN_START);
            Test(file) && scan.Some? && scan.value.exifFound && HasIdentifier(JsText.Flatten(scan.value.exifs), 0) ==>
              (LoadSpec(file) == Failure(Thrown(INVALID_TIFF)) <==> !ValidHeader(JsText.Flatten(scan.value.exifs), 6))
  {
    var scan := ScanFrom(file, 2, SCAN_START);
    if Test(file) && scan.Some? && scan.value.exifFound {
      var exifData := JsText.Flatten(scan.value.exifs);
      if HasIdentifier(exifData, 0) {
        TiffHeader(exifData, 6, JpegTiffTags.TiffTags());
      }
    }
  }

  /** Every key of the EXIF directory is a 16-bit tag id. */
  lemma ExifKeys16(exifData: seq<byte>, tags: map<int, CatalogEntry>, bigEndian: bool, ifd0: Ifd)
    ensures Keys16(ExifIfd(exifData, tags, bigEndian, ifd0))
  {
    if EXIF_IFD_ID in ifd0.parsed && ExifPointer(ifd0.parsed[EXIF_IFD_ID], bigEndian).Some? {
      var offset := ExifPointer(ifd0.parsed[EXIF_IFD_ID], bigEndian).value;
      DirectoryKeys16(tags, Entries(exifData, offset, bigEndian));
    }
  }

  /** What a successful decode of the payloads leaves behind, whatever the tag catalog. */
  lemma DecodedState(file: seq<byte>, s: Scan, exifData: seq<byte>, tags: map<int, CatalogEntry>)
    requires DecodeExif(file, s, exifData, tags).Success?
    ensures var st := DecodeExif(file, s, exifData, tags).value;
            && |st.parsedTiffData| >= 1 && |st.rawTiffData| == |st.parsedTiffData|
            && GPS_IFD_ID !in st.parsedExifData && INTEROP_IFD_ID !in st.parsedExifData
            && (forall i :: 0 <= i < |st.parsedTiffData| ==> forall id | id in st.parsedTiffData[i] :: 0 <= id < TWO_16)
            && (forall id | id in st.parsedExifData :: 0 <= id < TWO_16)
  {
    DecodeExifCases(file, s, exifData, tags);
    var tiff := TiffSpec(exifData, 6, tags).value;
    TiffKeys16(exifData, 6, tags);
    ExifKeys16(exifData, tags, tiff.bigEndian, tiff.ifds[0]);
  }

  /**
   * A decoded file: there is at least IFD0, the EXIF directory has no GPS or interoperability
   * pointer entry, and every directory's keys are 16-bit tag ids.
   */
  lemma LoadedState(file: seq<byte>)
    requires LoadSpec(file).Success?
    ensures var st := LoadSpec(file).value;
            && |st.parsedTiffData| >= 1 && |st.rawTiffData| == |st.parsedTiffData|
            && GPS_IFD_ID !in st.parsedExifData && INTEROP_IFD_ID !in st.parsedExifData
            && (forall i :: 0 <= i < |st.parsedTiffData| ==> forall id | id in st.parsedTiffData[i] :: 0 <= id < TWO_16)
            && (forall id | id in st.parsedExifData :: 0 <= id < TWO_16)
  {
    var s := ScanFrom(file, 2, SCAN_START).value;
    DecodedState(file, s, JsText.Flatten(s.exifs), JpegTiffTags.TiffTags());
  }

  // getMetadata

  /** A row of `getMetadata`: the id as text, the tag name, the parsed entry and the level. */
  datatype MetadataResult = MetadataResult(id: string, name: string, value: ParsedIfdData, level: int)

  /**
   * The ids in `keys` from `k` up to 65535, ascending: the order in which `Object.entries`
   * lists the integer keys of an object.
   */
  function IdsFrom(keys: set<int>, k: nat): (r: seq<nat>)
    ensures forall i, j :: 0 <= i < j < |r| ==> r[i] < r[j]
    ensures forall x :: x in r <==> x in keys && k <= x < TWO_16
    decreases TWO_16 - k
  {
    if k >= TWO_16 then []
    else
      var rest := IdsFrom(keys, k + 1);
      if k in keys then
        assert forall j :: 0 <= j < |rest| ==> rest[j] > k by {
          forall j | 0 <= j < |rest| ensures rest[j] > k {
            assert rest[j] in rest;
          }
        }
        [k] + rest
      else rest
  }

  function Ids<V>(m: map<int, V>): seq<nat>
  {
    IdsFrom(m.Keys, 0)
  }

  function Rows(m: map<int, ParsedIfdData>, ids: seq<nat>, level: int): (r: seq<MetadataResult>)
    requires forall i :: 0 <= i < |ids| ==> ids[i] in m
    ensures |r| == |ids|
  {
    seq(|ids|, i requires 0 <= i < |ids| => MetadataResult(JsText.NatToString(ids[i]), m[ids[i]].name, m[ids[i]], level))
  }

  /** The rows `getMetadata` returns: IFD0's parsed entries, then the EXIF directory's. */
  function MetadataRows(st: JpegState): seq<MetadataResult>
    requires |st.parsedTiffData| >= 1
  {
    var ifd0 := st.parsedTiffData[0];
    Rows(ifd0, Ids(ifd0), 0) + Rows(st.parsedExifData, Ids(st.parsedExifData), 2)
  }

  /** The tag id a row's text stands for. */
  function RowId(row: MetadataResult): nat
  {
    JsText.ParseNumeral(row.id, 10)
  }

  /** Each row stands for an entry of `m`, at `level`, under the decimal text of its id. */
  predicate RowsMatch(rows: seq<MetadataResult>, m: map<int, ParsedIfdData>, level: int)
  {
    forall i :: 0 <= i < |rows| ==>
      rows[i].level == level && RowId(rows[i]) in m && rows[i].id == JsText.NatToString(RowId(rows[i]))
      && rows[i].value == m[RowId(rows[i])] && rows[i].name == m[RowId(rows[i])].name
  }

  predicate RowsAscending(rows: seq<MetadataResult>)
  {
    forall i, j :: 0 <= i < j < |rows| ==> RowId(rows[i]) < RowId(rows[j])
  }

  predicate RowsCover(rows: seq<MetadataResult>, m: map<int, ParsedIfdData>)
  {
    forall id | id in m :: exists i :: 0 <= i < |rows| && RowId(rows[i]) == id
  }

  /** `rows` list the entries of `m`, one row per id, at `level`, in ascending id order. */
  predicate ListsEntries(rows: seq<MetadataResult>, m: map<int, ParsedIfdData>, level: int)
  {
    RowsMatch(rows, m, level) && RowsAscending(rows) && RowsCover(rows, m)
  }

  /** The row for `ids[i]` carries that id, as text that reads back as it. */
  lemma RowsIds(m: map<int, ParsedIfdData>, ids: seq<nat>, level: int)
    requires forall i :: 0 <= i < |ids| ==> ids[i] in m
    ensures var rows := Rows(m, ids, level);
            forall i :: 0 <= i < |rows| ==> RowId(rows[i]) == ids[i] && rows[i].id == JsText.NatToString(ids[i])
  {
    var rows := Rows(m, ids, level);
    forall i | 0 <= i < |rows|
      ensures RowId(rows[i]) == ids[i] && rows[i].id == JsText.NatToString(ids[i])
    {
      JsText.NatToStringRoundTrip(ids[i]);
    }
  }

  lemma RowsMatchIds(m: map<int, ParsedIfdData>, level: int)
    ensures RowsMatch(Rows(m, Ids(m), level), m, level)
  {
    RowsIds(m, Ids(m), level);
  }

  lemma RowsAscendingIds(m: map<int, ParsedIfdData>, level: int)
    ensures RowsAscending(Rows(m, Ids(m), level))
  {
    RowsIds(m, Ids(m), level);
  }

  lemma RowsCoverIds(m: map<int, ParsedIfdData>, level: int)
    requires forall id | id in m :: 0 <= id < TWO_16
    ensures RowsCover(Rows(m, Ids(m), level), m)
  {
    var ids := Ids(m);
    var rows := Rows(m, ids, level);
    RowsIds(m, ids, level);
    forall id | id in m
      ensures exists i :: 0 <= i < |rows| && RowId(rows[i]) == id
    {
      assert id in ids;
      var i :| 0 <= i < |ids| && ids[i] == id;
      assert RowId(rows[i]) == id;
    }
  }

  lemma RowsListEntries(m: map<int, ParsedIfdData>, level: int)
    requires forall id | id in m :: 0 <= id < TWO_16
    ensures ListsEntries(Rows(m, Ids(m), level), m, level)
  {
    RowsMatchIds(m, level);
    RowsAscendingIds(m, level);
    RowsCoverIds(m, level);
  }

  /**
   * `getMetadata` on a decoded file: first every parsed entry of IFD0 at level 0, then every
   * parsed entry of the EXIF directory at level 2, each part in ascending id order. Raw entries
   * have no row.
   */
  lemma MetadataListing(file: seq<byte>)
    requires LoadSpec(file).Success?
    ensures var st := LoadSpec(file).value;
            |st.parsedTiffData| >= 1 &&
            var rows := MetadataRows(st);
            var n := |Ids(st.parsedTiffData[0])|;
            n <= |rows| && ListsEntries(rows[..n], st.parsedTiffData[0], 0) && ListsEntries(rows[n..], st.parsedExifData, 2)
  {
    LoadedState(file);
    var st := LoadSpec(file).value;
    var ifd0 := st.parsedTiffData[0];
    RowsListEntries(ifd0, 0);
    RowsListEntries(st.parsedExifData, 2);
    var rows := MetadataRows(st);
    var n := |Ids(ifd0)|;
    assert rows[..n] == Rows(ifd0, Ids(ifd0), 0);
    assert rows[n..] == Rows(st.parsedExifData, Ids(st.parsedExifData), 2);
  }

  /** The object `new JPEGMetadata(file)` creates. */
  class JpegMetadataObject {
    var file: seq<byte>
    var startExifPos: int
    var endExifPos: int
    var bigEndian: bool
    var parsedTiffData: seq<map<int, ParsedIfdData>>
    var rawTiffData: seq<map<int, RawIfdData>>
    var parsedExifData: map<int, ParsedIfdData>
    var rawExifData: map<int, RawIfdData>

    function State(): JpegState
      reads this
    {
      JpegState(file, startExifPos, endExifPos, bigEndian, parsedTiffData, rawTiffData, parsedExifData, rawExifData)
    }

    /** The object before the constructor's body has run: only `file` is set. */
    constructor (file: seq<byte>)
      ensures this.file == file && parsedTiffData == []
    {
      this.file := file;
      parsedTiffData := [];
    }

    /**
     * The body of the constructor. On success the fields hold the decoded file; otherwise
     * `err` is what the constructor throws, or `Diverges` where it never returns.
     */
    method Parse() returns (err: Option<ParseError>)
      modifies this
      ensures file == old(file)
      ensures err.None? ==> LoadSpec(file).Success? && State() == LoadSpec(file).value
      ensures err.Some? ==> LoadSpec(file) == Failure(err.value)
    {
      if !Test(file) {
        return Some(Thrown(NOT_JPEG));
      }
      var scan := ScanMarkers();
      if scan.None? {
        return Some(Diverges);
      }
      if !scan.value.exifFound {
        return Some(Thrown(NO_EXIF));
      }
      var consolidated := ConsolidateUint8Array(scan.value.exifs);
      var exifData := consolidated[..];
      var hasExif := HasExifData(exifData, 0);
      if !hasExif {
        return Some(Thrown(NO_EXIF));
      }
      err := DecodeFields(exifData, JpegTiffTags.TiffTags());
    }

    /**
     * The marker loop of the constructor, from position 2: it sets `startExifPos` and
     * `endExifPos` as it goes and returns the collected payloads, or `None` where the source
     * loops forever.
     */
    method ScanMarkers() returns (scan: Option<Scan>)
      modifies this`startExifPos, this`endExifPos
      ensures file == old(file)
      ensures bigEndian == old(bigEndian) && parsedTiffData == old(parsedTiffData) && rawTiffData == old(rawTiffData)
      ensures parsedExifData == old(parsedExifData) && rawExifData == old(rawExifData)
      ensures scan == ScanFrom(file, 2, SCAN_START)
      ensures scan.Some? ==> startExifPos == scan.value.startExifPos && endExifPos == scan.value.endExifPos
    {
      startExifPos := 0;
      endExifPos := 0;
      var pos := 2;
      var exifFound := false;
      var exifs: seq<seq<byte>> := [];
      ghost var goal := ScanFrom(file, 2, SCAN_START);
      while true
        invariant ScanFrom(file, pos, Scan(exifFound, startExifPos, endExifPos, exifs)) == goal
        decreases if pos < |file| then |file| - pos + 1 else 0
      {
        ghost var before := Scan(exifFound, startExifPos, endExifPos, exifs);
        ghost var step := ScanStep(file, pos, before);
        if pos >= |file| && !exifFound {
          assert step == Stop(None);
          return None;
        }
        if IsInvalidMarker(file, pos) {
          assert step == Stop(Some(before));
          break;
        }
        var length := ReadUint16(file, pos + 2, true) - 2;
        assert length == SegmentLength(file, pos);
        if IsExifMarker(file, pos) {
          if !exifFound {
            startExifPos := pos;
          }
          exifFound := true;
          exifs := exifs + [JsText.Slice(file, pos + 4, pos + 4 + length)];
        } else if exifFound {
          endExifPos := pos;
          assert step == Stop(Some(Scan(exifFound, startExifPos, endExifPos, exifs)));
          break;
        }
        pos := pos + 4 + length;
        assert step == Go(pos, Scan(exifFound, startExifPos, endExifPos, exifs));
      }
      scan := Some(Scan(exifFound, startExifPos, endExifPos, exifs));
    }

    /**
     * The constructor after the identifier check: the TIFF decode of the payload into the
     * fields, then the EXIF directory and the removal of its pointer entries.
     */
    method DecodeFields(exifData: seq<byte>, tags: map<int, CatalogEntry>) returns (err: Option<ParseError>)
      modifies this
      ensures file == old(file) && startExifPos == old(startExifPos) && endExifPos == old(endExifPos)
      ensures var s := Scan(true, old(startExifPos), old(endExifPos), []);
              var spec := DecodeExif(file, s, exifData, tags);
              (err.None? ==> spec.Success? && State() == spec.value) && (err.Some? ==> spec == Failure(err.value))
    {
      var decoded := DecodePayload(file, Scan(true, startExifPos, endExifPos, []), exifData, tags);
      if decoded.Failure? {
        return Some(decoded.error);
      }
      var st := decoded.value;
      bigEndian := st.bigEndian;
      parsedTiffData := st.parsedTiffData;
      rawTiffData := st.rawTiffData;
      parsedExifData := st.parsedExifData;
      rawExifData := st.rawExifData;
      return None;
    }

    /** `getMetadata()`: one row per parsed entry of IFD0, then one per parsed entry of the EXIF directory. */
    method GetMetadata() returns (result: seq<MetadataResult>)
      requires |parsedTiffData| >= 1
      ensures result == MetadataRows(State())
    {
      var ifd0 := parsedTiffData[0];
      result := PushRows([], ifd0, 0);
      EmptyPrefix(Rows(ifd0, Ids(ifd0), 0));
      result := PushRows(result, parsedExifData, 2);
      assert MetadataRows(State()) == Rows(ifd0, Ids(ifd0), 0) + Rows(parsedExifData, Ids(parsedExifData), 2);
    }
  }

  /**
   * The decoding steps of the constructor after the identifier check, on values: `parseTIFF`
   * of the payload, `parseIFD` of the EXIF directory, and the deletion of its GPS and
   * interoperability pointer entries, one after the other.
   */
  method DecodePayload(file: seq<byte>, s: Scan, exifData: seq<byte>, tags: map<int, CatalogEntry>) returns (r: Result<JpegState, ParseError>)
    ensures r == DecodeExif(file, s, exifData, tags)
  {
    var tiff := ParseTiff(exifData, 6, tags);
    DecodeExifCases(file, s, exifData, tags);
    if tiff.Failure? {
      return Failure(tiff.error);
    }
    var exif := ReadExifIfd(exifData, tags, tiff.value.bigEndian, tiff.value.ifds[0]);
    var parsedExif := exif.parsed;
    DeleteTwo(parsedExif, GPS_IFD_ID, INTEROP_IFD_ID);
    if GPS_IFD_ID in parsedExif {
      parsedExif := parsedExif - {GPS_IFD_ID};
    } else {
      DeleteAbsent(parsedExif, GPS_IFD_ID);
    }
    if INTEROP_IFD_ID in parsedExif {
      parsedExif := parsedExif - {INTEROP_IFD_ID};
    } else {
      DeleteAbsent(parsedExif, INTEROP_IFD_ID);
    }
    r := Success(JpegState(file, s.startExifPos, s.endExifPos, tiff.value.bigEndian, ParsedMaps(tiff.value.ifds),
                           RawMaps(tiff.value.ifds), parsedExif, exif.raw));
  }

  /** `delete m[k]` of a key that is not there changes nothing. */
  lemma DeleteAbsent<V>(m: map<int, V>, k: int)
    requires k !in m
    ensures m - {k} == m
  {
  }

  /** Two deletions in a row remove both keys. */
  lemma DeleteTwo<V>(m: map<int, V>, a: int, b: int)
    ensures m - {a} - {b} == m - {a, b}
  {
  }

  /**
   * The EXIF step of the constructor: when IFD0 holds the pointer entry, `parseIFD` at the
   * offset it decodes to, into empty maps.
   */
  method ReadExifIfd(exifData: seq<byte>, tags: map<int, CatalogEntry>, bigEndian: bool, ifd0: Ifd) returns (exif: Ifd)
    ensures exif == ExifIfd(exifData, tags, bigEndian, ifd0)
  {
    exif := EMPTY_IFD;
    if EXIF_IFD_ID in ifd0.parsed {
      var pointer := ifd0.parsed[EXIF_IFD_ID];
      var decoded := Decode(pointer.cls.codec, pointer.bytes, pointer.tagType, 0, bigEndian, pointer.count);
      if decoded.Success? && decoded.value.Numbers? && |decoded.value.nums| > 0 {
        var next;
        exif, next := ParseIfd(exifData, decoded.value.nums[0], bigEndian, tags, EMPTY_IFD);
      }
    }
  }

  /** All ids `Ids` lists are keys of the map. */
  lemma IdsInMap<V>(m: map<int, V>)
    ensures forall i :: 0 <= i < |Ids(m)| ==> Ids(m)[i] in m
  {
    var ids := Ids(m);
    forall i | 0 <= i < |ids| ensures ids[i] in m {
      assert ids[i] in ids;
    }
  }

  /** One `for (const [key, value] of Object.entries(m))` loop of `getMetadata`, pushing a row per entry. */
  method PushRows(prefix: seq<MetadataResult>, m: map<int, ParsedIfdData>, level: int) returns (result: seq<MetadataResult>)
    ensures result == prefix + Rows(m, Ids(m), level)
  {
    var ids := Ids(m);
    IdsInMap(m);
    ghost var rows := Rows(m, ids, level);
    result := prefix;
    for i := 0 to |ids|
      invariant result == prefix + rows[..i]
    {
      var key := ids[i];
      var row := MetadataResult(JsText.NatToString(key), m[key].name, m[key], level);
      assert row == rows[i];
      TakeOneMore(rows, i);
      result := result + [row];
    }
    TakeAll(rows);
  }

  lemma EmptyPrefix<T>(s: seq<T>)
    ensures [] + s == s
  {
  }

  lemma TakeOneMore<T>(s: seq<T>, i: nat)
    requires i < |s|
    ensures s[..i + 1] == s[..i] + [s[i]]
  {
  }

  lemma TakeAll<T>(s: seq<T>)
    ensures s[..|s|] == s
  {
  }

  /** `new JPEGMetadata(file)`: the decoded object, or the error. */
  method Load(file: seq<byte>) returns (r: Result<JpegMetadataObject, ParseError>)
    ensures r.Failure? <==> LoadSpec(file).Failure?
    ensures r.Failure? ==> r.error == LoadSpec(file).error
    ensures r.Success? ==> fresh(r.value) && r.value.State() == LoadSpec(file).value
  {
    var m := new JpegMetadataObject(file);
    var err := m.Parse();
    if err.Some? {
      return Failure(err.value);
    }
    return Success(m);
  }
}
