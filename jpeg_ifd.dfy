/**
 * The IFD decoder of rime-mod/jpeg_metadata.mjs: `parseIFD`, which sorts the entries of one
 * image file directory into parsed and raw maps, and `parseTIFF`, which checks the TIFF header
 * and follows the chain of directories.
 *
 * The offset arithmetic is modelled as written, and differs from section 2 of TIFF Revision 6.0
 * in three places:
 * - the entries are read from `start`, where the 16-bit entry count is, instead of `start + 2`;
 * - the next-directory pointer is read at `start + 12 * count` instead of `start + 2 + 12 * count`;
 * - the chain starts at the header's offset field (`offset + 4`) instead of at the offset it holds.
 * Value offsets are taken relative to the buffer passed in; the caller passes the APP1 payload,
 * which still starts with the 6-byte identifier, so they are 6 bytes off the TIFF origin.
 *
 * `ParsedIFDData` and `RawIFDData` are imported by the source but not defined in any file of it;
 * the model records a parsed entry's name, handler class, type, count and value bytes, and a raw
 * entry's type, count and value bytes.
 */
module JpegIfd {
  import opened Wrappers
  import opened BinaryManipulation
  import opened JpegTiffTagType
  import JpegTiffTags
  import JsText

  type CatalogEntry = JpegTiffTags.CatalogEntry
  type HandlerClass = JpegTiffTags.HandlerClass

  /** An error the source throws, or a run that never returns. */
  datatype ParseError = Thrown(message: string) | Diverges

  const INVALID_TIFF: string := "Invalid TIFF header while parsing."

  /** A directory entry as read from the buffer. */
  datatype IfdEntry = IfdEntry(tagId: int, tagType: int, count: int, value: seq<byte>)

  datatype ParsedIfdData = ParsedIfdData(name: string, cls: HandlerClass, tagType: int, count: int, bytes: seq<byte>)

  datatype RawIfdData = RawIfdData(tagType: int, count: int, bytes: seq<byte>)

  /** One directory: the `destParsed` and `destRaw` objects, keyed by tag id. */
  datatype Ifd = Ifd(parsed: map<int, ParsedIfdData>, raw: map<int, RawIfdData>)

  const EMPTY_IFD: Ifd := Ifd(map[], map[])

  /**
   * The value bytes of an entry whose value field is at `at`: the field itself when the value
   * takes at most four bytes, otherwise the bytes at the signed 32-bit offset the field holds.
   */
  function ValueData(data: seq<byte>, at: int, bigEndian: bool, size: int): seq<byte>
  {
    if size <= 4 then JsText.Slice(data, at, at + size)
    else
      var valueOffset := ReadUint32(data, at, bigEndian);
      JsText.Slice(data, valueOffset, valueOffset + size)
  }

  /** Entry `i` of the directory at `start`: twelve bytes from `start + 12 * i`. */
  function ReadEntry(data: seq<byte>, start: int, bigEndian: bool, i: int): (e: IfdEntry)
    ensures 0 <= e.tagId < TWO_16 && 0 <= e.tagType < TWO_16
  {
    var base := start + i * 12;
    var tagType := ReadUint16(data, base + 2, bigEndian);
    var count := ReadUint32(data, base + 4, bigEndian);
    IfdEntry(ReadUint16(data, base, bigEndian), tagType, count, ValueData(data, base + 8, bigEndian, ElementSize(tagType) * count))
  }

  /**
   * Where an entry's value comes from: a value of at most four bytes is the start of the value
   * field, a longer one is the bytes at the offset the field holds, wherever those lie inside
   * the buffer.
   */
  lemma EntryValueLayout(data: seq<byte>, start: int, bigEndian: bool, i: int)
    ensures var base := start + i * 12;
            var e := ReadEntry(data, start, bigEndian, i);
            var size := ElementSize(e.tagType) * e.count;
            && e.tagId == ReadUint16(data, base, bigEndian)
            && e.count == ReadUint32(data, base + 4, bigEndian)
            && (0 <= size <= 4 && 0 <= base + 8 && base + 8 + size <= |data| ==> e.value == data[base + 8..base + 8 + size])
            && (var off := ReadUint32(data, base + 8, bigEndian);
                size > 4 && 0 <= off && off + size <= |data| ==> e.value == data[off..off + size])
            && |e.value| <= |data|
  {
  }

  /** The entry count: the 16-bit number at `start`. */
  function IfdCount(data: seq<byte>, start: int, bigEndian: bool): nat
  {
    ReadUint16(data, start, bigEndian)
  }

  function Entries(data: seq<byte>, start: int, bigEndian: bool): (r: seq<IfdEntry>)
    ensures |r| == IfdCount(data, start, bigEndian)
  {
    seq(IfdCount(data, start, bigEndian), i => ReadEntry(data, start, bigEndian, i))
  }

  /** What `parseIFD` returns: the 32-bit number right after the last entry as written. */
  function NextIfd(data: seq<byte>, start: int, bigEndian: bool): int
  {
    ReadUint32(data, start + IfdCount(data, start, bigEndian) * 12, bigEndian)
  }

  /** A tag the lookup table knows, in a type its handler accepts. */
  predicate Known(tags: map<int, CatalogEntry>, e: IfdEntry)
  {
    e.tagId in tags && Accept(tags[e.tagId].cls.codec, e.tagType)
  }

  function ToParsed(tags: map<int, CatalogEntry>, e: IfdEntry): ParsedIfdData
    requires e.tagId in tags
  {
    ParsedIfdData(tags[e.tagId].name, tags[e.tagId].cls, e.tagType, e.count, e.value)
  }

  function ToRaw(e: IfdEntry): RawIfdData
  {
    RawIfdData(e.tagType, e.count, e.value)
  }

  /** One loop step of `parseIFD`: the entry overwrites its id in one of the two maps. */
  function AddEntry(ifd: Ifd, tags: map<int, CatalogEntry>, e: IfdEntry): Ifd
  {
    if Known(tags, e) then ifd.(parsed := ifd.parsed[e.tagId := ToParsed(tags, e)])
    else ifd.(raw := ifd.raw[e.tagId := ToRaw(e)])
  }

  /** The destination maps after the entries, in order. */
  function FillIfd(dest: Ifd, tags: map<int, CatalogEntry>, es: seq<IfdEntry>): Ifd
  {
    if es == [] then dest else AddEntry(FillIfd(dest, tags, es[..|es| - 1]), tags, es[|es| - 1])
  }

  /** The last entry with tag `id` that goes to the parsed map (`known`) or to the raw map, or -1. */
  function LastIndex(tags: map<int, CatalogEntry>, es: seq<IfdEntry>, id: int, known: bool): (k: int)
    ensures -1 <= k < |es|
    ensures k >= 0 ==> es[k].tagId == id && Known(tags, es[k]) == known
    ensures forall j :: k < j < |es| ==> !(es[j].tagId == id && Known(tags, es[j]) == known)
  {
    if es == [] then -1
    else
      var last := es[|es| - 1];
      if last.tagId == id && Known(tags, last) == known then |es| - 1
      else LastIndex(tags, es[..|es| - 1], id, known)
  }

  /** The parsed map holds, for each id, the last entry with that id that it accepts. */
  lemma {:induction false} FillIfdParsed(dest: Ifd, tags: map<int, CatalogEntry>, es: seq<IfdEntry>, id: int)
    ensures var r := FillIfd(dest, tags, es);
            var k := LastIndex(tags, es, id, true);
            if k >= 0 then id in r.parsed && r.parsed[id] == ToParsed(tags, es[k])
            else (id in r.parsed <==> id in dest.parsed) && (id in dest.parsed ==> r.parsed[id] == dest.parsed[id])
  {
    if es != [] {
      FillIfdParsed(dest, tags, es[..|es| - 1], id);
    }
  }

  /** The raw map holds, for each id, the last entry with that id that the parsed map did not take. */
  lemma {:induction false} FillIfdRaw(dest: Ifd, tags: map<int, CatalogEntry>, es: seq<IfdEntry>, id: int)
    ensures var r := FillIfd(dest, tags, es);
            var k := LastIndex(tags, es, id, false);
            if k >= 0 then id in r.raw && r.raw[id] == ToRaw(es[k])
            else (id in r.raw <==> id in dest.raw) && (id in dest.raw ==> r.raw[id] == dest.raw[id])
  {
    if es != [] {
      FillIfdRaw(dest, tags, es[..|es| - 1], id);
    }
  }

  /**
   * Starting from empty maps, every entry's id lands in at least one map, and no other id does.
   * An id lands in both maps only when it occurs twice, once accepted and once not: the source
   * never removes an id from the other map.
   */
  lemma IfdPlacement(tags: map<int, CatalogEntry>, es: seq<IfdEntry>, id: int)
    ensures var r := FillIfd(EMPTY_IFD, tags, es);
            (id in r.parsed || id in r.raw) <==> exists j :: 0 <= j < |es| && es[j].tagId == id
    ensures var r := FillIfd(EMPTY_IFD, tags, es);
            id in r.parsed && id in r.raw ==>
              exists j, k :: 0 <= j < |es| && 0 <= k < |es| && es[j].tagId == id && es[k].tagId == id && Known(tags, es[j]) && !Known(tags, es[k])
  {
    FillIfdParsed(EMPTY_IFD, tags, es, id);
    FillIfdRaw(EMPTY_IFD, tags, es, id);
    var kp, kr := LastIndex(tags, es, id, true), LastIndex(tags, es, id, false);
    if exists j :: 0 <= j < |es| && es[j].tagId == id {
      var j :| 0 <= j < |es| && es[j].tagId == id;
      assert kp >= j || kr >= j;
    }
  }

  /** Every parsed entry carries the catalog's name and handler class for its id, and a type that handler accepts. */
  lemma ParsedFromCatalog(tags: map<int, CatalogEntry>, es: seq<IfdEntry>)
    ensures var r := FillIfd(EMPTY_IFD, tags, es);
            forall id | id in r.parsed :: id in tags && r.parsed[id].name == tags[id].name
              && r.parsed[id].cls == tags[id].cls && Accept(r.parsed[id].cls.codec, r.parsed[id].tagType)
  {
    var r := FillIfd(EMPTY_IFD, tags, es);
    forall id | id in r.parsed
      ensures id in tags && r.parsed[id].name == tags[id].name
        && r.parsed[id].cls == tags[id].cls && Accept(r.parsed[id].cls.codec, r.parsed[id].tagType)
    {
      FillIfdParsed(EMPTY_IFD, tags, es, id);
    }
  }

  predicate Keys16(ifd: Ifd)
  {
    (forall id | id in ifd.parsed :: 0 <= id < TWO_16) && (forall id | id in ifd.raw :: 0 <= id < TWO_16)
  }

  /** Tag ids are 16-bit numbers, so a directory filled from empty maps only has keys below 65536. */
  lemma DirectoryKeys16(tags: map<int, CatalogEntry>, es: seq<IfdEntry>)
    requires forall j :: 0 <= j < |es| ==> 0 <= es[j].tagId < TWO_16
    ensures Keys16(FillIfd(EMPTY_IFD, tags, es))
  {
    var r := FillIfd(EMPTY_IFD, tags, es);
    forall id | id in r.parsed || id in r.raw
      ensures 0 <= id < TWO_16
    {
      IfdPlacement(tags, es, id);
    }
  }

  /** The value bytes of one entry, read as the loop of `parseIFD` reads them. */
  method ReadValueData(data: seq<byte>, at: int, bigEndian: bool, elementSize: int) returns (valueData: seq<byte>)
    ensures valueData == ValueData(data, at, bigEndian, elementSize)
  {
    if elementSize <= 4 {
      valueData := JsText.Slice(data, at, at + elementSize);
    } else {
      var valueOffset := ReadUint32(data, at, bigEndian);
      valueData := JsText.Slice(data, valueOffset, valueOffset + elementSize);
    }
  }

  /** The reads of one iteration of the `parseIFD` loop. */
  method ReadEntryAt(data: seq<byte>, start: int, bigEndian: bool, i: int) returns (e: IfdEntry)
    ensures e == ReadEntry(data, start, bigEndian, i)
  {
    var offset := i * 12;
    var tagId := ReadUint16(data, start + offset, bigEndian);
    var tagDType := ReadUint16(data, start + offset + 2, bigEndian);
    var valueCount := ReadUint32(data, start + offset + 4, bigEndian);
    var elementSize := ElementSize(tagDType) * valueCount;
    var valueData := ReadValueData(data, start + offset + 8, bigEndian, elementSize);
    e := IfdEntry(tagId, tagDType, valueCount, valueData);
    assert start + offset == start + i * 12;
  }

  lemma FillIfdStep(dest: Ifd, tags: map<int, CatalogEntry>, es: seq<IfdEntry>, i: nat)
    requires i < |es|
    ensures FillIfd(dest, tags, es[..i + 1]) == AddEntry(FillIfd(dest, tags, es[..i]), tags, es[i])
  {
    var s := es[..i + 1];
    assert s[..|s| - 1] == es[..i];
  }

  /** The loop of `parseIFD` over the `count` entries of the directory at `start`. */
  method FillEntries(data: seq<byte>, start: int, bigEndian: bool, tags: map<int, CatalogEntry>, dest: Ifd, count: int)
    returns (ifd: Ifd)
    requires count == IfdCount(data, start, bigEndian)
    ensures ifd == FillIfd(dest, tags, Entries(data, start, bigEndian))
  {
    ghost var es := Entries(data, start, bigEndian);
    ifd := dest;
    for i := 0 to count
      invariant ifd == FillIfd(dest, tags, es[..i])
    {
      var e := ReadEntryAt(data, start, bigEndian, i);
      ghost var before := ifd;
      var tagId := e.tagId;
      if tagId in tags {
        var tagInfo := tags[tagId];
        if Accept(tagInfo.cls.codec, e.tagType) {
          ifd := ifd.(parsed := ifd.parsed[tagId := ParsedIfdData(tagInfo.name, tagInfo.cls, e.tagType, e.count, e.value)]);
        } else {
          ifd := ifd.(raw := ifd.raw[tagId := RawIfdData(e.tagType, e.count, e.value)]);
        }
      } else {
        ifd := ifd.(raw := ifd.raw[tagId := RawIfdData(e.tagType, e.count, e.value)]);
      }
      assert ifd == AddEntry(before, tags, e);
      assert e == es[i];
      FillIfdStep(dest, tags, es, i);
    }
    assert es[..count] == es;
  }

  /**
   * `parseIFD(data, start, bigEndian, destParsed, destRaw, tagLookup)`. The destination objects
   * are filled in place in the source; here they come in as `dest` and go out as `ifd`.
   */
  method ParseIfd(data: seq<byte>, start: int, bigEndian: bool, tags: map<int, CatalogEntry>, dest: Ifd)
    returns (ifd: Ifd, next: int)
    ensures ifd == FillIfd(dest, tags, Entries(data, start, bigEndian))
    ensures next == NextIfd(data, start, bigEndian)
  {
    var ifdLength := ReadUint16(data, start, bigEndian);
    assert ifdLength == IfdCount(data, start, bigEndian);
    ifd := FillEntries(data, start, bigEndian, tags, dest, ifdLength);
    next := ReadUint32(data, start + ifdLength * 12, bigEndian);
  }

  // The chain walk

  /** The values a 32-bit read can return. */
  predicate IsInt32(x: int)
  {
    -TWO_31 <= x < TWO_31
  }

  function Int32s(): set<int>
  {
    set x: int | -TWO_31 <= x < TWO_31 && IsInt32(x)
  }

  /** Every offset the walk can visit: the first one and whatever a 32-bit read returns. */
  function Offsets(first: int): set<int>
  {
    Int32s() + {first}
  }

  /**
   * The `while (nextIFD != 0)` loop of `parseTIFF` from `next` on, having visited `visited`
   * and collected `ifds`. A directory is a function of its offset, so the source loops forever
   * exactly when an offset comes round again; the model reports that as `Diverges`.
   */
  function Walk(data: seq<byte>, tags: map<int, CatalogEntry>, bigEndian: bool, first: int, next: int, visited: set<int>, ifds: seq<Ifd>)
    : (r: Result<seq<Ifd>, ParseError>)
    requires next in Offsets(first) && visited <= Offsets(first)
    ensures r.Failure? ==> r.error == Diverges
    ensures r.Success? ==> |r.value| >= |ifds| && r.value[..|ifds|] == ifds
    decreases Offsets(first) - visited
  {
    if next == 0 then Success(ifds)
    else if next in visited then Failure(Diverges)
    else
      assert Offsets(first) - (visited + {next}) < Offsets(first) - visited;
      var ifd := FillIfd(EMPTY_IFD, tags, Entries(data, next, bigEndian));
      var r := Walk(data, tags, bigEndian, first, NextIfd(data, next, bigEndian), visited + {next}, ifds + [ifd]);
      if r.Success? then
        assert r.value[..|ifds|] == (ifds + [ifd])[..|ifds|];
        r
      else r
  }

  /** A directory whose next pointer is its own offset makes the source loop forever. */
  lemma SelfLinkDiverges(data: seq<byte>, tags: map<int, CatalogEntry>, bigEndian: bool, first: int)
    requires first != 0 && NextIfd(data, first, bigEndian) == first
    ensures Walk(data, tags, bigEndian, first, first, {}, []) == Failure(Diverges)
  {
    var ifd := FillIfd(EMPTY_IFD, tags, Entries(data, first, bigEndian));
    assert Walk(data, tags, bigEndian, first, first, {} + {first}, [] + [ifd]) == Failure(Diverges);
  }

  /** A successful walk from a non-zero offset starts with the directory at that offset. */
  lemma WalkFirst(data: seq<byte>, tags: map<int, CatalogEntry>, bigEndian: bool, first: int)
    requires first != 0
    ensures var r := Walk(data, tags, bigEndian, first, first, {}, []);
            r.Success? ==> |r.value| >= 1 && r.value[0] == FillIfd(EMPTY_IFD, tags, Entries(data, first, bigEndian))
  {
    var ifd := FillIfd(EMPTY_IFD, tags, Entries(data, first, bigEndian));
    var r := Walk(data, tags, bigEndian, first, NextIfd(data, first, bigEndian), {} + {first}, [] + [ifd]);
    assert Walk(data, tags, bigEndian, first, first, {}, []) == r;
    if r.Success? {
      assert r.value[..1] == [ifd];
      assert r.value[0] == r.value[..1][0];
    }
  }

  predicate AllKeys16(ifds: seq<Ifd>)
  {
    forall i :: 0 <= i < |ifds| ==> Keys16(ifds[i])
  }

  /** Every directory the walk collects has 16-bit keys. */
  lemma {:induction false} WalkKeys16(data: seq<byte>, tags: map<int, CatalogEntry>, bigEndian: bool, first: int, next: int, visited: set<int>, ifds: seq<Ifd>)
    requires next in Offsets(first) && visited <= Offsets(first)
    requires AllKeys16(ifds)
    ensures var r := Walk(data, tags, bigEndian, first, next, visited, ifds);
            r.Success? ==> AllKeys16(r.value)
    decreases Offsets(first) - visited
  {
    if next != 0 && next !in visited {
      assert Offsets(first) - (visited + {next}) < Offsets(first) - visited;
      var es := Entries(data, next, bigEndian);
      DirectoryKeys16(tags, es);
      var ifd := FillIfd(EMPTY_IFD, tags, es);
      WalkKeys16(data, tags, bigEndian, first, NextIfd(data, next, bigEndian), visited + {next}, ifds + [ifd]);
    }
  }

  /** The `i`-th offset of a chain that starts at `first` and goes on by `step`. */
  function Follow(step: int -> int, first: int, i: nat): int
  {
    if i == 0 then first else step(Follow(step, first, i - 1))
  }

  /** The offsets of the first `k` links of that chain. */
  function FollowSet(step: int -> int, first: int, k: nat): set<int>
  {
    if k == 0 then {} else FollowSet(step, first, k - 1) + {Follow(step, first, k - 1)}
  }

  /** The step of the directory chain: the next-directory pointer stored after a directory's entries. */
  function NextOf(data: seq<byte>, bigEndian: bool): int -> int
  {
    o => NextIfd(data, o, bigEndian)
  }

  /** An offset in the set is one of the first `k` offsets of the chain. */
  lemma {:induction false} FollowSetWitness(step: int -> int, first: int, k: nat, x: int) returns (j: nat)
    requires x in FollowSet(step, first, k)
    ensures j < k && Follow(step, first, j) == x
  {
    if x == Follow(step, first, k - 1) {
      j := k - 1;
    } else {
      j := FollowSetWitness(step, first, k - 1, x);
    }
  }

  /** None of the first `j + 1` offsets of the chain is 0. */
  predicate NonZeroThrough(step: int -> int, first: int, j: nat)
  {
    Follow(step, first, j) != 0 && (j == 0 || NonZeroThrough(step, first, j - 1))
  }

  lemma {:induction false} NonZeroAt(step: int -> int, first: int, j: nat, m: nat)
    requires NonZeroThrough(step, first, j) && m <= j
    ensures Follow(step, first, m) != 0
  {
    if m < j {
      NonZeroAt(step, first, j - 1, m);
    }
  }

  /** Two offsets of the chain are equal before any of them is 0. */
  ghost predicate Repeats(step: int -> int, first: int)
  {
    exists i: nat, j: nat :: i < j && Follow(step, first, i) == Follow(step, first, j) && NonZeroThrough(step, first, j)
  }

  /** Equal offsets stay equal along the chain: the next one depends on the offset alone. */
  lemma {:induction false} FollowShift(step: int -> int, first: int, i: nat, j: nat, t: nat)
    requires Follow(step, first, i) == Follow(step, first, j)
    ensures Follow(step, first, i + t) == Follow(step, first, j + t)
  {
    if t > 0 {
      FollowShift(step, first, i, j, t - 1);
    }
  }

  /** Once an offset comes round again before a 0, no later offset is 0. */
  lemma {:induction false} RepeatNeverZero(step: int -> int, first: int, i: nat, j: nat, m: nat)
    requires i < j && Follow(step, first, i) == Follow(step, first, j)
    requires NonZeroThrough(step, first, j)
    ensures Follow(step, first, m) != 0
    decreases m
  {
    if m <= j {
      NonZeroAt(step, first, j, m);
    } else {
      FollowShift(step, first, i, j, m - j);
      assert j + (m - j) == m && i + (m - j) == m - (j - i);
      RepeatNeverZero(step, first, i, j, m - (j - i));
    }
  }

  /** The directory `parseIFD` fills at an offset. */
  function DirectoryAt(data: seq<byte>, tags: map<int, CatalogEntry>, bigEndian: bool, offset: int): Ifd
  {
    FillIfd(EMPTY_IFD, tags, Entries(data, offset, bigEndian))
  }

  /** `DirectoryAt` as a function of the offset alone. */
  function DirOf(data: seq<byte>, tags: map<int, CatalogEntry>, bigEndian: bool): int -> Ifd
  {
    o => DirectoryAt(data, tags, bigEndian, o)
  }

  /** The directories are those at the first offsets of the chain, none of which is 0. */
  predicate ChainPrefix(step: int -> int, dir: int -> Ifd, first: int, ifds: seq<Ifd>)
    decreases |ifds|
  {
    ifds == []
    || (var k := |ifds| - 1;
        ChainPrefix(step, dir, first, ifds[..k]) && Follow(step, first, k) != 0 && ifds[k] == dir(Follow(step, first, k)))
  }

  /** The `i`-th directory of a chain prefix is the one at the `i`-th offset, which is not 0. */
  lemma {:induction false} ChainPrefixAt(step: int -> int, dir: int -> Ifd, first: int, ifds: seq<Ifd>, i: nat)
    requires ChainPrefix(step, dir, first, ifds) && i < |ifds|
    ensures Follow(step, first, i) != 0 && ifds[i] == dir(Follow(step, first, i))
    decreases |ifds|
  {
    var k := |ifds| - 1;
    if i < k {
      ChainPrefixAt(step, dir, first, ifds[..k], i);
    }
  }

  /** The offsets of a chain prefix are all non-zero. */
  lemma {:induction false} ChainPrefixNonZero(step: int -> int, dir: int -> Ifd, first: int, ifds: seq<Ifd>)
    requires ChainPrefix(step, dir, first, ifds) && ifds != []
    ensures NonZeroThrough(step, first, |ifds| - 1)
    decreases |ifds|
  {
    var k := |ifds| - 1;
    if k > 0 {
      ChainPrefixNonZero(step, dir, first, ifds[..k]);
    }
  }

  /** Visiting the k-th offset adds it to the visited set and its directory to the prefix. */
  lemma ChainPrefixStep(step: int -> int, dir: int -> Ifd, first: int, visited: set<int>, ifds: seq<Ifd>)
    requires visited == FollowSet(step, first, |ifds|)
    requires ChainPrefix(step, dir, first, ifds) && Follow(step, first, |ifds|) != 0
    ensures var next := Follow(step, first, |ifds|);
      && visited + {next} == FollowSet(step, first, |ifds| + 1)
      && ChainPrefix(step, dir, first, ifds + [dir(next)])
  {
    var k := |ifds|;
    assert (ifds + [dir(Follow(step, first, k))])[..k] == ifds;
  }

  /** Meeting the k-th offset among the first k, none of them 0, is a repeat. */
  lemma ChainRevisit(step: int -> int, dir: int -> Ifd, first: int, ifds: seq<Ifd>)
    requires ChainPrefix(step, dir, first, ifds)
    requires Follow(step, first, |ifds|) != 0 && Follow(step, first, |ifds|) in FollowSet(step, first, |ifds|)
    ensures Repeats(step, first)
  {
    var k := |ifds|;
    assert k > 0;
    ChainPrefixNonZero(step, dir, first, ifds);
    var i := FollowSetWitness(step, first, k, Follow(step, first, k));
    assert NonZeroThrough(step, first, k);
  }

  /** One turn of the walk at a new, non-zero offset: collect its directory and go on to the next. */
  lemma WalkStep(data: seq<byte>, tags: map<int, CatalogEntry>, bigEndian: bool, first: int, next: int, visited: set<int>, ifds: seq<Ifd>)
    requires next in Offsets(first) && visited <= Offsets(first)
    requires next != 0 && next !in visited
    ensures NextOf(data, bigEndian)(next) in Offsets(first) && visited + {next} <= Offsets(first)
    ensures Offsets(first) - (visited + {next}) < Offsets(first) - visited
    ensures Walk(data, tags, bigEndian, first, next, visited, ifds)
            == Walk(data, tags, bigEndian, first, NextOf(data, bigEndian)(next), visited + {next}, ifds + [DirOf(data, tags, bigEndian)(next)])
  {
  }

  /** The walk from the k-th chain offset, having visited the first k and collected their directories. */
  lemma {:induction false} WalkChain(data: seq<byte>, tags: map<int, CatalogEntry>, bigEndian: bool, first: int, visited: set<int>, ifds: seq<Ifd>)
    requires Follow(NextOf(data, bigEndian), first, |ifds|) in Offsets(first) && visited <= Offsets(first)
    requires visited == FollowSet(NextOf(data, bigEndian), first, |ifds|)
    requires ChainPrefix(NextOf(data, bigEndian), DirOf(data, tags, bigEndian), first, ifds)
    ensures var step, dir := NextOf(data, bigEndian), DirOf(data, tags, bigEndian);
      var r := Walk(data, tags, bigEndian, first, Follow(step, first, |ifds|), visited, ifds);
      && (r.Success? ==> ChainPrefix(step, dir, first, r.value) && Follow(step, first, |r.value|) == 0)
      && (r.Failure? ==> Repeats(step, first))
    decreases Offsets(first) - visited
  {
    var step, dir, k := NextOf(data, bigEndian), DirOf(data, tags, bigEndian), |ifds|;
    var next := Follow(step, first, k);
    if next == 0 {
    } else if next in visited {
      ChainRevisit(step, dir, first, ifds);
    } else {
      ChainPrefixStep(step, dir, first, visited, ifds);
      WalkStep(data, tags, bigEndian, first, next, visited, ifds);
      assert Follow(step, first, k + 1) == step(next);
      WalkChain(data, tags, bigEndian, first, visited + {next}, ifds + [dir(next)]);
    }
  }

  /**
   * The chain walk of `parseTIFF`: on success it holds one directory per chain offset, up to
   * the first offset that is 0; it fails exactly when an offset comes round again before a 0.
   */
  lemma WalkFollowsChain(data: seq<byte>, tags: map<int, CatalogEntry>, bigEndian: bool, first: int)
    ensures var step := NextOf(data, bigEndian);
      var r := Walk(data, tags, bigEndian, first, first, {}, []);
      && (r.Success? ==>
            && (forall i :: 0 <= i < |r.value| ==> r.value[i] == DirectoryAt(data, tags, bigEndian, Follow(step, first, i)))
            && (forall i :: 0 <= i < |r.value| ==> Follow(step, first, i) != 0)
            && Follow(step, first, |r.value|) == 0)
      && (r.Failure? <==> Repeats(step, first))
  {
    var step, dir := NextOf(data, bigEndian), DirOf(data, tags, bigEndian);
    WalkChain(data, tags, bigEndian, first, {}, []);
    var r := Walk(data, tags, bigEndian, first, first, {}, []);
    if r.Success? {
      forall i | 0 <= i < |r.value|
        ensures r.value[i] == DirectoryAt(data, tags, bigEndian, Follow(step, first, i)) && Follow(step, first, i) != 0
      {
        ChainPrefixAt(step, dir, first, r.value, i);
      }
    }
    if r.Success? && Repeats(step, first) {
      var i: nat, j: nat :| i < j && Follow(step, first, i) == Follow(step, first, j) && NonZeroThrough(step, first, j);
      RepeatNeverZero(step, first, i, j, |r.value|);
    }
  }

  // The header

  /** The decoded header and the chain of directories: what `parseTIFF` leaves behind. */
  datatype Tiff = Tiff(bigEndian: bool, ifds: seq<Ifd>)

  predicate IsMotorola(data: seq<byte>, offset: int)
  {
    0 <= offset && offset + 1 < |data| && data[offset] == 77 && data[offset + 1] == 77
  }

  predicate IsIntel(data: seq<byte>, offset: int)
  {
    0 <= offset && offset + 1 < |data| && data[offset] == 73 && data[offset + 1] == 73
  }

  /** "MM" or "II", followed by 42 in that byte order. */
  predicate ValidHeader(data: seq<byte>, offset: int)
  {
    (IsMotorola(data, offset) || IsIntel(data, offset)) && ReadUint16(data, offset + 2, IsMotorola(data, offset)) == 42
  }

  /** `parseTIFF(data, offset, destParsed, destRaw)`. */
  function TiffSpec(data: seq<byte>, offset: int, tags: map<int, CatalogEntry>): (r: Result<Tiff, ParseError>)
  {
    var bigEndian := IsMotorola(data, offset);
    if !bigEndian && !IsIntel(data, offset) then Failure(Thrown(INVALID_TIFF))
    else if ReadUint16(data, offset + 2, bigEndian) != 42 then Failure(Thrown(INVALID_TIFF))
    else
      var ifds :- Walk(data, tags, bigEndian, offset + 4, offset + 4, {}, []);
      Success(Tiff(bigEndian, ifds))
  }

  /**
   * The header check: a bad header fails with the source's message, and nothing else does; a
   * good one fixes the byte order by its first two bytes, and the first directory is the one
   * at `offset + 4`, where the header's offset field is.
   */
  lemma TiffHeader(data: seq<byte>, offset: int, tags: map<int, CatalogEntry>)
    ensures TiffSpec(data, offset, tags) == Failure(Thrown(INVALID_TIFF)) <==> !ValidHeader(data, offset)
    ensures var r := TiffSpec(data, offset, tags);
            r.Success? ==> r.value.bigEndian == IsMotorola(data, offset) && ValidHeader(data, offset)
    ensures var r := TiffSpec(data, offset, tags);
            r.Success? && offset + 4 != 0 ==>
              |r.value.ifds| >= 1 && r.value.ifds[0] == FillIfd(EMPTY_IFD, tags, Entries(data, offset + 4, IsMotorola(data, offset)))
  {
    var bigEndian := IsMotorola(data, offset);
    if ValidHeader(data, offset) {
      var w := Walk(data, tags, bigEndian, offset + 4, offset + 4, {}, []);
      assert TiffSpec(data, offset, tags) == if w.Failure? then Failure(w.error) else Success(Tiff(bigEndian, w.value));
      if offset + 4 != 0 {
        WalkFirst(data, tags, bigEndian, offset + 4);
      }
    }
  }

  /** Every directory of a decoded TIFF has 16-bit keys. */
  lemma TiffKeys16(data: seq<byte>, offset: int, tags: map<int, CatalogEntry>)
    ensures var r := TiffSpec(data, offset, tags);
            r.Success? ==> AllKeys16(r.value.ifds)
  {
    var bigEndian := IsMotorola(data, offset);
    if ValidHeader(data, offset) {
      var w := Walk(data, tags, bigEndian, offset + 4, offset + 4, {}, []);
      assert TiffSpec(data, offset, tags) == if w.Failure? then Failure(w.error) else Success(Tiff(bigEndian, w.value));
      WalkKeys16(data, tags, bigEndian, offset + 4, offset + 4, {}, []);
    }
  }

  /** `parseTIFF`: the header check, then the directory chain. */
  method ParseTiff(data: seq<byte>, offset: int, tags: map<int, CatalogEntry>) returns (r: Result<Tiff, ParseError>)
    ensures r == TiffSpec(data, offset, tags)
  {
    var bigEndian := false;
    if IsMotorola(data, offset) {
      bigEndian := true;
    } else if !IsIntel(data, offset) {
      return Failure(Thrown(INVALID_TIFF));
    }
    var number42 := ReadUint16(data, offset + 2, bigEndian);
    if number42 != 42 {
      return Failure(Thrown(INVALID_TIFF));
    }
    var nextIfd := offset + 4;
    var visited: set<int> := {};
    var ifds: seq<Ifd> := [];
    while nextIfd != 0
      invariant nextIfd in Offsets(offset + 4) && visited <= Offsets(offset + 4)
      invariant Walk(data, tags, bigEndian, offset + 4, nextIfd, visited, ifds) == Walk(data, tags, bigEndian, offset + 4, offset + 4, {}, [])
      decreases Offsets(offset + 4) - visited
    {
      if nextIfd in visited {
        return Failure(Diverges);
      }
      var ifd, next := ParseIfd(data, nextIfd, bigEndian, tags, EMPTY_IFD);
      visited := visited + {nextIfd};
      ifds := ifds + [ifd];
      nextIfd := next;
    }
    r := Success(Tiff(bigEndian, ifds));
  }
}
