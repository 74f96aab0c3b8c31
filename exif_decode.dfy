/** The EXIF reader as functions of the buffer: the JPEG header check, the
    scan of the APPn segments for the Exif APP1 segment, the TIFF byte-order
    mark, and the walk of the 0th, Exif, GPS and Interoperability IFDs (TIFF
    6.0 section 2, "Image File Directory"; Exif 2.2 section 4.6). The class
    in module ExifReading is proved to compute exactly these. */
module ExifDecode {
  import opened Wrappers
  import opened ExifTypes
  import opened ByteView
  import opened TagValues
  import opened TagNames

  const MIN_DATA_BUFFER_LENGTH: int := 2
  const JPEG_ID_SIZE: int := 2
  const JPEG_ID: int := 0xffd8
  const APP_MARKER_SIZE: int := 2
  const APP0_MARKER: int := 0xffe0
  const APP1_MARKER: int := 0xffe1
  const APP15_MARKER: int := 0xffef
  const APP_ID_OFFSET: int := 4
  const BYTES_EXIF: int := 0x45786966
  const TIFF_HEADER_OFFSET: int := 10
  /** "II". The source names it after big-endian, yet it selects
      little-endian reads, as TIFF 6.0 prescribes for "II". */
  const BYTE_ORDER_BIG_ENDIAN: int := 0x4949
  /** "MM"; it selects big-endian reads. */
  const BYTE_ORDER_LITTLE_ENDIAN: int := 0x4d4d

  const EXIF_POINTER: string := "Exif IFD Pointer"
  const GPS_POINTER: string := "GPS Info IFD Pointer"
  const INTEROPERABILITY_POINTER: string := "Interoperability IFD Pointer"

  /** The tag map the reader builds: name to value and description. */
  type Tags = map<string, Tagged>

  /** The walk fails only with these: a read past the buffer, a type with
      no reader, or a pointer tag that is not one integer. */
  predicate WalkError(e: Error) {
    e.OutOfRange? || e.UnsupportedType? || e.PointerNotInteger?
  }

  /** The first check of `_checkImageHeader`: the buffer starts with the
      JPEG start-of-image marker FF D8. */
  function HasJpegId(d: seq<Byte>): (b: bool)
    ensures b <==> |d| >= 2 && d[0] == 0xff && d[1] == 0xd8
  {
    |d| >= MIN_DATA_BUFFER_LENGTH && Word16(d, 0, false) == JPEG_ID
  }

  /** The scan's guard: the marker, the length field, "Exif" and its NUL
      byte at `pos` all lie inside the buffer. */
  predicate SegmentFits(d: seq<Byte>, pos: int) {
    0 <= pos && pos + APP_ID_OFFSET + 5 <= |d|
  }

  /** `_isApp1ExifMarker`: an APP1 marker followed, after its length field,
      by "Exif" and a NUL byte. */
  function IsApp1ExifMarker(d: seq<Byte>, pos: int): (b: bool)
    requires SegmentFits(d, pos)
    ensures b <==>
      && d[pos] == 0xff && d[pos + 1] == 0xe1
      && d[pos + 4] == 'E' as int && d[pos + 5] == 'x' as int && d[pos + 6] == 'i' as int && d[pos + 7] == 'f' as int
      && d[pos + 8] == 0
  {
    && Word16(d, pos, false) == APP1_MARKER
    && Word32(d, pos + APP_ID_OFFSET, false) == BYTES_EXIF
    && d[pos + APP_ID_OFFSET + 4] == 0
  }

  /** `_isAppMarker`: any of APP0 to APP15. */
  function IsAppMarker(d: seq<Byte>, pos: int): (b: bool)
    requires SegmentFits(d, pos)
    ensures b <==> d[pos] == 0xff && 0xe0 <= d[pos + 1] <= 0xef
  {
    APP0_MARKER <= Word16(d, pos, false) <= APP15_MARKER
  }

  /** Where the segment after the one at `pos` starts. */
  function NextMarker(d: seq<Byte>, pos: int): (next: int)
    requires SegmentFits(d, pos)
    ensures next >= pos + APP_MARKER_SIZE
  {
    pos + APP_MARKER_SIZE + Word16(d, pos + APP_MARKER_SIZE, false)
  }

  predicate ExifSegmentAt(d: seq<Byte>, pos: int) {
    SegmentFits(d, pos) && IsApp1ExifMarker(d, pos)
  }

  /** `_parseAppMarkers` from `pos`, with `found` the TIFF header offset so
      far: each Exif APP1 segment sets it to its own position plus 10. */
  function ScanAppMarkers(d: seq<Byte>, pos: int, found: int): (r: int)
    ensures r != found ==> r - TIFF_HEADER_OFFSET >= pos && ExifSegmentAt(d, r - TIFF_HEADER_OFFSET)
    decreases |d| - pos
  {
    if !SegmentFits(d, pos) then found
    else if IsApp1ExifMarker(d, pos) then ScanAppMarkers(d, NextMarker(d, pos), pos + TIFF_HEADER_OFFSET)
    else if IsAppMarker(d, pos) then ScanAppMarkers(d, NextMarker(d, pos), found)
    else found
  }

  /** The positions of the segments the scan walks through from `pos`. */
  function Segments(d: seq<Byte>, pos: int): (segs: seq<int>)
    ensures forall i :: 0 <= i < |segs| ==> SegmentFits(d, segs[i]) && IsAppMarker(d, segs[i])
    decreases |d| - pos
  {
    if !SegmentFits(d, pos) || !IsAppMarker(d, pos) then []
    else [pos] + Segments(d, NextMarker(d, pos))
  }

  /** `_setByteOrder`: the mark is read big-endian; the result is the
      `_littleEndian` flag. */
  function ByteOrder(d: seq<Byte>, tiff: int): (r: Result<bool, Error>)
    ensures r.Err? ==> r.error == OutOfRange || r.error == IllegalByteOrder
  {
    var mark :- Uint16(d, tiff, false);
    if mark == BYTE_ORDER_BIG_ENDIAN then Ok(true)
    else if mark == BYTE_ORDER_LITTLE_ENDIAN then Ok(false)
    else Err(IllegalByteOrder)
  }

  /** Where `_readTag` reads the value of the entry at `entry`: inline at
      `entry + 8` when it fits in four bytes, else at the TIFF header plus
      the 32-bit offset stored there. */
  function ValueOffset(d: seq<Byte>, le: bool, tiff: int, entry: int, t: int, count: nat): (r: Result<int, Error>)
    ensures r.Err? ==> r.error == OutOfRange
  {
    if Fits(t, count) then Ok(entry + 8)
    else
      var p :- Uint32(d, entry + 8, le);
      Ok(tiff + p)
  }

  /** The value of an entry of type `t` and `count` elements, read inline
      or through its offset. */
  function EntryValue(d: seq<Byte>, le: bool, tiff: int, entry: int, t: int, count: nat): (r: Result<Value, Error>)
    ensures r.Err? ==> r.error == OutOfRange || r.error == UnsupportedType(t)
  {
    var at :- ValueOffset(d, le, tiff, entry, t, count);
    TagValue(d, le, at, t, count)
  }

  /** `_readTag(kind, entry)`. */
  function ReadTag(d: seq<Byte>, le: bool, tiff: int, kind: IfdKind, entry: int): (r: Result<Tag, Error>)
    ensures r.Err? ==> WalkError(r.error)
  {
    var code :- Uint16(d, entry, le);
    var t :- Uint16(d, entry + 2, le);
    var count :- Uint32(d, entry + 4, le);
    var raw :- EntryValue(d, le, tiff, entry, t, count);
    Ok(NameTag(kind, code, if t == ASCII then SplitAscii(raw) else raw))
  }

  /** What the loop of `_readIfd` reads each entry with: the tag of the
      entry at an offset, or the error reading it throws. */
  type TagReader = int -> Result<Tag, Error>

  /** `_readTag` for the IFDs of one kind. */
  function EntryReader(d: seq<Byte>, le: bool, tiff: int, kind: IfdKind): TagReader {
    entry => ReadTag(d, le, tiff, kind, entry)
  }

  /** The loop of `_readIfd`: `n` entries 12 bytes apart from `entry`, each
      read by `reader` and stored under its name over whatever the map
      held. */
  function ReadEntries(reader: TagReader, entry: int, n: nat, tags: Tags): (r: Result<Tags, Error>)
    ensures r.Ok? ==> tags.Keys <= r.value.Keys
    decreases n
  {
    if n == 0 then Ok(tags)
    else
      var tag :- reader(entry);
      ReadEntries(reader, entry + 12, n - 1, tags[tag.name := Tagged(tag.value, tag.description)])
  }

  /** One turn of the loop of `_readIfd` on an entry that reads. */
  lemma ReadEntriesStep(reader: TagReader, entry: int, n: nat, tags: Tags, tag: Tag)
    requires n > 0 && reader(entry) == Ok(tag)
    ensures ReadEntries(reader, entry, n, tags)
      == ReadEntries(reader, entry + 12, n - 1, tags[tag.name := Tagged(tag.value, tag.description)])
  {
  }

  /** An entry that does not read ends the loop of `_readIfd` with its error. */
  lemma ReadEntriesStop(reader: TagReader, entry: int, n: nat, tags: Tags)
    requires n > 0 && reader(entry).Err?
    ensures ReadEntries(reader, entry, n, tags) == Err(reader(entry).error)
  {
  }

  /** The loop of `_readIfd` fails only with an error its reader gave. */
  lemma {:induction false} ReadEntriesFailure(reader: TagReader, entry: int, n: nat, tags: Tags)
    ensures ReadEntries(reader, entry, n, tags).Err? ==>
      exists at :: reader(at) == Err(ReadEntries(reader, entry, n, tags).error)
    decreases n
  {
    if n > 0 {
      var tag := reader(entry);
      if tag.Ok? {
        var t := tag.value;
        var next := tags[t.name := Tagged(t.value, t.description)];
        ReadEntriesStep(reader, entry, n, tags, t);
        ReadEntriesFailure(reader, entry + 12, n - 1, next);
      } else {
        ReadEntriesStop(reader, entry, n, tags);
      }
    }
  }

  /** `_readIfd(kind, offset)`: a 16-bit entry count, then the entries. */
  function ReadIfd(d: seq<Byte>, le: bool, tiff: int, kind: IfdKind, offset: int, tags: Tags): (r: Result<Tags, Error>)
    ensures r.Err? ==> WalkError(r.error)
  {
    var n :- Uint16(d, offset, le);
    ReadEntriesFailure(EntryReader(d, le, tiff, kind), offset + 2, n, tags);
    ReadEntries(EntryReader(d, le, tiff, kind), offset + 2, n, tags)
  }

  /** `_readExifIfd`, `_readGpsIfd`, `_readInteroperabilityIfd`: read the
      IFD of `kind` at the TIFF header plus the pointer tag's value, when
      the map holds that tag. */
  function FollowPointer(d: seq<Byte>, le: bool, tiff: int, kind: IfdKind, pointer: string, tags: Tags): (r: Result<Tags, Error>)
    ensures r.Err? ==> WalkError(r.error)
  {
    if pointer !in tags then Ok(tags)
    else
      match tags[pointer].value
      case Single(Int(p)) => ReadIfd(d, le, tiff, kind, tiff + p, tags)
      case _ => Err(PointerNotInteger)
  }

  /** `_readTags`: byte order, then the 0th IFD at the TIFF header plus the
      32-bit offset after the mark, then the Exif, GPS and Interoperability
      IFDs in that order, all stored over `tags`. */
  function ReadTags(d: seq<Byte>, tiff: int, tags: Tags): (r: Result<Tags, Error>)
    ensures r.Err? ==> r.error == IllegalByteOrder || WalkError(r.error)
  {
    var le :- ByteOrder(d, tiff);
    var first :- Uint32(d, tiff + 4, le);
    var zeroth :- ReadIfd(d, le, tiff, Zeroth, tiff + first, tags);
    FollowPointers(d, le, tiff, zeroth)
  }

  /** `_readTags` with a byte order and a 0th IFD offset read: the 0th
      IFD's error, or the pointed-to IFDs over the 0th IFD's tags. */
  lemma ReadTagsStep(d: seq<Byte>, tiff: int, tags: Tags, le: bool, first: int)
    requires ByteOrder(d, tiff) == Ok(le) && Uint32(d, tiff + 4, le) == Ok(first)
    ensures ReadIfd(d, le, tiff, Zeroth, tiff + first, tags).Err? ==>
      ReadTags(d, tiff, tags) == Err(ReadIfd(d, le, tiff, Zeroth, tiff + first, tags).error)
    ensures ReadIfd(d, le, tiff, Zeroth, tiff + first, tags).Ok? ==>
      ReadTags(d, tiff, tags) == FollowPointers(d, le, tiff, ReadIfd(d, le, tiff, Zeroth, tiff + first, tags).value)
  {
  }

  /** `_readTags` stops at a byte order or 0th IFD offset it cannot read. */
  lemma ReadTagsStop(d: seq<Byte>, tiff: int, tags: Tags)
    ensures ByteOrder(d, tiff).Err? ==> ReadTags(d, tiff, tags) == Err(ByteOrder(d, tiff).error)
    ensures ByteOrder(d, tiff).Ok? && Uint32(d, tiff + 4, ByteOrder(d, tiff).value).Err? ==>
      ReadTags(d, tiff, tags) == Err(Uint32(d, tiff + 4, ByteOrder(d, tiff).value).error)
  {
  }

  /** The Exif, GPS and Interoperability IFDs, in that order. */
  function FollowPointers(d: seq<Byte>, le: bool, tiff: int, tags: Tags): (r: Result<Tags, Error>)
    ensures r.Err? ==> WalkError(r.error)
  {
    var exif :- FollowPointer(d, le, tiff, ExifIfd, EXIF_POINTER, tags);
    var gps :- FollowPointer(d, le, tiff, Gps, GPS_POINTER, exif);
    FollowPointer(d, le, tiff, Interoperability, INTEROPERABILITY_POINTER, gps)
  }

  /** `load` on a reader whose `_tiffHeaderOffset` is `prior`: the source
      zeroes that field only in the constructor, so a reused reader starts
      the scan from the offset the previous buffer left. */
  function LoadTags(d: seq<Byte>, prior: int): (r: Result<Tags, Error>)
    ensures r == Err(InvalidImageFormat) <==> !HasJpegId(d)
    ensures r == Err(NoExifData) <==> HasJpegId(d) && ScanAppMarkers(d, JPEG_ID_SIZE, prior) == 0
    ensures HasJpegId(d) && ScanAppMarkers(d, JPEG_ID_SIZE, prior) != 0 ==>
      r == ReadTags(d, ScanAppMarkers(d, JPEG_ID_SIZE, prior), map[])
  {
    if !HasJpegId(d) then Err(InvalidImageFormat)
    else
      var tiff := ScanAppMarkers(d, JPEG_ID_SIZE, prior);
      if tiff == 0 then Err(NoExifData)
      else ReadTags(d, tiff, map[])
  }

  /** Decoding a buffer with a fresh reader, as `component-exif` does. A
      buffer that decodes is a JPEG holding an Exif APP1 segment, ten bytes
      before the TIFF header the tags were read from. */
  function Decode(d: seq<Byte>): (r: Result<Tags, Error>)
    ensures r.Ok? ==> HasJpegId(d) && ExifSegmentAt(d, ScanAppMarkers(d, JPEG_ID_SIZE, 0) - TIFF_HEADER_OFFSET)
  {
    LoadTags(d, 0)
  }
}
