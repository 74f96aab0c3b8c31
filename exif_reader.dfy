/** The `ExifReader` object: it keeps the buffer, the tag map, the TIFF
    header offset and the byte order as fields and fills them in step by
    step. Each method is proved to leave exactly the state the functions
    of ExifDecode describe. */
module ExifReading {
  import opened Wrappers
  import opened ExifTypes
  import opened ByteView
  import opened Text
  import opened TagValues
  import opened TagNames
  import opened ExifDecode
  import opened IfdFacts

  /** `err` and `tags` are what a step that computes `r` leaves: no error
      and the map `r` holds, or the error `r` reports. */
  predicate Settled(r: Result<Tags, Error>, err: Option<Error>, tags: Tags) {
    match r
    case Ok(m) => err == None && tags == m
    case Err(e) => err == Some(e)
  }

  /** `acc` followed by what `r` reads, or the failure of `r`. */
  function Prepend(acc: seq<Scalar>, r: Result<seq<Scalar>, Error>): Result<seq<Scalar>, Error> {
    match r
    case Ok(xs) => Ok(acc + xs)
    case Err(e) => Err(e)
  }

  class ExifReader {
    var dataView: seq<Byte>
    var tags: Tags
    var tiffHeaderOffset: int
    var littleEndian: bool

    constructor ()
      ensures tiffHeaderOffset == 0 && dataView == [] && tags == map[]
    {
      tiffHeaderOffset := 0;
      dataView := [];
      tags := map[];
      littleEndian := false;
    }

    /** `load` and `loadView`: a new buffer and an empty map, the header
        checks, then the IFD walk. The TIFF header offset is not reset, so
        the outcome depends on the offset the reader held before. */
    method LoadView(d: seq<Byte>) returns (err: Option<Error>)
      modifies this
      ensures dataView == d
      ensures Settled(LoadTags(d, old(tiffHeaderOffset)), err, tags)
      ensures tiffHeaderOffset ==
        if HasJpegId(d) then ScanAppMarkers(d, JPEG_ID_SIZE, old(tiffHeaderOffset)) else old(tiffHeaderOffset)
      ensures err == Some(InvalidImageFormat) || err == Some(NoExifData) || err == Some(IllegalByteOrder) ==> tags == map[]
      ensures littleEndian ==
        if HasJpegId(d) && tiffHeaderOffset != 0 && ByteOrder(d, tiffHeaderOffset).Ok?
        then ByteOrder(d, tiffHeaderOffset).value else old(littleEndian)
    {
      dataView := d;
      tags := map[];
      err := CheckImageHeader();
      if err.Some? {
        return;
      }
      err := ReadTags();
    }

    /** `_checkImageHeader`: the SOI marker, then the scan, then whether
        the scan left a TIFF header offset. */
    method CheckImageHeader() returns (err: Option<Error>)
      modifies this
      ensures dataView == old(dataView) && tags == old(tags) && littleEndian == old(littleEndian)
      ensures tiffHeaderOffset ==
        if HasJpegId(dataView) then ScanAppMarkers(dataView, JPEG_ID_SIZE, old(tiffHeaderOffset)) else old(tiffHeaderOffset)
      ensures err ==
        if !HasJpegId(dataView) then Some(InvalidImageFormat)
        else if tiffHeaderOffset == 0 then Some(NoExifData)
        else None
    {
      if |dataView| < MIN_DATA_BUFFER_LENGTH || Word16(dataView, 0, false) != JPEG_ID {
        return Some(InvalidImageFormat);
      }
      ParseAppMarkers();
      if !HasExifData() {
        return Some(NoExifData);
      }
      return None;
    }

    /** `_hasExifData`. */
    function HasExifData(): (b: bool)
      reads this
    {
      tiffHeaderOffset != 0
    }

    /** `_parseAppMarkers`: walk the APPn segments after the SOI marker,
        noting the TIFF header of each Exif APP1 segment. */
    method ParseAppMarkers()
      modifies this
      ensures dataView == old(dataView) && tags == old(tags) && littleEndian == old(littleEndian)
      ensures tiffHeaderOffset == ScanAppMarkers(dataView, JPEG_ID_SIZE, old(tiffHeaderOffset))
    {
      var pos := JPEG_ID_SIZE;
      while true
        invariant dataView == old(dataView) && tags == old(tags) && littleEndian == old(littleEndian)
        invariant ScanAppMarkers(dataView, pos, tiffHeaderOffset) == ScanAppMarkers(dataView, JPEG_ID_SIZE, old(tiffHeaderOffset))
        decreases |dataView| - pos
      {
        if |dataView| < pos + APP_ID_OFFSET + 5 {
          break;
        }
        var fieldLength;
        if IsApp1ExifMarker(dataView, pos) {
          fieldLength := Word16(dataView, pos + APP_MARKER_SIZE, false);
          tiffHeaderOffset := pos + TIFF_HEADER_OFFSET;
        } else if IsAppMarker(dataView, pos) {
          fieldLength := Word16(dataView, pos + APP_MARKER_SIZE, false);
        } else {
          break;
        }
        pos := pos + APP_MARKER_SIZE + fieldLength;
      }
    }

    /** `_readTags`. */
    method ReadTags() returns (err: Option<Error>)
      modifies this
      ensures dataView == old(dataView) && tiffHeaderOffset == old(tiffHeaderOffset)
      ensures Settled(ExifDecode.ReadTags(dataView, tiffHeaderOffset, old(tags)), err, tags)
      ensures err == Some(IllegalByteOrder) ==> tags == old(tags)
      ensures littleEndian ==
        if ByteOrder(dataView, tiffHeaderOffset).Ok? then ByteOrder(dataView, tiffHeaderOffset).value else old(littleEndian)
    {
      ghost var d, tiff, start := dataView, tiffHeaderOffset, tags;
      ReadTagsStop(d, tiff, start);
      err := SetByteOrder();
      if err.Some? {
        return;
      }
      ghost var le := littleEndian;
      var first := Uint32(dataView, tiffHeaderOffset + 4, littleEndian);
      if first.Err? {
        return Some(first.error);
      }
      ghost var read;
      err, read := ReadIfd(Zeroth, tiffHeaderOffset + first.value);
      ReadTagsStep(d, tiff, start, le, first.value);
      if err.Some? {
        return;
      }
      err, read := FollowPointers();
    }

    /** The last three steps of `_readTags`. `read` lists the tags the
        failing step stored before it stopped. */
    method FollowPointers() returns (err: Option<Error>, ghost read: seq<Tag>)
      modifies this
      ensures dataView == old(dataView) && tiffHeaderOffset == old(tiffHeaderOffset) && littleEndian == old(littleEndian)
      ensures Settled(ExifDecode.FollowPointers(dataView, littleEndian, tiffHeaderOffset, old(tags)), err, tags)
      ensures err.Some? ==>
        match ExifDecode.FollowPointer(dataView, littleEndian, tiffHeaderOffset, ExifIfd, EXIF_POINTER, old(tags))
        case Err(_) =>
          && PointerStopped(dataView, littleEndian, tiffHeaderOffset, ExifIfd, EXIF_POINTER, old(tags), read, err.value)
          && tags == Store(old(tags), read)
        case Ok(exif) =>
          match ExifDecode.FollowPointer(dataView, littleEndian, tiffHeaderOffset, Gps, GPS_POINTER, exif)
          case Err(_) =>
            && PointerStopped(dataView, littleEndian, tiffHeaderOffset, Gps, GPS_POINTER, exif, read, err.value)
            && tags == Store(exif, read)
          case Ok(gps) =>
            && PointerStopped(dataView, littleEndian, tiffHeaderOffset, Interoperability, INTEROPERABILITY_POINTER, gps, read, err.value)
            && tags == Store(gps, read)
    {
      err, read := FollowPointer(ExifIfd, EXIF_POINTER);
      if err.Some? {
        return;
      }
      err, read := FollowPointer(Gps, GPS_POINTER);
      if err.Some? {
        return;
      }
      err, read := FollowPointer(Interoperability, INTEROPERABILITY_POINTER);
    }

    /** `_setByteOrder`. */
    method SetByteOrder() returns (err: Option<Error>)
      modifies this
      ensures dataView == old(dataView) && tags == old(tags) && tiffHeaderOffset == old(tiffHeaderOffset)
      ensures match ByteOrder(dataView, tiffHeaderOffset)
        case Ok(le) => err == None && littleEndian == le
        case Err(e) => err == Some(e) && littleEndian == old(littleEndian)
    {
      var mark := Uint16(dataView, tiffHeaderOffset, false);
      if mark.Err? {
        return Some(mark.error);
      }
      if mark.value == BYTE_ORDER_BIG_ENDIAN {
        littleEndian := true;
      } else if mark.value == BYTE_ORDER_LITTLE_ENDIAN {
        littleEndian := false;
      } else {
        return Some(IllegalByteOrder);
      }
      return None;
    }

    /** `_readExifIfd`, `_readGpsIfd` and `_readInteroperabilityIfd`.
        `read` lists the tags stored. */
    method FollowPointer(kind: IfdKind, pointer: string) returns (err: Option<Error>, ghost read: seq<Tag>)
      modifies this
      ensures dataView == old(dataView) && tiffHeaderOffset == old(tiffHeaderOffset) && littleEndian == old(littleEndian)
      ensures Settled(ExifDecode.FollowPointer(dataView, littleEndian, tiffHeaderOffset, kind, pointer, old(tags)), err, tags)
      ensures tags == Store(old(tags), read)
      ensures err.Some? ==> PointerStopped(dataView, littleEndian, tiffHeaderOffset, kind, pointer, old(tags), read, err.value)
    {
      read := [];
      if pointer !in tags {
        return None, read;
      }
      match tags[pointer].value
      case Single(Int(p)) =>
        ghost var start := tags;
        var offset := tiffHeaderOffset + p;
        FollowPointerTo(dataView, littleEndian, tiffHeaderOffset, kind, pointer, start, p, offset);
        err, read := ReadIfd(kind, offset);
        if err.Some? {
          PointerStoppedAt(dataView, littleEndian, tiffHeaderOffset, kind, pointer, start, p, offset, read, err.value);
        }
      case _ =>
        err := Some(PointerNotInteger);
    }

    /** `_readIfd(kind, offset)`: the entry count, then the entries, each
        tag stored under its name as soon as it is read. `read` lists the
        tags stored: all of the IFD's entries, or those before the first
        that does not read. */
    method ReadIfd(kind: IfdKind, offset: int) returns (err: Option<Error>, ghost read: seq<Tag>)
      modifies this
      ensures dataView == old(dataView) && tiffHeaderOffset == old(tiffHeaderOffset) && littleEndian == old(littleEndian)
      ensures Settled(ExifDecode.ReadIfd(dataView, littleEndian, tiffHeaderOffset, kind, offset, old(tags)), err, tags)
      ensures tags == Store(old(tags), read)
      ensures err.None? ==>
        && Uint16(dataView, offset, littleEndian) == Ok(|read|)
        && ReadAll(EntryReader(dataView, littleEndian, tiffHeaderOffset, kind), offset + 2, |read|) == Ok(read)
      ensures err.Some? ==> StoppedAt(dataView, littleEndian, tiffHeaderOffset, kind, offset, read, err.value)
    {
      read := [];
      var n := Uint16(dataView, offset, littleEndian);
      if n.Err? {
        return Some(n.error), read;
      }
      ghost var start := tags;
      err, read := StoreEntries(kind, offset + 2, n.value);
      EntriesFromPrefix(EntryReader(dataView, littleEndian, tiffHeaderOffset, kind), offset + 2, n.value, start, read, err);
    }

    /** The loop of `_readIfd`: `n` entries at a 12-byte stride. `read`
        lists the tags of the entries that read, in order; the loop stops
        at the first entry that does not, with the tags before it stored. */
    method StoreEntries(kind: IfdKind, first: int, n: nat) returns (err: Option<Error>, ghost read: seq<Tag>)
      modifies this
      ensures dataView == old(dataView) && tiffHeaderOffset == old(tiffHeaderOffset) && littleEndian == old(littleEndian)
      ensures tags == Store(old(tags), read)
      ensures |read| <= n && ReadAll(EntryReader(dataView, littleEndian, tiffHeaderOffset, kind), first, |read|) == Ok(read)
      ensures err.None? ==> |read| == n
      ensures err.Some? ==> |read| < n && EntryAt(EntryReader(dataView, littleEndian, tiffHeaderOffset, kind), first, |read|) == Err(err.value)
    {
      ghost var start := tags;
      read := [];
      var k := 0;
      while k < n
        invariant dataView == old(dataView) && tiffHeaderOffset == old(tiffHeaderOffset) && littleEndian == old(littleEndian)
        invariant k <= n && |read| == k
        invariant tags == Store(start, read)
        invariant ReadAll(EntryReader(dataView, littleEndian, tiffHeaderOffset, kind), first, k) == Ok(read)
      {
        err, read := StoreEntry(kind, first, k, start, read);
        if err.Some? {
          return;
        }
        k := k + 1;
      }
      return None, read;
    }

    /** One pass of that loop: the entry `k` places after `first` is read,
        and its tag is stored over the `k` tags before it. */
    method StoreEntry(kind: IfdKind, first: int, k: nat, ghost start: Tags, ghost read: seq<Tag>)
      returns (err: Option<Error>, ghost read': seq<Tag>)
      requires |read| == k && tags == Store(start, read)
      requires ReadAll(EntryReader(dataView, littleEndian, tiffHeaderOffset, kind), first, k) == Ok(read)
      modifies this
      ensures dataView == old(dataView) && tiffHeaderOffset == old(tiffHeaderOffset) && littleEndian == old(littleEndian)
      ensures tags == Store(start, read')
      ensures err.None? ==> |read'| == k + 1 && ReadAll(EntryReader(dataView, littleEndian, tiffHeaderOffset, kind), first, k + 1) == Ok(read')
      ensures err.Some? ==> read' == read && EntryAt(EntryReader(dataView, littleEndian, tiffHeaderOffset, kind), first, k) == Err(err.value)
    {
      var entry := first + 12 * k;
      EntryAtTag(dataView, littleEndian, tiffHeaderOffset, kind, first, k, entry);
      var tag := ReadTag(kind, entry);
      if tag.Err? {
        return Some(tag.error), read;
      }
      var t := tag.value;
      ReadAllSnoc(EntryReader(dataView, littleEndian, tiffHeaderOffset, kind), first, k, read, t);
      StoreSnoc(start, read, t);
      tags := tags[t.name := Tagged(t.value, t.description)];
      return None, read + [t];
    }

    /** `_readTag(kind, entry)`. */
    method ReadTag(kind: IfdKind, entry: int) returns (r: Result<Tag, Error>)
      ensures r == ExifDecode.ReadTag(dataView, littleEndian, tiffHeaderOffset, kind, entry)
    {
      var code := Uint16(dataView, entry, littleEndian);
      if code.Err? {
        return Err(code.error);
      }
      var t := Uint16(dataView, entry + 2, littleEndian);
      if t.Err? {
        return Err(t.error);
      }
      var count := Uint32(dataView, entry + 4, littleEndian);
      if count.Err? {
        return Err(count.error);
      }
      var value := ReadEntryValue(entry, t.value, count.value);
      if value.Err? {
        return Err(value.error);
      }
      var v := value.value;
      if t.value == ASCII {
        v := SplitNullSeparatedAsciiString(v);
      }
      return Ok(NameTag(kind, code.value, v));
    }

    /** The value of an entry, read inline when it fits in four bytes and
        from the offset the entry holds otherwise. */
    method ReadEntryValue(entry: int, t: int, count: nat) returns (r: Result<Value, Error>)
      ensures r == EntryValue(dataView, littleEndian, tiffHeaderOffset, entry, t, count)
    {
      if Fits(t, count) {
        r := GetTagValue(entry + 8, t, count);
      } else {
        var p := Uint32(dataView, entry + 8, littleEndian);
        if p.Err? {
          return Err(p.error);
        }
        r := GetTagValue(tiffHeaderOffset + p.value, t, count);
      }
    }

    /** `_getTagValue(offset, t, count)`: `count` reads, each `Width(t)`
        bytes after the one before, then the shaping of the result. */
    method GetTagValue(offset: int, t: int, count: nat) returns (r: Result<Value, Error>)
      ensures r == TagValue(dataView, littleEndian, offset, t, count)
    {
      var values: seq<Scalar> := [];
      var at := offset;
      var k := 0;
      assert forall xs: seq<Scalar> :: [] + xs == xs;
      while k < count
        invariant 0 <= k <= count
        invariant ReadValues(dataView, littleEndian, t, offset, count)
          == Prepend(values, ReadValues(dataView, littleEndian, t, at, count - k))
      {
        var x := ScalarAt(dataView, littleEndian, t, at);
        if x.Err? {
          return Err(x.error);
        }
        ghost var rest := ReadValues(dataView, littleEndian, t, at + Width(t), count - k - 1);
        if rest.Ok? {
          assert values + ([x.value] + rest.value) == (values + [x.value]) + rest.value;
        }
        values := values + [x.value];
        at := at + Width(t);
        k := k + 1;
      }
      assert values + [] == values;
      return Ok(Shape(t, values));
    }

    /** `_splitNullSeparatedAsciiString`: run `i` grows with each non-NUL
        character and each NUL moves on to run `i + 1`. */
    method SplitNullSeparatedAsciiString(v: Value) returns (r: Value)
      ensures r == SplitAscii(v)
    {
      match v
      case Chars(s) =>
        var parts: seq<string> := [];
        var i := 0;
        for k := 0 to |s|
          invariant parts == SplitNul(s[..k])
          invariant i == |Split(s[..k], 0 as char)| - 1
        {
          assert s[..k + 1] == s[..k] + [s[k]];
          if s[k] == 0 as char {
            SplitNulSnocNul(s[..k]);
            i := i + 1;
          } else {
            SplitNulSnocChar(s[..k], s[k]);
            if i < |parts| {
              parts := parts[i := parts[i] + [s[k]]];
            } else {
              parts := parts + Empties(i - |parts|) + [[s[k]]];
            }
          }
        }
        assert s[..|s|] == s;
        r := Strings(parts);
      case Single(_) =>
        r := Strings([]);
      case _ =>
        r := v;
    }
  }
}
