/** What the decoder promises: where the scan finds the TIFF header, which
    byte order a mark selects, when an entry's value is inline, and what
    the tag map holds after an IFD. */
module DecodeFacts {
  import opened Wrappers
  import opened ExifTypes
  import opened ByteView
  import opened TagValues
  import opened TagNames
  import opened ExifDecode

  /** Walking through no Exif APP1 segment, the scan leaves `found` alone. */
  lemma {:induction false} ScanWithoutExif(d: seq<Byte>, pos: int, found: int)
    requires forall i :: 0 <= i < |Segments(d, pos)| ==> !ExifSegmentAt(d, Segments(d, pos)[i])
    ensures ScanAppMarkers(d, pos, found) == found
    decreases |d| - pos
  {
    if SegmentFits(d, pos) && IsAppMarker(d, pos) {
      var next := NextMarker(d, pos);
      var rest := Segments(d, next);
      assert Segments(d, pos) == [pos] + rest;
      assert !ExifSegmentAt(d, Segments(d, pos)[0]);
      forall i | 0 <= i < |rest| ensures !ExifSegmentAt(d, rest[i]) {
        assert rest[i] == Segments(d, pos)[i + 1];
      }
      ScanWithoutExif(d, next, found);
    }
  }

  /** The index of the last Exif APP1 segment among `segs`. */
  predicate LastExifIndex(d: seq<Byte>, segs: seq<int>, i: int) {
    0 <= i < |segs| && ExifSegmentAt(d, segs[i])
    && forall j :: i < j < |segs| ==> !ExifSegmentAt(d, segs[j])
  }

  /** Walking through some Exif APP1 segment, the scan ends on the last
      one, at its position plus 10. */
  lemma {:induction false} ScanFindsLastExif(d: seq<Byte>, pos: int, found: int)
    requires exists i :: 0 <= i < |Segments(d, pos)| && ExifSegmentAt(d, Segments(d, pos)[i])
    ensures exists i :: (LastExifIndex(d, Segments(d, pos), i)
      && ScanAppMarkers(d, pos, found) == Segments(d, pos)[i] + TIFF_HEADER_OFFSET)
    decreases |d| - pos
  {
    var segs := Segments(d, pos);
    assert SegmentFits(d, pos) && IsAppMarker(d, pos);
    var next := NextMarker(d, pos);
    var rest := Segments(d, next);
    assert segs == [pos] + rest;
    if exists i :: 0 <= i < |rest| && ExifSegmentAt(d, rest[i]) {
      var found' := if IsApp1ExifMarker(d, pos) then pos + TIFF_HEADER_OFFSET else found;
      assert ScanAppMarkers(d, pos, found) == ScanAppMarkers(d, next, found');
      ScanFindsLastExif(d, next, found');
      var i :| LastExifIndex(d, rest, i) && ScanAppMarkers(d, next, found') == rest[i] + TIFF_HEADER_OFFSET;
      LastExifLater(d, pos, rest, i);
    } else {
      LastExifFirst(d, segs, pos, rest);
      ScanWithoutExif(d, next, pos + TIFF_HEADER_OFFSET);
    }
  }

  /** The last Exif segment after the first position is still the last one
      with the first position in front. */
  lemma LastExifLater(d: seq<Byte>, pos: int, rest: seq<int>, i: int)
    requires LastExifIndex(d, rest, i)
    ensures LastExifIndex(d, [pos] + rest, i + 1) && ([pos] + rest)[i + 1] == rest[i]
  {
    var segs := [pos] + rest;
    forall j | i + 1 < j < |segs|
      ensures !ExifSegmentAt(d, segs[j])
    {
      assert segs[j] == rest[j - 1];
    }
  }

  /** With no Exif segment after the first position, the first one is the
      last Exif segment. */
  lemma LastExifFirst(d: seq<Byte>, segs: seq<int>, pos: int, rest: seq<int>)
    requires segs == [pos] + rest
    requires exists i :: 0 <= i < |segs| && ExifSegmentAt(d, segs[i])
    requires !exists i :: 0 <= i < |rest| && ExifSegmentAt(d, rest[i])
    ensures ExifSegmentAt(d, pos) && LastExifIndex(d, segs, 0)
  {
    forall j | 0 < j < |segs|
      ensures !ExifSegmentAt(d, segs[j])
    {
      assert segs[j] == rest[j - 1];
    }
  }

  /** Every position the scan visits lies at or after where it started. */
  lemma {:induction false} SegmentsStartAt(d: seq<Byte>, pos: int)
    ensures forall i :: 0 <= i < |Segments(d, pos)| ==> Segments(d, pos)[i] >= pos
    decreases |d| - pos
  {
    if SegmentFits(d, pos) && IsAppMarker(d, pos) {
      SegmentsStartAt(d, NextMarker(d, pos));
    }
  }

  /** A decode ends in "Invalid image format" exactly when the buffer is
      shorter than two bytes or does not open with the JPEG SOI marker. */
  lemma InvalidFormatIff(d: seq<Byte>)
    ensures Decode(d) == Err(InvalidImageFormat) <==> !(|d| >= 2 && d[0] == 0xff && d[1] == 0xd8)
  {
    if |d| >= 2 {
      assert Word16(d, 0, false) == d[0] as int * 256 + d[1] as int;
    }
  }

  /** A JPEG buffer decodes to "No Exif data" exactly when none of the APPn
      segments the scan walks through is an Exif APP1 segment. */
  lemma NoExifIff(d: seq<Byte>)
    requires HasJpegId(d)
    ensures Decode(d) == Err(NoExifData)
      <==> forall i :: 0 <= i < |Segments(d, JPEG_ID_SIZE)| ==> !ExifSegmentAt(d, Segments(d, JPEG_ID_SIZE)[i])
  {
    SegmentsStartAt(d, JPEG_ID_SIZE);
    if forall i :: 0 <= i < |Segments(d, JPEG_ID_SIZE)| ==> !ExifSegmentAt(d, Segments(d, JPEG_ID_SIZE)[i]) {
      ScanWithoutExif(d, JPEG_ID_SIZE, 0);
    } else {
      ScanFindsLastExif(d, JPEG_ID_SIZE, 0);
    }
  }

  /** The TIFF header a JPEG buffer with Exif data is read from: ten bytes
      past the last Exif APP1 segment. */
  lemma HeaderAfterLastExifSegment(d: seq<Byte>, prior: int)
    requires HasJpegId(d)
    requires exists i :: 0 <= i < |Segments(d, JPEG_ID_SIZE)| && ExifSegmentAt(d, Segments(d, JPEG_ID_SIZE)[i])
    ensures exists i :: LastExifIndex(d, Segments(d, JPEG_ID_SIZE), i)
    ensures forall i :: LastExifIndex(d, Segments(d, JPEG_ID_SIZE), i) ==>
      LoadTags(d, prior) == ReadTags(d, Segments(d, JPEG_ID_SIZE)[i] + TIFF_HEADER_OFFSET, map[])
  {
    ScanFindsLastExif(d, JPEG_ID_SIZE, prior);
    forall j | LastExifIndex(d, Segments(d, JPEG_ID_SIZE), j)
      ensures LoadTags(d, prior) == ReadTags(d, Segments(d, JPEG_ID_SIZE)[j] + TIFF_HEADER_OFFSET, map[])
    {
      LoadsAtLastExif(d, prior, j);
    }
  }

  /** Loading reads the tags at the last Exif segment the scan visits. */
  lemma LoadsAtLastExif(d: seq<Byte>, prior: int, j: int)
    requires HasJpegId(d) && LastExifIndex(d, Segments(d, JPEG_ID_SIZE), j)
    ensures LoadTags(d, prior) == ReadTags(d, Segments(d, JPEG_ID_SIZE)[j] + TIFF_HEADER_OFFSET, map[])
  {
    var segs := Segments(d, JPEG_ID_SIZE);
    ScanFindsLastExif(d, JPEG_ID_SIZE, prior);
    var i :| LastExifIndex(d, segs, i) && ScanAppMarkers(d, JPEG_ID_SIZE, prior) == segs[i] + TIFF_HEADER_OFFSET;
    LastExifUnique(d, segs, i, j);
    SegmentsStartAt(d, JPEG_ID_SIZE);
    LoadTagsAt(d, prior, segs[j] + TIFF_HEADER_OFFSET);
  }

  /** A sequence of segments has at most one last Exif segment. */
  lemma LastExifUnique(d: seq<Byte>, segs: seq<int>, i: int, j: int)
    requires LastExifIndex(d, segs, i) && LastExifIndex(d, segs, j)
    ensures i == j
  {
  }

  /** Once the scan has found a header, loading reads the tags there. */
  lemma LoadTagsAt(d: seq<Byte>, prior: int, tiff: int)
    requires HasJpegId(d) && ScanAppMarkers(d, JPEG_ID_SIZE, prior) == tiff && tiff != 0
    ensures LoadTags(d, prior) == ReadTags(d, tiff, map[])
  {
  }

  /** "II" selects little-endian reads, "MM" big-endian ones, and any other
      mark inside the buffer is "Illegal byte order value". */
  lemma ByteOrderMarks(d: seq<Byte>, tiff: int)
    ensures ByteOrder(d, tiff) == Ok(true) <==> InBounds(d, tiff, 2) && d[tiff] == 0x49 && d[tiff + 1] == 0x49
    ensures ByteOrder(d, tiff) == Ok(false) <==> InBounds(d, tiff, 2) && d[tiff] == 0x4d && d[tiff + 1] == 0x4d
    ensures ByteOrder(d, tiff) == Err(IllegalByteOrder)
      <==> InBounds(d, tiff, 2) && !(d[tiff] == d[tiff + 1] && (d[tiff] == 0x49 || d[tiff] == 0x4d))
    ensures ByteOrder(d, tiff) == Err(OutOfRange) <==> !InBounds(d, tiff, 2)
  {
    if InBounds(d, tiff, 2) {
      assert Word16(d, tiff, false) == d[tiff] as int * 256 + d[tiff + 1] as int;
    }
  }

  /** An entry lying wholly inside the buffer whose value fits in its four
      value bytes always decodes, and its value is read from those bytes. */
  lemma InlineEntryDecodes(d: seq<Byte>, le: bool, tiff: int, kind: IfdKind, entry: int)
    requires InBounds(d, entry, 12)
    requires Fits(Word16(d, entry + 2, le), Word32(d, entry + 4, le))
    ensures ValueOffset(d, le, tiff, entry, Word16(d, entry + 2, le), Word32(d, entry + 4, le)) == Ok(entry + 8)
    ensures ReadTag(d, le, tiff, kind, entry).Ok?
  {
    var t, count := Word16(d, entry + 2, le), Word32(d, entry + 4, le);
    InlineValueReadable(d, le, t, entry + 8, count);
  }

  /** An entry whose value does not fit is read at the TIFF header plus
      the offset in its value bytes, wherever the entry itself lies. */
  lemma IndirectEntryOffset(d: seq<Byte>, le: bool, tiff: int, entry: int, t: int, count: nat)
    requires InBounds(d, entry, 12)
    requires !Fits(t, count)
    ensures ValueOffset(d, le, tiff, entry, t, count) == Ok(tiff + Word32(d, entry + 8, le))
  {
  }
}
