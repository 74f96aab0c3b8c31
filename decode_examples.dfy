/** Whole buffers and the tags the decoder gives for them. */
module DecodeExamples {
  import opened Wrappers
  import opened ExifTypes
  import opened ByteView
  import opened TagValues
  import opened TagNames
  import opened ExifDecode

  /** A JPEG SOI marker and no APPn segment, with a valid "MM" TIFF header
      and an empty 0th IFD lying, by chance, twelve bytes in. */
  const NoExifJpeg: seq<Byte> :=
    [0xff, 0xd8, 0, 0, 0, 0, 0, 0, 0, 0, 0, 0,
     0x4d, 0x4d, 0, 0x2a, 0, 0, 0, 8,
     0, 0]

  /** A reader that has loaded an Exif JPEG keeps its TIFF header offset,
      12 for a leading APP1 segment; loading this buffer into it decodes
      the stray bytes at 12 as a TIFF header and reports an empty tag map,
      where a fresh reader reports "No Exif data". */
  lemma StaleHeaderOffset()
    ensures Decode(NoExifJpeg) == Err(NoExifData)
    ensures LoadTags(NoExifJpeg, 12) == Ok(map[])
  {
    var d := NoExifJpeg;
    assert HasJpegId(d);
    assert SegmentFits(d, 2) && !IsAppMarker(d, 2) && !IsApp1ExifMarker(d, 2);
    assert ScanAppMarkers(d, 2, 0) == 0;
    assert ScanAppMarkers(d, 2, 12) == 12;
    assert ByteOrder(d, 12) == Ok(false);
    assert Uint32(d, 16, false) == Ok(8);
    assert Uint16(d, 20, false) == Ok(0);
    assert ReadIfd(d, false, 12, Zeroth, 20, map[]) == Ok(map[]);
  }

  /** A JPEG with one Exif APP1 segment whose "II" TIFF header is followed
      by a 0th IFD holding one SHORT Orientation entry of value 6. */
  const OrientedJpeg: seq<Byte> :=
    [0xff, 0xd8, 0xff, 0xe1, 0, 0x22, 0x45, 0x78, 0x69, 0x66, 0, 0,
     0x49, 0x49, 0x2a, 0, 8, 0, 0, 0,
     1, 0,
     0x12, 0x01, 3, 0, 1, 0, 0, 0, 6, 0, 0, 0,
     0, 0, 0, 0]

  lemma OrientedJpegDecodes()
    ensures Decode(OrientedJpeg) == Ok(map["Orientation" := Tagged(Single(Int(6)), Label("right-top"))])
  {
    OrientedScan();
    OrientedTags();
  }

  lemma OrientedTags()
    ensures ReadTags(OrientedJpeg, 12, map[]) == Ok(map["Orientation" := Tagged(Single(Int(6)), Label("right-top"))])
  {
    OrientedHeader();
    OrientedIfd();
    var m := map["Orientation" := Tagged(Single(Int(6)), Label("right-top"))];
    assert EXIF_POINTER !in m && GPS_POINTER !in m && INTEROPERABILITY_POINTER !in m;
  }

  lemma OrientedHeader()
    ensures ByteOrder(OrientedJpeg, 12) == Ok(true) && Uint32(OrientedJpeg, 16, true) == Ok(8)
  {
    var d := OrientedJpeg;
    assert Word16(d, 16, true) == 8 && Word16(d, 18, true) == 0;
  }

  lemma OrientedScan()
    ensures HasJpegId(OrientedJpeg) && ScanAppMarkers(OrientedJpeg, 2, 0) == 12
  {
    var d := OrientedJpeg;
    assert SegmentFits(d, 2) && IsApp1ExifMarker(d, 2);
    assert NextMarker(d, 2) == 38 && !SegmentFits(d, 38);
  }

  lemma OrientedIfd()
    ensures ReadIfd(OrientedJpeg, true, 12, Zeroth, 20, map[])
      == Ok(map["Orientation" := Tagged(Single(Int(6)), Label("right-top"))])
  {
    var d := OrientedJpeg;
    var tag := Tag("Orientation", Single(Int(6)), Label("right-top"));
    OrientedTag();
    OrientedCount();
    ReadEntriesStep(EntryReader(d, true, 12, Zeroth), 22, 1, map[], tag);
  }

  lemma OrientedCount()
    ensures Uint16(OrientedJpeg, 20, true) == Ok(1)
  {
  }

  lemma OrientedTag()
    ensures ReadTag(OrientedJpeg, true, 12, Zeroth, 22) == Ok(Tag("Orientation", Single(Int(6)), Label("right-top")))
  {
    var d := OrientedJpeg;
    assert Uint16(d, 22, true) == Ok(0x0112);
    assert Uint16(d, 24, true) == Ok(SHORT);
    assert Uint32(d, 26, true) == Ok(1);
    assert ValueOffset(d, true, 12, 22, SHORT, 1) == Ok(30);
    OrientedValue();
    OrientationSix();
  }

  lemma OrientedValue()
    ensures TagValue(OrientedJpeg, true, 30, SHORT, 1) == Ok(Single(Int(6)))
  {
    var d := OrientedJpeg;
    assert ScalarAt(d, true, SHORT, 30) == Ok(Int(6));
    assert ValueAt(d, true, SHORT, 30, 0) == Ok(Int(6));
    ReadValuesAt(d, true, SHORT, 30, 1);
  }

  lemma OrientationSix()
    ensures NameTag(Zeroth, 0x0112, Single(Int(6))) == Tag("Orientation", Single(Int(6)), Label("right-top"))
  {
  }
}
