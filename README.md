# image-viewer: the Exif reader and its helpers, in Dafny

image-viewer shows a dropped image at its physical size. It works that out
from the image's Exif metadata. The metadata comes from the bundled
`component-exif` module, which wraps ExifReader 1.0.1:

- ExifReader checks the JPEG start-of-image marker.
- It walks the APPn segments (0xFFE0 to 0xFFEF) to find the APP1 "Exif\0" segment.
- It reads the TIFF byte-order mark.
- It walks the 0th, Exif, GPS and Interoperability image file directories (IFDs). These are laid out as in section 2 ("Image File Directory") of TIFF 6.0 and section 4.6 of Exif 2.2.
- It decodes every 12-byte entry into a name-to-{value, description} map, using a tag table for each IFD.

`spaces()` turns the tag names into lower-case words ("ResolutionUnit" becomes "resolution unit"). `ppi()` turns the resolution fields into pixels per inch. The model also covers two small helpers from the same bundle: the module loader's path resolver `require.normalize` and the MIME matcher `File.prototype.is`.

The model follows the source's own form:

- **Pure reference definitions.** The decoder is a set of pure functions over `seq<Byte>` in `ExifDecode`. Errors are a `Result`, with one constructor per exception the source throws: RangeError becomes `OutOfRange`, a type code with no reader becomes `UnsupportedType`, and the two header errors and the byte-order error have their own constructors.
- **The class.** `ExifReading.ExifReader` is a class with the source's fields `dataView`, `tags`, `tiffHeaderOffset` and `littleEndian`. Its methods keep the source's loops: the `while (true)` marker scan, the 12-byte-stride IFD loop, the value loop of `_getTagValue` and the running-index NUL splitter. Each method is proved to compute exactly what the reference functions compute.
- **The facts.** `DecodeFacts`, `IfdFacts` and `DecodeExamples` state what the decoder promises, both in general and on concrete byte strings.
- **The helpers.** `Ppi`, `Spaces`, `Mime` and `Normalize` model the helpers. `Normalize` is a method with its loop, proved equal to a reference function.

The marker scan also follows the code: it does not stop at the first Exif APP1 segment, and each later one overwrites the header offset, so the last one wins.

Byte order follows the code. The mark 0x4949 ("II") sets `_littleEndian = true` and 0x4D4D ("MM") sets it to false, as TIFF 6.0 prescribes. The source's constant names, `_BYTE_ORDER_BIG_ENDIAN = 0x4949` and `_BYTE_ORDER_LITTLE_ENDIAN = 0x4d4d`, suggest the opposite mapping.

## Model

| member | source | states |
|---|---|---|
| ByteView.Word16 | build/build.js:1839-1841 | an in-bounds 16-bit read is below 2^16 |
| ByteView.Word32 | build/build.js:1843-1845 | an in-bounds 32-bit read is below 2^32 |
| ByteView.Signed32 | build/build.js:1855-1857 | the signed reading of a 32-bit word lies in [-2^31, 2^31) and is congruent to the word mod 2^32 |
| ByteView.Uint8 | build/build.js:1831-1837 | `getUint8` succeeds exactly when the offset is in the buffer, returns that byte, and otherwise fails with a range error |
| ByteView.Uint16 | build/build.js:1839-1841 | `getUint16` succeeds exactly when both bytes are in the buffer; otherwise it is a range error |
| ByteView.Uint32 | build/build.js:1843-1845 | `getUint32` succeeds exactly when four bytes are in the buffer; otherwise it is a range error |
| ByteView.Int32 | build/build.js:1855-1857 | `getInt32` succeeds exactly when four bytes are in the buffer, with a value in the signed 32-bit range |
| ByteView.Encode16 | build/build.js:1839-1841 | the 2-byte encoding in the chosen byte order |
| ByteView.Encode32 | build/build.js:1843-1845 | the 4-byte encoding in the chosen byte order |
| ByteView.Uint16RoundTrip | build/build.js:1839-1841 | reading a 16-bit word where it was encoded, in the same byte order, returns it, whatever surrounds it |
| ByteView.Uint32RoundTrip | build/build.js:1843-1845 | the same round trip for unsigned 32-bit words |
| ByteView.Int32RoundTrip | build/build.js:1855-1857 | the same round trip for signed 32-bit words (two's complement) |
| ByteView.LittleIsReversedBig | build/build.js:1689-1692 | a little-endian read equals a big-endian read of the reversed bytes, for 16 and 32 bits |
| Text.Split | build/build.js:1863-1880 | `split` always yields at least one piece |
| Text.ExtendLast | build/build.js:1877 | appending to the last piece keeps the number of pieces |
| Text.Remove | build/build.js:1870-1873 | the string with every separator removed holds no separator |
| Text.RemoveSnoc | build/build.js:1870-1873 | deleting a character from one character more deletes it from the end too, or keeps it there |
| Text.SplitSnoc | build/build.js:1868-1878 | splitting one character more either opens a new empty piece (a separator) or extends the last piece |
| Text.ExtendLastAppend | build/build.js:1877 | extending the last piece only touches the last list |
| Text.JoinSnoc | build/build.js:111 | joining one more piece appends the separator and the piece |
| Text.Join | build/build.js:111 | `join` starts with the first piece and ends with the last |
| Text.JoinExtendLast | build/build.js:1877 | extending the last piece by a character extends the joined text by that character |
| Text.JoinSplit | build/build.js:100-111 | joining the pieces of a split with the separator gives back the string |
| Text.SplitPiecesFree | build/build.js:1868-1878 | no piece of a split contains the separator |
| Text.SplitWhole | build/build.js:3008-3009 | a string without the separator splits into itself alone |
| Text.SplitAround | build/build.js:3008-3009 | splitting at a separator splits each side independently |
| Text.SplitJoin | build/build.js:100-111 | splitting a join of separator-free pieces gives the pieces back |
| Text.ConcatSplit | build/build.js:1863-1880 | concatenating the pieces of a split gives the string with the separators removed |
| TagValues.TypeSize | build/build.js:1882-1891 | exactly the eight types 1, 2, 3, 4, 5, 7, 9 and 10 have a size, and each size is 1, 2, 4 or 8 |
| TagValues.Fits | build/build.js:1759 | the value fits the 4-byte field exactly for up to 4 BYTE, ASCII or UNDEFINED values, up to 2 SHORTs, at most 1 LONG or SLONG, or no RATIONAL or SRATIONAL at all; an unknown type never fits |
| TagValues.ScalarAt | build/build.js:1575-1600 | one value of a type reads successfully exactly when the type has a reader and its bytes are in the buffer; the error names the cause |
| TagValues.ReadValues | build/build.js:1797-1807 | the value loop fails only with a range error or an unsupported type |
| TagValues.AsciiChars | build/build.js:1816-1829 | `_getAsciiValue` makes one character per code |
| TagValues.Shape | build/build.js:1808-1813 | one value is unwrapped to itself; any other count gives the values themselves, or for ASCII one character per value |
| TagValues.TagValue | build/build.js:1794-1814 | `_getTagValue` fails only with a range error or an unsupported type |
| TagValues.TrimEmpty | build/build.js:1874-1879 | dropping trailing holes keeps a prefix, drops only empty strings, and ends on a real part |
| TagValues.SplitNul | build/build.js:1863-1880 | no NUL-split part holds a NUL, and the last part is never a hole |
| TagValues.SplitAscii | build/build.js:1765-1767 | an ASCII character array becomes parts that concatenate to its text with the NULs removed; a lone ASCII value, a number, becomes no parts; other values pass unchanged |
| TagValues.Empties | build/build.js:1874-1876 | holes of a sparse array, as empty strings |
| TagValues.ReadValuesAt | build/build.js:1801-1805 | the loop reads exactly `count` values, the k-th at `offset + k * typeSize`, and succeeds exactly when every read does |
| TagValues.InlineValueReadable | build/build.js:1759-1760 | a value that fits the entry's 4-byte field always reads successfully when that field is in the buffer |
| TagValues.TagValueShape | build/build.js:1808-1813 | count 1 unwraps to a scalar; otherwise ASCII gives `count` characters and other types give `count` numbers |
| TagValues.SplitNulSnocNul | build/build.js:1870-1873 | a NUL character advances the index and adds no text |
| TagValues.SplitNulSnocChar | build/build.js:1874-1877 | another character is appended to the part at the running index, creating it (after holes) when absent |
| TagValues.ExtendLastTrimmed | build/build.js:1874-1877 | the same step stated on the untrimmed split |
| TagValues.ExtendLastInPlace | build/build.js:1877 | extending the last piece is an update at the last index |
| TagValues.HolesBeforeLast | build/build.js:1874-1876 | when the running index is past the parts, the new part lands after holes |
| TagValues.SplitNulKeepsText | build/build.js:1863-1880 | the NUL-split parts concatenate to the input with its NULs removed, and no part holds a NUL |
| TagValues.TrimKeepsJoin | build/build.js:1874-1879 | dropping trailing holes does not change the concatenated text |
| TagValues.SplitNulExamples | build/build.js:1863-1880 | "Canon\0" gives ["Canon"]; "a\0\0b" gives ["a", hole, "b"]; "\0" gives [] |
| TagValues.SplitNulTrailing | build/build.js:1863-1880 | a NUL-free string and one NUL split into that string alone, or into nothing when it is empty |
| TagValues.SplitNulHole | build/build.js:1874-1876 | "a", two NULs, "b" gives ["a", hole, "b"] |
| TagNames.NumberIs | build/build.js:1915-1939 | a `switch` case matches only a lone value, and always matches the lone integer it names |
| TagNames.NumberIsUnique | build/build.js:1915-1939 | a value matches at most one case, so no two cases of a description function compete |
| TagNames.OrientationLabels | build/build.js:1915-1939 | Orientation gives each of 1 to 8 its own label and "Undefined" exactly when the value is none of them |
| TagNames.ResolutionUnitLabels | build/build.js:1946-1958 | ResolutionUnit gives "inches" exactly for 2, "centimeters" exactly for 3 and "Unknown" otherwise |
| TagNames.ExposureProgramUnknown | build/build.js:1995-2021 | ExposureProgram gives "Unknown" exactly when the value is none of 0 to 8 |
| TagNames.ColorSpaceLabels | build/build.js:2265-2277 | ColorSpace gives "sRGB" exactly for 1, "Uncalibrated" exactly for 0xFFFF and "Unknown" otherwise |
| TagNames.GpsVersionId | build/build.js:2530-2541 | "Version 2.2" is given only for an array of at least four numbers; a value that is not an array is "Unknown" |
| TagNames.Describe | build/build.js:1770-1771 | every description function gives a non-empty text |
| TagNames.Table | build/build.js:1904-2820 | every tabled code is a 16-bit tag code |
| TagNames.TableNamesDistinct | build/build.js:1904-2820 | no two codes of one IFD's table share a name, so no tabled tag overwrites another |
| TagNames.NameTag | build/build.js:1768-1790 | the tag keeps the value; a tabled code takes the table's name; a tabled code with a description function is described by applying it to the value; a plain-name tabled code is described by the ", "-join of an array value and by the value itself otherwise; an untabled code is named "undefined-" and its decimal code, described by its value |
| TagNames.Decimal | build/build.js:1787 | the decimal form of a tag code is non-empty and made of digits |
| TagNames.DecimalRoundTrip | build/build.js:1787 | the decimal form reads back as the code |
| TagNames.TableNamesCapitalised | build/build.js:1904-2820 | every tabled name starts with a capital letter |
| TagNames.UnknownNameIsNotListed | build/build.js:1785-1790 | an unknown code's "undefined-<code>" name never equals a tabled name |
| TagNames.UnknownNamesDistinct | build/build.js:1785-1790 | distinct unknown codes get distinct names |
| TagNames.OrientationExamples | build/build.js:1915-1939 | Orientation describes 1 as "top-left" and 6 as "right-top" (also when 6 arrives as a ratio), and anything else as "Undefined" |
| TagNames.PointerTagNames | build/build.js:1989-1990 | the three IFD-pointer codes are named "Exif IFD Pointer", "GPS Info IFD Pointer" and "Interoperability IFD Pointer", described by the value itself for a single value and by its ", "-join for an array |
| TagNames.DescriptionExamples | build/build.js:1768-1779 | ResolutionUnit and GPSVersionID use their description functions; a plain-name array tag is described by its ", "-joined value |
| ExifDecode.HasJpegId | build/build.js:1634 | the first header check passes exactly when the buffer holds at least 2 bytes and starts with FF D8 |
| ExifDecode.IsApp1ExifMarker | build/build.js:1665-1667 | a segment is an Exif APP1 segment exactly when its bytes are FF E1, a 2-byte length, "Exif" and a NUL |
| ExifDecode.IsAppMarker | build/build.js:1669-1674 | a segment is an APPn segment exactly when it starts with FF and a byte from E0 to EF |
| ExifDecode.ScanAppMarkers | build/build.js:1643-1663 | the scan keeps the offset it started with, or ends on an Exif APP1 segment at or after its start, plus 10 |
| ExifDecode.NextMarker | build/build.js:1653-1660 | the scan always moves forward by at least the marker size |
| ExifDecode.Segments | build/build.js:1648-1661 | every position the scan visits fits its guard and holds an APPn marker |
| ExifDecode.ByteOrder | build/build.js:1688-1696 | the byte-order step fails only with a range error or the illegal-byte-order error |
| ExifDecode.ValueOffset | build/build.js:1759-1764 | locating an entry's value fails only with a range error |
| ExifDecode.EntryValue | build/build.js:1759-1764 | reading an entry's value, inline or through its offset, fails only with a range error or an unsupported type |
| ExifDecode.ReadTag | build/build.js:1753-1792 | reading an entry fails only with a walk error |
| ExifDecode.ReadEntries | build/build.js:1742-1749 | a loop that completes keeps every key the map held before |
| ExifDecode.ReadEntriesStep | build/build.js:1742-1749 | an entry that reads is stored under its name, and the loop goes on 12 bytes later with one entry fewer |
| ExifDecode.ReadEntriesStop | build/build.js:1742-1743 | an entry that does not read ends the loop with its error |
| ExifDecode.ReadEntriesFailure | build/build.js:1742-1749 | the loop fails only with an error that one of its entry reads gave |
| ExifDecode.ReadIfd | build/build.js:1736-1751 | reading an IFD fails only with a walk error |
| ExifDecode.FollowPointer | build/build.js:1709-1734 | following an IFD pointer fails only with a walk error |
| ExifDecode.FollowPointers | build/build.js:1683-1685 | the Exif, GPS and Interoperability steps, in that order, fail only with a walk error |
| ExifDecode.ReadTags | build/build.js:1680-1686 | `_readTags` fails only with the byte-order error or a walk error |
| ExifDecode.ReadTagsStep | build/build.js:1680-1686 | with the byte order and the 0th IFD offset read, `_readTags` ends with the 0th IFD's error, or goes on with the three pointer steps over the 0th IFD's tags |
| ExifDecode.ReadTagsStop | build/build.js:1680-1707 | a byte order or 0th IFD offset that cannot be read ends `_readTags` with that error |
| ExifDecode.LoadTags | build/build.js:1623-1641 | loading fails with "Invalid image format" exactly when the buffer is not a JPEG, with "No Exif data" exactly when it is one and the scan leaves the header offset 0, and otherwise is the tag walk at that offset |
| ExifDecode.Decode | build/build.js:1572-1641 | a buffer that decodes on a fresh reader is a JPEG whose scan ended on an Exif APP1 segment, 10 bytes before the TIFF header it read |
| DecodeFacts.ScanWithoutExif | build/build.js:1648-1661 | when no visited segment is an Exif APP1 segment, the scan leaves the header offset as it was |
| DecodeFacts.ScanFindsLastExif | build/build.js:1652-1654 | otherwise the header offset ends at the last Exif segment's position plus 10 |
| DecodeFacts.LastExifLater | build/build.js:1648-1661 | the last Exif segment after the first visited position stays the last one with that position in front |
| DecodeFacts.LastExifFirst | build/build.js:1648-1661 | with no Exif segment after it, the first visited segment is the last Exif segment |
| DecodeFacts.LastExifUnique | build/build.js:1648-1661 | the visited segments have at most one last Exif segment |
| DecodeFacts.SegmentsStartAt | build/build.js:1646-1660 | the scan visits no position before its start |
| DecodeFacts.InvalidFormatIff | build/build.js:1634-1636 | decoding fails with "Invalid image format" exactly when the buffer is shorter than 2 bytes or does not start with FF D8 |
| DecodeFacts.NoExifIff | build/build.js:1637-1640 | for a JPEG buffer, a fresh reader fails with "No Exif data" exactly when no visited segment is an Exif APP1 segment |
| DecodeFacts.HeaderAfterLastExifSegment | build/build.js:1623-1627 | with an Exif segment present, loading reads the tags at the last Exif segment plus 10, whatever the reader held before |
| DecodeFacts.LoadsAtLastExif | build/build.js:1623-1641 | loading reads the tags at the last visited Exif segment plus 10 |
| DecodeFacts.LoadTagsAt | build/build.js:1623-1641 | once the scan has found a header, loading reads the tags there |
| DecodeFacts.ByteOrderMarks | build/build.js:1688-1696 | "II" gives little-endian, "MM" big-endian, any other in-range mark the illegal-byte-order error, and an out-of-range mark a range error |
| DecodeFacts.InlineEntryDecodes | build/build.js:1759-1760 | an entry whose value fits 4 bytes is read inline at entry + 8 and always decodes |
| DecodeFacts.IndirectEntryOffset | build/build.js:1761-1763 | any other value is read at the TIFF header plus the long at entry + 8 |
| IfdFacts.ReadEntriesIsStore | build/build.js:1742-1749 | the IFD loop equals reading all entries first and then storing them in order |
| IfdFacts.ReadAllAt | build/build.js:1742-1748 | the k-th entry is read at offset + 12k, and all n reads must succeed |
| IfdFacts.EntryAtNext | build/build.js:1748 | counting entries from the next one shifts the entry index by one |
| IfdFacts.EntryAtTag | build/build.js:1743 | the k-th entry is the tag `_readTag` reads at the offset 12k past the first |
| IfdFacts.ReadAllStep | build/build.js:1742-1748 | reading one entry more puts the first entry's tag ahead of the rest, or ends with the first failure |
| IfdFacts.ReadAllUncons | build/build.js:1742-1748 | tags read from an IFD start with the first entry's tag, followed by the tags of the entries after it |
| IfdFacts.ReadAllSnoc | build/build.js:1742-1748 | reading one entry more extends the tags read by that entry's tag |
| IfdFacts.StoreKeys | build/build.js:1744-1747 | after the loop, the keys are the old keys plus the entries' names |
| IfdFacts.StoreSnoc | build/build.js:1744-1747 | storing one tag more stores it over what the tags before it left |
| IfdFacts.StoreLastWins | build/build.js:1744-1747 | a name holds the value and description of its last entry |
| IfdFacts.StoreKeepsOthers | build/build.js:1744-1747 | a key that no entry names keeps its old value |
| IfdFacts.IfdContents | build/build.js:1736-1751 | an IFD of n entries succeeds exactly when every entry reads, and then stores exactly those n tags over the old map |
| IfdFacts.EntriesFromPrefix | build/build.js:1736-1751 | when the first entries read as `read` and the loop either ends there or the next entry fails, the loop gives that error (or success) and `read` stored in order |
| IfdFacts.StoppedAtUnique | build/build.js:1736-1751 | two accounts of where the same IFD walk stopped agree on the tags stored and on the error |
| IfdFacts.StoppedAtFails | build/build.js:1736-1751 | an IFD walk that stopped fails with the error it stopped on |
| IfdFacts.FollowPointerTo | build/build.js:1709-1734 | a pointer tag holding one integer is followed to the IFD at that offset from the TIFF header |
| IfdFacts.PointerStoppedAt | build/build.js:1709-1734 | a pointer step stops with the tags and error of the walk of the IFD it points to |
| DecodeExamples.StaleHeaderOffset | build/build.js:1601-1627 | a JPEG with no Exif segment fails "No Exif data" on a fresh reader, but yields an empty tag map on a reader whose previous load left the header offset at 12 |
| DecodeExamples.OrientedJpegDecodes | build/build.js:1623-1627 | a 38-byte "II" JPEG with one Orientation entry of value 6 decodes to {Orientation: 6, "right-top"} |
| DecodeExamples.OrientedTags | build/build.js:1680-1686 | the tag walk of that image gives that one tag |
| DecodeExamples.OrientedHeader | build/build.js:1688-1707 | its byte order is little-endian and its 0th IFD is 8 bytes into the TIFF header |
| DecodeExamples.OrientedScan | build/build.js:1643-1663 | its scan puts the TIFF header at 12 |
| DecodeExamples.OrientedIfd | build/build.js:1736-1751 | its 0th IFD holds exactly the Orientation tag |
| DecodeExamples.OrientedCount | build/build.js:1739 | its 0th IFD holds one entry |
| DecodeExamples.OrientedTag | build/build.js:1753-1792 | its one entry is Orientation = 6, "right-top" |
| DecodeExamples.OrientedValue | build/build.js:1794-1814 | the inline SHORT reads as 6 |
| DecodeExamples.OrientationSix | build/build.js:1915-1939 | Orientation 6 is named and described "right-top" |
| ExifReading.ExifReader.constructor | build/build.js:1572-1602 | a new reader has header offset 0 and no tags |
| ExifReading.ExifReader.LoadView | build/build.js:1623-1628 | loading stores the view and ends with the tags, or the error, that the reference decoder gives from the reader's previous header offset; the header errors leave no tags |
| ExifReading.ExifReader.CheckImageHeader | build/build.js:1630-1641 | the header check gives "Invalid image format", "No Exif data" or success as the buffer's start and the scan decide, and updates only the header offset |
| ExifReading.ExifReader.ParseAppMarkers | build/build.js:1643-1663 | the `while (true)` scan leaves the header offset where the reference scan puts it, changing nothing else |
| ExifReading.ExifReader.ReadTags | build/build.js:1680-1686 | `_readTags` ends with the tags, or the error, of the reference tag walk, and with the byte order read from the header |
| ExifReading.ExifReader.FollowPointers | build/build.js:1683-1685 | the three pointer steps match the reference; after a failure the map holds the tags of the steps that succeeded, followed by the tags the failing step stored before it stopped |
| ExifReading.ExifReader.SetByteOrder | build/build.js:1688-1696 | the byte-order flag is set as the mark says, or the error is reported and the flag is untouched |
| ExifReading.ExifReader.FollowPointer | build/build.js:1709-1734 | one pointer step matches the reference, reading the IFD only when the pointer tag is present; after a failure the map holds the old tags with the tags read before the stop stored over them |
| ExifReading.ExifReader.ReadIfd | build/build.js:1736-1751 | the 12-byte-stride loop writes the tags the reference IFD read gives; after a failure the map holds the old tags with the tags of the entries before the failing one stored over them |
| ExifReading.ExifReader.StoreEntries | build/build.js:1740-1749 | the loop stores the tags of the entries in order and stops at the first entry that does not read, with the tags before it stored |
| ExifReading.ExifReader.StoreEntry | build/build.js:1743-1748 | one pass reads the next entry and stores its tag over the tags before it, or reports the entry's error and stores nothing |
| ExifReading.ExifReader.ReadTag | build/build.js:1753-1792 | reading one entry matches the reference |
| ExifReading.ExifReader.ReadEntryValue | build/build.js:1759-1764 | the value is read inline at entry + 8 when type size times count is at most 4, and otherwise at the TIFF header plus the long at entry + 8, as the reference says |
| ExifReading.ExifReader.GetTagValue | build/build.js:1794-1814 | the value loop matches the reference value |
| ExifReading.ExifReader.SplitNullSeparatedAsciiString | build/build.js:1863-1880 | the running-index loop gives the NUL split of the characters |
| Casing.Lower | build/build.js:2917 | `toLowerCase` maps an upper-case letter to its lower-case one and keeps every other character |
| Casing.LowerAll | build/build.js:1495 | lower-casing a string lower-cases each character in place |
| Ppi.Truthy | build/build.js:1493-1499 | a field is truthy exactly when it is present and neither the empty string nor 0 |
| Ppi.Or | build/build.js:1493 | `a \|\| b` is truthy exactly when one of them is |
| Ppi.Units | build/build.js:1479-1482 | the unit table has "meters" giving 0.0254 and "inches" giving 1; "constructor" and "__proto__" reach inherited members |
| Ppi.Power10 | build/build.js:1500-1501 | a power of ten is positive |
| Ppi.PointAt | build/build.js:1500-1501 | the index of the first point, or -1 when the string has none |
| Ppi.ToNumber | build/build.js:1500-1501 | a number converts to itself; a string that converts is non-empty, is not the point alone, holds only digits and points, and has a non-negative value |
| Ppi.NumeralChars | build/build.js:1500-1501 | digits on both sides of a point make a string of digits and points |
| Ppi.Round | build/build.js:1505 | `Math.round` gives the integer within half of x, with halves rounded up |
| Ppi.Average | build/build.js:1503-1505 | the average gives a whole number exactly when both fields convert and the unit is a factor, otherwise NaN, and the number is within half of the scaled average |
| Ppi.Ppi | build/build.js:1491-1519 | a number of pixels comes only from a string unit that lower-cases to "meters" or "inches" |
| Ppi.NoPpiIff | build/build.js:1491-1519 | `ppi` returns false exactly when no unit is truthy, the unit names no table entry, or neither field pair is truthy |
| Ppi.UnitNotTextIff | build/build.js:1493-1495 | a numeric unit makes `toLowerCase` throw, and only that does |
| Ppi.PpiValue | build/build.js:1491-1516 | otherwise the result is round(((x + y) / 2) * ratio) for the first truthy pair, with ratio 1 or 0.0254 |
| Ppi.ResolutionPairFirst | build/build.js:1499-1506 | when the x/y resolution pair is there, the pixels-per-unit fields do not matter |
| Ppi.InchesExample | build/build.js:1499-1506 | 300 x 300 per inch gives 300 |
| Ppi.MetersExample | build/build.js:1509-1516 | 3937 x 3937 per "Meters" gives 100 |
| Ppi.DigitStringsExample | build/build.js:1500-1501 | the resolutions may arrive as digit strings |
| Ppi.SeventyTwo | build/build.js:1500-1501 | "72" converts to 72 |
| Ppi.PointAtEitherEnd | build/build.js:1500-1501 | "5." converts to 5 and ".5" to 0.5 |
| Ppi.FractionNumeral | build/build.js:1500-1501 | "2.54" converts to 2.54 |
| Ppi.NotNumerals | build/build.js:1500-1501 | "." converts to NaN, as in the source; "1e3" and "-1" are not numerals in the model (see Left out) |
| Ppi.UnitExamples | build/build.js:1493-1496 | a unit outside the table gives false; a number as unit throws |
| Spaces.IsSpace | build/build.js:2918 | a white-space character is no letter, and space, tab, line feed and carriage return are white space |
| Spaces.Spaced | build/build.js:2914-2917 | the first replace never shortens the string |
| Spaces.Replacement | build/build.js:2915-2917 | a replacement has one character for a single-character match and three for a pair, with no upper-case letter |
| Spaces.Trim | build/build.js:2918 | trimming never lengthens the string, and what remains neither starts nor ends with white space |
| Spaces.Spaces | build/build.js:2913-2919 | `spaces` output has no upper-case letter and neither starts nor ends with white space |
| Spaces.Matched | build/build.js:2914 | each match of the pattern consumes one or two characters |
| Spaces.TrimStart | build/build.js:2918 | removing leading white space leaves a suffix that does not start with white space |
| Spaces.TrimEnd | build/build.js:2918 | removing trailing white space leaves a prefix that does not end with white space |
| Spaces.Letters | build/build.js:2913-2919 | the non-space characters of a string |
| Spaces.SpacedNoUpper | build/build.js:2914-2917 | the first replace leaves no upper-case letter |
| Spaces.SpacedKeepsLower | build/build.js:2914-2917 | a string with no upper-case letter passes the first replace unchanged |
| Spaces.TrimNoUpper | build/build.js:2918 | trimming keeps a string free of upper-case letters |
| Spaces.TrimStartIdle | build/build.js:2918 | trimming a string that starts with no white space leaves it |
| Spaces.TrimTwice | build/build.js:2918 | trimming is idempotent |
| Spaces.SpacesIdempotent | build/build.js:2913-2919 | applying `spaces` twice is the same as once |
| Spaces.LettersAppend | build/build.js:2913-2919 | dropping white space distributes over concatenation |
| Spaces.ReplacementLetters | build/build.js:2915-2917 | each replacement only lower-cases its match and inserts white space |
| Spaces.LowerAllAppend | build/build.js:2917 | lower-casing distributes over concatenation |
| Spaces.SpacedLetters | build/build.js:2914-2917 | apart from white space, the first replace is the lower-cased input |
| Spaces.TrimStartLetters | build/build.js:2918 | trimming the start removes only white space |
| Spaces.TrimEndLetters | build/build.js:2918 | trimming the end removes only white space |
| Spaces.SpacesKeepsLetters | build/build.js:2913-2919 | apart from white space, `spaces(s)` is `s` lower-cased: it inserts and trims spaces and changes no other character |
| Spaces.SpacedStep | build/build.js:2914 | the replace scans left to right, match after match |
| Spaces.Untrimmed | build/build.js:2918 | a string without outer white space is not trimmed |
| Spaces.LowerCons | build/build.js:2914 | a lower-case letter before a lower-case letter is no match and passes through |
| Spaces.SpacedConcatLower | build/build.js:2914 | a run of lower-case letters passes through the first replace |
| Spaces.LowerCapitalPair | build/build.js:2914-2917 | a lower-case letter before a capital gets a space between and the capital lower-cased |
| Spaces.LowerRunThenCapital | build/build.js:2914-2917 | a run of lower-case letters before a capitalised word gets one space before the word, lower-cased |
| Spaces.UpperLowerStep | build/build.js:2914-2916 | a capital before a lower-case letter becomes a space and the lower-cased pair |
| Spaces.CapitalWord | build/build.js:2914-2916 | a capitalised word becomes a space and the word in lower case |
| Spaces.TwoWordsLong | build/build.js:2914-2917 | two capitalised words run together, the first of two or more letters, become two spaced lower-case words |
| Spaces.TwoWordsShort | build/build.js:2914-2917 | the same when the first word has one lower-case letter |
| Spaces.TwoWords | build/build.js:2913-2919 | two capitalised words run together become the two words in lower case with one space between |
| Spaces.CapitalThenWord | build/build.js:2913-2919 | a lone capital before a capitalised word becomes its own lower-case word |
| Spaces.XResolutionKey | build/build.js:2913-2919 | "XResolution" becomes "x resolution", the key `ppi` reads |
| Spaces.XResolutionWords | build/build.js:2913-2919 | the pieces of "XResolution" put back together read "x resolution" |
| Spaces.ResolutionUnitKey | build/build.js:2913-2919 | "ResolutionUnit" becomes "resolution unit", the key `ppi` reads |
| Spaces.ResolutionUnitWords | build/build.js:2913-2919 | the pieces of "ResolutionUnit" put back together read "resolution unit" |
| Spaces.LeadingSpaceTrimmed | build/build.js:2918 | the space a leading capital gets is trimmed away again |
| Mime.Is | build/build.js:3002-3018 | every type matches itself, and a pattern without a slash other than "*" matches exactly its own type |
| Mime.Piece | build/build.js:3008-3009 | a piece of a split MIME type, absent past the end, holds no slash |
| Mime.PiecesOfSlashed | build/build.js:3008-3009 | "top/sub" splits into top and sub |
| Mime.PiecesOfBare | build/build.js:3008-3009 | a type without a slash is one piece, with no subtype |
| Mime.IsReflexive | build/build.js:3006 | every type matches itself |
| Mime.IsSlashed | build/build.js:3002-3018 | "a/b" matches "c/d" exactly when they are equal, or a = c and b is "*", or b = d and a is "*" |
| Mime.StarStarIsNarrow | build/build.js:3012-3015 | "*/*" matches no concrete type |
| Mime.BareStar | build/build.js:3012-3015 | "*" matches every slash-free type (both subtypes are missing) and no "c/d" |
| Normalize.DotDots | build/build.js:104-105 | the number of ".." pieces is at most the number of pieces |
| Normalize.NamedPieces | build/build.js:106-107 | the kept pieces are all names |
| Normalize.PopN | build/build.js:105 | popping n times leaves a prefix of the directory pieces, n shorter or empty |
| Normalize.PopNStep | build/build.js:105 | one more pop drops the last piece and leaves an empty array empty |
| Normalize.Resolved | build/build.js:95-112 | a relative path with named pieces resolves to a path that ends with its last named piece |
| Normalize.Normalize | build/build.js:95-112 | the pop/push loop computes the reference resolution |
| Normalize.NotRelativeUnchanged | build/build.js:98 | a path not starting with "." is returned as it is |
| Normalize.SplitSnocPiece | build/build.js:100-101 | a trailing "/p" splits off as one more piece |
| Normalize.CountsSnoc | build/build.js:103-109 | one more piece adds one ".." or one name, or nothing |
| Normalize.TwoPieces | build/build.js:100-109 | "./p" and "../p" split into two pieces, counted as in the loop |
| Normalize.SameDirectory | build/build.js:95-112 | "./name" resolves to curr + "/" + name |
| Normalize.ParentDirectory | build/build.js:95-112 | "../name" replaces the last piece of curr by name |
| Normalize.DotDotPopsDirectory | build/build.js:103-111 | "./a/../b" gives the parent of curr followed by a and b: ".." pops curr, not the piece before it |
| Normalize.DotDotPathPieces | build/build.js:101 | "./a/../b" splits into ".", a, "..", b |
| Normalize.DotDotPathCounts | build/build.js:103-109 | those pieces hold one ".." and the names a and b |
| Normalize.ResolvedFromPieces | build/build.js:95-112 | a relative path resolves through its pieces |

## Left out

- `load` and the `DataView` wrapper (build/build.js:1611-1613) are merged into `LoadView`, which takes the bytes directly.
- `getTagValue`, `getTagDescription` and `getAllTags` (build/build.js:2832-2867) only read the `tags` field. The model exposes that field and gives them no member.
- The `component-exif` wrapper (build/build.js:2893-2903) re-keys every tag through `spaces` and keeps only the values. Object-key order and collisions between re-keyed names are not modelled. Its use of a fresh reader per buffer is what `ExifDecode.Decode` models.
- The tag tables hold a representative subset. For the 0th IFD: ImageWidth, Orientation, XResolution, YResolution, ResolutionUnit and the two pointers. For the Exif IFD: ExposureTime, ExposureProgram, OECF, ColorSpace and the Interoperability pointer. For GPS: GPSVersionID. For Interoperability: InteroperabilityIndex. Each entry has its code, name and description function as in the source. The subset keeps the solver's work small, since every lookup of an unknown code considers every name in the table. Other codes are named "undefined-<code>", as the source names codes missing from its table.
- The GPS formula descriptions and the number-to-string descriptions (GPSAltitude, GPSTimeStamp and the like) are not modelled.
- RATIONAL and SRATIONAL values are kept as numerator/denominator pairs, not as IEEE quotients. A zero denominator, which gives Infinity or NaN in the source, is not modelled. A description function compares a pair with a small integer exactly (`n == k * m`, m nonzero).
- `ExifDecode.FollowPointer`: a pointer tag whose value is not one integer is an error (`PointerNotInteger`). The source adds the value to the header offset with JavaScript `+`, and `DataView` truncates the sum to an index. So a RATIONAL or SRATIONAL pointer is used numerically: 12/1 reads as 12, where the model stops with `PointerNotInteger`. Only an array value is concatenated as a string, and a sum that is NaN becomes index 0. None of this coercion is modelled.
- `ExifReading.ExifReader.LoadView` does not state the tag map after a failure inside an IFD walk. The steps it calls do (`ReadIfd`, `FollowPointer`, `FollowPointers`: the tags stored before the stop), but its own contract only names the error.
- `ExifReading.ExifReader.ReadTags`: the same holds after a walk error. Its contract names the error; the map is stated by the steps it calls.
- Exceptions are results. RangeError, the TypeError of a missing reader, and the three `Error`s the reader throws become `Error` values. The message text is not modelled.
- `Ppi.ToNumber` converts numbers and decimal numerals. A numeral is a non-empty run of digits with at most one decimal point, which may stand first or last ("5.", ".5") as long as a digit is present. Every other string is treated as NaN, so the result is `NotANumber`. That includes exponents, signs, hex, "Infinity" and surrounding white space, which JavaScript `+` accepts. The empty string never reaches the conversion, because it is not truthy.
- `Ppi.Ppi` works over exact reals. It does not model floating-point rounding of 0.0254 or of the average. Its input fields are strings or numbers only; other JSON kinds (booleans, arrays, objects) are not modelled.
- `Casing.Lower` maps only ASCII letters. Other scripts' case mappings are not modelled.
- `Spaces.IsSpace` follows the `\s` class of ECMAScript (white space and line terminators) by code point.

## Findings

| source | as written | input that shows it | evidently intended | confidence | as-written member | corrected member |
|---|---|---|---|---|---|---|
| build/build.js:1601-1627 | `loadView` resets `_tags` but not `_tiffHeaderOffset`, which only the constructor zeroes. A reader reused for a second buffer keeps the first buffer's header offset whenever the second buffer has no Exif segment. | A 22-byte JPEG with no APPn segment (`DecodeExamples.NoExifJpeg`), loaded by a reader whose previous load left the offset at 12. It yields an empty tag map instead of "No Exif data". | Every load starts from header offset 0, so a buffer without Exif fails "No Exif data". | not executed | DecodeExamples.StaleHeaderOffset | DecodeFacts.NoExifIff |
