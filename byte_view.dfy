/** The DataView reads the EXIF reader relies on: unsigned 8-, 16- and 32-bit
    and signed 32-bit integers at a byte offset, in either byte order. A read
    that does not lie wholly inside the buffer throws a RangeError. */
module ByteView {
  import opened Wrappers
  import opened ExifTypes

  const TWO_16: int := 0x1_0000
  const TWO_31: int := 0x8000_0000
  const TWO_32: int := 0x1_0000_0000

  /** `n` bytes starting at `off` lie inside `d`. */
  predicate InBounds(d: seq<Byte>, off: int, n: nat) {
    0 <= off && off + n <= |d|
  }

  /** The unsigned 16-bit word at `off`; `le` selects little-endian order. */
  function Word16(d: seq<Byte>, off: int, le: bool): (w: nat)
    requires InBounds(d, off, 2)
    ensures w < TWO_16
  {
    var b0, b1 := d[off] as int, d[off + 1] as int;
    if le then b0 + 256 * b1 else 256 * b0 + b1
  }

  /** The unsigned 32-bit word at `off`; `le` selects little-endian order. */
  function Word32(d: seq<Byte>, off: int, le: bool): (w: nat)
    requires InBounds(d, off, 4)
    ensures w < TWO_32
  {
    if le then Word16(d, off, true) + TWO_16 * Word16(d, off + 2, true)
    else TWO_16 * Word16(d, off, false) + Word16(d, off + 2, false)
  }

  /** Two's-complement reading of a 32-bit word. */
  function Signed32(u: nat): (x: int)
    requires u < TWO_32
    ensures -TWO_31 <= x < TWO_31
    ensures x % TWO_32 == u
  {
    if u < TWO_31 then u else u - TWO_32
  }

  /** DataView.getUint8. */
  function Uint8(d: seq<Byte>, off: int): (r: Result<nat, Error>)
    ensures r.Ok? <==> InBounds(d, off, 1)
    ensures r.Err? ==> r.error == OutOfRange
    ensures r.Ok? ==> r.value == d[off]
  {
    if InBounds(d, off, 1) then Ok(d[off]) else Err(OutOfRange)
  }

  /** DataView.getUint16(off, le). */
  function Uint16(d: seq<Byte>, off: int, le: bool): (r: Result<nat, Error>)
    ensures r.Ok? <==> InBounds(d, off, 2)
    ensures r.Err? ==> r.error == OutOfRange
    ensures r.Ok? ==> r.value < TWO_16
  {
    if InBounds(d, off, 2) then Ok(Word16(d, off, le)) else Err(OutOfRange)
  }

  /** DataView.getUint32(off, le). */
  function Uint32(d: seq<Byte>, off: int, le: bool): (r: Result<nat, Error>)
    ensures r.Ok? <==> InBounds(d, off, 4)
    ensures r.Err? ==> r.error == OutOfRange
    ensures r.Ok? ==> r.value < TWO_32
  {
    if InBounds(d, off, 4) then Ok(Word32(d, off, le)) else Err(OutOfRange)
  }

  /** DataView.getInt32(off, le). */
  function Int32(d: seq<Byte>, off: int, le: bool): (r: Result<int, Error>)
    ensures r.Ok? <==> InBounds(d, off, 4)
    ensures r.Err? ==> r.error == OutOfRange
    ensures r.Ok? ==> -TWO_31 <= r.value < TWO_31
  {
    if InBounds(d, off, 4) then Ok(Signed32(Word32(d, off, le))) else Err(OutOfRange)
  }

  /** The two bytes that store `w` in the given order. */
  function Encode16(w: nat, le: bool): (b: seq<Byte>)
    requires w < TWO_16
    ensures |b| == 2
  {
    if le then [w % 256, w / 256] else [w / 256, w % 256]
  }

  /** The four bytes that store `w` in the given order. */
  function Encode32(w: nat, le: bool): (b: seq<Byte>)
    requires w < TWO_32
    ensures |b| == 4
  {
    if le then Encode16(w % TWO_16, true) + Encode16(w / TWO_16, true)
    else Encode16(w / TWO_16, false) + Encode16(w % TWO_16, false)
  }

  /** Reading back a stored 16-bit word, wherever it sits in the buffer. */
  lemma Uint16RoundTrip(pre: seq<Byte>, w: nat, post: seq<Byte>, le: bool)
    requires w < TWO_16
    ensures Uint16(pre + Encode16(w, le) + post, |pre|, le) == Ok(w)
  {
    var d := pre + Encode16(w, le) + post;
    assert d[|pre|] == Encode16(w, le)[0] && d[|pre| + 1] == Encode16(w, le)[1];
  }

  /** Reading back a stored 32-bit word, wherever it sits in the buffer. */
  lemma Uint32RoundTrip(pre: seq<Byte>, w: nat, post: seq<Byte>, le: bool)
    requires w < TWO_32
    ensures Uint32(pre + Encode32(w, le) + post, |pre|, le) == Ok(w)
  {
    var d := pre + Encode32(w, le) + post;
    var lo, hi := w % TWO_16, w / TWO_16;
    if le {
      Uint16RoundTrip(pre, lo, Encode16(hi, true) + post, true);
      Uint16RoundTrip(pre + Encode16(lo, true), hi, post, true);
      assert d == pre + Encode16(lo, true) + (Encode16(hi, true) + post);
      assert d == (pre + Encode16(lo, true)) + Encode16(hi, true) + post;
    } else {
      Uint16RoundTrip(pre, hi, Encode16(lo, false) + post, false);
      Uint16RoundTrip(pre + Encode16(hi, false), lo, post, false);
      assert d == pre + Encode16(hi, false) + (Encode16(lo, false) + post);
      assert d == (pre + Encode16(hi, false)) + Encode16(lo, false) + post;
    }
  }

  /** A signed value survives being stored as its two's-complement word. */
  lemma Int32RoundTrip(pre: seq<Byte>, x: int, post: seq<Byte>, le: bool)
    requires -TWO_31 <= x < TWO_31
    ensures Int32(pre + Encode32(x % TWO_32, le) + post, |pre|, le) == Ok(x)
  {
    Uint32RoundTrip(pre, x % TWO_32, post, le);
  }

  /** A little-endian read is the big-endian read of the same bytes reversed. */
  lemma LittleIsReversedBig(d: seq<Byte>, off: int)
    requires InBounds(d, off, 4)
    ensures Word16(d, off, true) == Word16([d[off + 1], d[off]], 0, false)
    ensures Word32(d, off, true) == Word32([d[off + 3], d[off + 2], d[off + 1], d[off]], 0, false)
  {
  }
}
