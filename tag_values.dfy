/** The typed values of IFD entries: the eight TIFF value types, their
    widths, how `count` values are read one after another, how one value is
    unwrapped, and how ASCII text is cut at its NUL characters. */
module TagValues {
  import opened Wrappers
  import opened ExifTypes
  import opened ByteView
  import Text

  const BYTE: int := 1
  const ASCII: int := 2
  const SHORT: int := 3
  const LONG: int := 4
  const RATIONAL: int := 5
  const UNDEFINED: int := 7
  const SLONG: int := 9
  const SRATIONAL: int := 10

  /** The `_typeSizes` table: the width in bytes of one value of each
      supported type, and None for any other type code. */
  function TypeSize(t: int): (r: Option<nat>)
    ensures r.Some? <==> t in {BYTE, ASCII, SHORT, LONG, RATIONAL, UNDEFINED, SLONG, SRATIONAL}
    ensures r.Some? ==> r.value in {1, 2, 4, 8}
  {
    if t == BYTE || t == ASCII || t == UNDEFINED then Some(1)
    else if t == SHORT then Some(2)
    else if t == LONG || t == SLONG then Some(4)
    else if t == RATIONAL || t == SRATIONAL then Some(8)
    else None
  }

  /** How far the reading offset moves after each value. */
  function Width(t: int): nat {
    match TypeSize(t)
    case Some(w) => w
    case None => 0
  }

  /** `_typeSizes[type] * count <= 4`: the value fits in the entry's own
      4-byte value field. For an unknown type the product is NaN and the
      comparison is false. */
  function Fits(t: int, count: nat): (b: bool)
    ensures b <==>
      || (t in {BYTE, ASCII, UNDEFINED} && count <= 4)
      || (t == SHORT && count <= 2)
      || (t in {LONG, SLONG} && count <= 1)
      || (t in {RATIONAL, SRATIONAL} && count == 0)
  {
    TypeSize(t).Some? && TypeSize(t).value * count <= 4
  }

  /** One number as the reader produces it. RATIONAL and SRATIONAL are the
      quotient `num / den` of two 32-bit integers, kept here as the pair. */
  datatype Scalar = Int(i: int) | Ratio(num: int, den: int)

  /** A tag value: a lone number, an array of numbers, an array of
      characters, or the array of strings the ASCII splitter makes (a hole of
      that sparse array is the empty string; a real part is never empty). */
  datatype Value =
    | Single(scalar: Scalar)
    | Many(items: seq<Scalar>)
    | Chars(chars: string)
    | Strings(parts: seq<string>)

  /** `_getTagValueAt[t](off)`: one value of type `t`, through the typed
      `_get*At` readers. */
  function ScalarAt(d: seq<Byte>, le: bool, t: int, off: int): (r: Result<Scalar, Error>)
    ensures r.Ok? <==> TypeSize(t).Some? && InBounds(d, off, TypeSize(t).value)
    ensures r.Err? && TypeSize(t).None? ==> r.error == UnsupportedType(t)
    ensures r.Err? && TypeSize(t).Some? ==> r.error == OutOfRange
  {
    if t == BYTE || t == ASCII || t == UNDEFINED then
      var b :- Uint8(d, off); Ok(Int(b))
    else if t == SHORT then
      var w :- Uint16(d, off, le); Ok(Int(w))
    else if t == LONG then
      var w :- Uint32(d, off, le); Ok(Int(w))
    else if t == SLONG then
      var x :- Int32(d, off, le); Ok(Int(x))
    else if t == RATIONAL then
      var n :- Uint32(d, off, le);
      var m :- Uint32(d, off + 4, le);
      Ok(Ratio(n, m))
    else if t == SRATIONAL then
      var n :- Int32(d, off, le);
      var m :- Int32(d, off + 4, le);
      Ok(Ratio(n, m))
    else Err(UnsupportedType(t))
  }

  /** The `k`-th value of an array of type `t` that starts at `off`. */
  function ValueAt(d: seq<Byte>, le: bool, t: int, off: int, k: nat): Result<Scalar, Error> {
    ScalarAt(d, le, t, off + k * Width(t))
  }

  /** The loop of `_getTagValue`: `count` values, each `Width(t)` bytes after
      the one before; the first failing read is what is thrown. */
  function ReadValues(d: seq<Byte>, le: bool, t: int, off: int, count: nat): (r: Result<seq<Scalar>, Error>)
    ensures r.Err? ==> r.error == OutOfRange || r.error == UnsupportedType(t)
    decreases count
  {
    if count == 0 then Ok([])
    else
      var x :- ScalarAt(d, le, t, off);
      var rest :- ReadValues(d, le, t, off + Width(t), count - 1);
      Ok([x] + rest)
  }

  /** The character whose code is the byte `s` (String.fromCharCode); ASCII
      values are always read as single bytes. */
  function CharOf(s: Scalar): char {
    match s
    case Int(b) => ((b % 256) as char)
    case Ratio(_, _) => 0 as char
  }

  /** `_getAsciiValue`. */
  function AsciiChars(xs: seq<Scalar>): (cs: string)
    ensures |cs| == |xs|
    ensures forall k :: 0 <= k < |xs| ==> cs[k] == CharOf(xs[k])
  {
    seq(|xs|, k requires 0 <= k < |xs| => CharOf(xs[k]))
  }

  /** The end of `_getTagValue`: one value is unwrapped, any other number of
      ASCII values becomes an array of characters. */
  function Shape(t: int, xs: seq<Scalar>): (v: Value)
    ensures v.Single? <==> |xs| == 1
    ensures v.Single? ==> v.scalar == xs[0]
    ensures v.Many? ==> t != ASCII && v.items == xs
    ensures v.Chars? ==> t == ASCII && |v.chars| == |xs|
    ensures !v.Strings?
  {
    if |xs| == 1 then Single(xs[0])
    else if t == ASCII then Chars(AsciiChars(xs))
    else Many(xs)
  }

  /** `_getTagValue(off, t, count)`. */
  function TagValue(d: seq<Byte>, le: bool, off: int, t: int, count: nat): (r: Result<Value, Error>)
    ensures r.Err? ==> r.error == OutOfRange || r.error == UnsupportedType(t)
  {
    var xs :- ReadValues(d, le, t, off, count);
    Ok(Shape(t, xs))
  }

  /** `xs` without its trailing empty strings. */
  function TrimEmpty(xs: seq<string>): (r: seq<string>)
    ensures |r| <= |xs| && r == xs[..|r|]
    ensures forall j :: |r| <= j < |xs| ==> xs[j] == ""
    ensures |r| > 0 ==> r[|r| - 1] != ""
    decreases |xs|
  {
    if xs == [] then []
    else if xs[|xs| - 1] == "" then TrimEmpty(xs[..|xs| - 1])
    else xs
  }

  /** `_splitNullSeparatedAsciiString` on an array of characters: the runs
      between NULs, with the runs after the last non-NUL character dropped
      and every other empty run left as a hole. */
  function SplitNul(s: string): (parts: seq<string>)
    ensures forall j :: 0 <= j < |parts| ==> 0 as char !in parts[j]
    ensures |parts| > 0 ==> parts[|parts| - 1] != ""
  {
    Text.SplitPiecesFree(s, 0 as char);
    TrimEmpty(Text.Split(s, 0 as char))
  }

  /** The ASCII step of `_readTag`. A lone character arrives as its code, a
      number, over which the splitting loop does not iterate at all. */
  function SplitAscii(v: Value): (r: Value)
    ensures v.Chars? ==> r.Strings? && Text.Join(r.parts, "") == Text.Remove(v.chars, 0 as char)
    ensures v.Single? ==> r == Strings([])
    ensures v.Many? || v.Strings? ==> r == v
  {
    match v
    case Chars(cs) => SplitNulKeepsText(cs); Strings(SplitNul(cs))
    case Single(_) => Strings([])
    case _ => v
  }

  /** `count` empty strings: the holes a sparse array leaves. */
  function Empties(n: nat): (r: seq<string>)
    ensures |r| == n && forall j :: 0 <= j < n ==> r[j] == ""
  {
    seq(n, _ => "")
  }

  /** A read of `count` values succeeds exactly when each of the `count`
      values, one `Width(t)` after the other, can be read; it then holds
      those values in order. */
  lemma {:induction false} ReadValuesAt(d: seq<Byte>, le: bool, t: int, off: int, count: nat)
    ensures ReadValues(d, le, t, off, count).Ok? <==>
      forall k :: 0 <= k < count ==> ValueAt(d, le, t, off, k).Ok?
    ensures ReadValues(d, le, t, off, count).Ok? ==>
      var xs := ReadValues(d, le, t, off, count).value;
      |xs| == count && forall k :: 0 <= k < count ==> ValueAt(d, le, t, off, k) == Ok(xs[k])
    decreases count
  {
    if count > 0 {
      var next := off + Width(t);
      ReadValuesAt(d, le, t, next, count - 1);
      forall k | 0 <= k < count - 1
        ensures ValueAt(d, le, t, next, k) == ValueAt(d, le, t, off, k + 1)
      {
        assert next + k * Width(t) == off + (k + 1) * Width(t);
      }
      assert ValueAt(d, le, t, off, 0) == ScalarAt(d, le, t, off);
      var x, rest := ScalarAt(d, le, t, off), ReadValues(d, le, t, next, count - 1);
      if x.Ok? && rest.Ok? {
        var xs := [x.value] + rest.value;
        assert ReadValues(d, le, t, off, count) == Ok(xs);
        forall k | 0 <= k < count ensures ValueAt(d, le, t, off, k) == Ok(xs[k]) {
          if k > 0 {
            assert ValueAt(d, le, t, next, k - 1) == ValueAt(d, le, t, off, k);
          }
        }
      } else if x.Ok? {
        var k :| 0 <= k < count - 1 && !ValueAt(d, le, t, next, k).Ok?;
        assert !ValueAt(d, le, t, off, k + 1).Ok?;
      }
    }
  }

  /** A value that fits in four bytes is read from those four bytes alone:
      when they are in the buffer, the read cannot fail. */
  lemma InlineValueReadable(d: seq<Byte>, le: bool, t: int, off: int, count: nat)
    requires Fits(t, count) && InBounds(d, off, 4)
    ensures ReadValues(d, le, t, off, count).Ok?
  {
    var w := Width(t);
    forall k | 0 <= k < count ensures ValueAt(d, le, t, off, k).Ok? {
      assert (k + 1) * w <= count * w;
    }
    ReadValuesAt(d, le, t, off, count);
  }

  /** The shape of a decoded value follows `count`: one value is a bare
      number, and an array holds exactly `count` elements. */
  lemma TagValueShape(d: seq<Byte>, le: bool, off: int, t: int, count: nat)
    requires TagValue(d, le, off, t, count).Ok?
    ensures var v := TagValue(d, le, off, t, count).value;
      && (v.Single? <==> count == 1)
      && (v.Many? ==> t != ASCII && |v.items| == count)
      && (v.Chars? ==> t == ASCII && |v.chars| == count)
      && !v.Strings?
  {
    ReadValuesAt(d, le, t, off, count);
  }

  /** Adding a NUL leaves the split unchanged and opens a new run. */
  lemma SplitNulSnocNul(p: string)
    ensures SplitNul(p + [0 as char]) == SplitNul(p)
    ensures |Text.Split(p + [0 as char], 0 as char)| == |Text.Split(p, 0 as char)| + 1
  {
    var sp := Text.Split(p, 0 as char);
    Text.SplitSnoc(p, 0 as char, 0 as char);
    assert (sp + [""])[..|sp|] == sp;
  }

  /** Adding another character extends the current run `i`: in place when
      the run is already in the array, else after holes up to index `i`. */
  lemma SplitNulSnocChar(p: string, c: char)
    requires c != 0 as char
    ensures var sp := Text.Split(p, 0 as char);
      var parts, i := SplitNul(p), |sp| - 1;
      && |Text.Split(p + [c], 0 as char)| == |sp|
      && SplitNul(p + [c]) ==
           if i < |parts| then parts[i := parts[i] + [c]]
           else parts + Empties(i - |parts|) + [[c]]
  {
    var sp := Text.Split(p, 0 as char);
    Text.SplitSnoc(p, c, 0 as char);
    assert Text.Split(p + [c], 0 as char) == Text.ExtendLast(sp, c);
    assert SplitNul(p + [c]) == TrimEmpty(Text.ExtendLast(sp, c));
    ExtendLastTrimmed(sp, c);
  }

  /** Trimming after extending the last piece, in the two cases the
      splitting loop distinguishes. */
  lemma ExtendLastTrimmed(sp: seq<string>, c: char)
    requires |sp| >= 1
    ensures var parts, i := TrimEmpty(sp), |sp| - 1;
      TrimEmpty(Text.ExtendLast(sp, c)) ==
        if i < |parts| then parts[i := parts[i] + [c]]
        else parts + Empties(i - |parts|) + [[c]]
  {
    var i := |sp| - 1;
    var ext := Text.ExtendLast(sp, c);
    assert ext == sp[..i] + [sp[i] + [c]];
    assert TrimEmpty(ext) == ext;
    var parts := TrimEmpty(sp);
    if i < |parts| {
      ExtendLastInPlace(sp, c);
    } else {
      HolesBeforeLast(sp, c);
    }
  }

  lemma ExtendLastInPlace(sp: seq<string>, c: char)
    requires |sp| >= 1
    ensures var i := |sp| - 1; Text.ExtendLast(sp, c) == sp[i := sp[i] + [c]]
  {
  }

  lemma HolesBeforeLast(sp: seq<string>, c: char)
    requires |sp| >= 1 && |TrimEmpty(sp)| <= |sp| - 1
    ensures var parts, i := TrimEmpty(sp), |sp| - 1;
      Text.ExtendLast(sp, c) == parts + Empties(i - |parts|) + [[c]]
  {
    var parts, i := TrimEmpty(sp), |sp| - 1;
    assert Text.ExtendLast(sp, c) == sp[..i] + [sp[i] + [c]];
    assert sp[i] == "";
    assert sp[i] + [c] == [c];
    assert sp[..i] == parts + Empties(i - |parts|);
  }

  /** Joining the parts gives back the text without its NULs, and no part
      holds a NUL: the split loses nothing but the separators. */
  lemma SplitNulKeepsText(s: string)
    ensures Text.Join(SplitNul(s), "") == Text.Remove(s, 0 as char)
    ensures forall j :: 0 <= j < |SplitNul(s)| ==> 0 as char !in SplitNul(s)[j]
  {
    var sp := Text.Split(s, 0 as char);
    Text.ConcatSplit(s, 0 as char);
    TrimKeepsJoin(sp);
    Text.SplitPiecesFree(s, 0 as char);
  }

  lemma {:induction false} TrimKeepsJoin(xs: seq<string>)
    ensures Text.Join(TrimEmpty(xs), "") == Text.Join(xs, "")
    decreases |xs|
  {
    if xs != [] && xs[|xs| - 1] == "" {
      var init := xs[..|xs| - 1];
      TrimKeepsJoin(init);
      if |xs| > 1 {
        assert Text.Join(xs, "") == Text.Join(init, "") + "" + "";
      }
    }
  }

  /** A trailing NUL ends the last string without adding a part; two NULs in
      a row leave a hole. */
  lemma SplitNulExamples()
    ensures SplitNul("Canon" + [0 as char]) == ["Canon"]
    ensures SplitNul("a" + [0 as char, 0 as char] + "b") == ["a", "", "b"]
    ensures SplitNul([0 as char]) == []
  {
    SplitNulTrailing("Canon");
    SplitNulTrailing("");
    assert "" + [0 as char] == [0 as char];
    SplitNulHole();
  }

  /** A NUL-free string followed by one NUL is that string alone (none at
      all when it is empty). */
  lemma SplitNulTrailing(w: string)
    requires 0 as char !in w
    ensures SplitNul(w + [0 as char]) == if w == "" then [] else [w]
  {
    Text.SplitWhole(w, 0 as char);
    SplitNulSnocNul(w);
  }

  /** "a", two NULs, "b": the empty run between the NULs is a hole. */
  lemma SplitNulHole()
    ensures SplitNul("a" + [0 as char, 0 as char] + "b") == ["a", "", "b"]
  {
    var nul := 0 as char;
    Text.SplitWhole("a", nul);
    Text.SplitWhole("b", nul);
    Text.SplitWhole("", nul);
    Text.SplitAround("", nul, "b");
    assert "" + [nul] + "b" == [nul] + "b";
    Text.SplitAround("a", nul, [nul] + "b");
    assert "a" + [nul] + ([nul] + "b") == "a" + [nul, nul] + "b";
    var sp := Text.Split("a" + [nul, nul] + "b", nul);
    assert sp == ["a", "", "b"];
  }
}
