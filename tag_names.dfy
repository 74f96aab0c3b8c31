/** The `_tagNames` tables and the naming step of `_readTag`: each IFD kind
    maps tag codes either to a plain name or to a name and a function that
    describes the value. The tables here hold a representative subset of the
    source's entries. */
module TagNames {
  import opened TagValues

  datatype IfdKind = Zeroth | ExifIfd | Gps | Interoperability

  /** One table entry: a bare name, or a name with a description function. */
  datatype TagEntry =
    | NameOnly(name: string)
    | WithDescription(name: string, describe: Describer)

  /** The description functions the tables hold, one constructor each. */
  datatype Describer =
    | OrientationText
    | ResolutionUnitText
    | ExposureProgramText
    | OecfText
    | ColorSpaceText
    | GpsVersionIdText

  /** A tag's description: the text a description function returned, the
      value itself, or the value's elements joined with `sep`
      (`value.join(sep)`; number-to-text formatting is left symbolic). */
  datatype Description =
    | Label(text: string)
    | RawValue(value: Value)
    | JoinedValue(value: Value, sep: string)

  /** What `_readTag` returns. */
  datatype Tag = Tag(name: string, value: Value, description: Description)

  /** What `_readIfd` stores under the tag's name. */
  datatype Tagged = Tagged(value: Value, description: Description)

  /** `value === k` for a number `k` that is a small integer: a rational
      compares by its quotient, which is `k` exactly when `num == k * den`
      (a quotient of 32-bit integers that is not an integer is never rounded
      onto one). */
  function NumberIs(v: Value, k: int): (b: bool)
    ensures b ==> v.Single?
    ensures v == Single(Int(k)) ==> b
  {
    match v
    case Single(Int(i)) => i == k
    case Single(Ratio(n, m)) => m != 0 && n == k * m
    case _ => false
  }

  /** The description function of Orientation (0x0112). */
  function Orientation(v: Value): string {
    if NumberIs(v, 1) then "top-left"
    else if NumberIs(v, 2) then "top-right"
    else if NumberIs(v, 3) then "bottom-right"
    else if NumberIs(v, 4) then "bottom-left"
    else if NumberIs(v, 5) then "left-top"
    else if NumberIs(v, 6) then "right-top"
    else if NumberIs(v, 7) then "right-bottom"
    else if NumberIs(v, 8) then "left-bottom"
    else "Undefined"
  }

  /** The description function of ResolutionUnit (0x0128). */
  function ResolutionUnit(v: Value): string {
    if NumberIs(v, 2) then "inches"
    else if NumberIs(v, 3) then "centimeters"
    else "Unknown"
  }

  /** The description function of ExposureProgram (0x8822). */
  function ExposureProgram(v: Value): string {
    if NumberIs(v, 0) then "Undefined"
    else if NumberIs(v, 1) then "Manual"
    else if NumberIs(v, 2) then "Normal program"
    else if NumberIs(v, 3) then "Aperture priority"
    else if NumberIs(v, 4) then "Shutter priority"
    else if NumberIs(v, 5) then "Creative program"
    else if NumberIs(v, 6) then "Action program"
    else if NumberIs(v, 7) then "Portrait mode"
    else if NumberIs(v, 8) then "Landscape mode"
    else "Unknown"
  }

  /** The description function of ColorSpace (0xa001). */
  function ColorSpace(v: Value): string {
    if NumberIs(v, 1) then "sRGB"
    else if NumberIs(v, 0xffff) then "Uncalibrated"
    else "Unknown"
  }

  /** `value[k] === n` for an array value; an index past the end, or a
      value that is not an array of numbers, compares unequal. */
  predicate ElementIs(v: Value, k: nat, n: int) {
    v.Many? && k < |v.items| && NumberIs(Single(v.items[k]), n)
  }

  /** The description function of GPSVersionID (GPS 0x0000). */
  function GpsVersionId(v: Value): (s: string)
    ensures s == "Version 2.2" ==> v.Many? && |v.items| >= 4
    ensures !v.Many? ==> s == "Unknown"
  {
    if ElementIs(v, 0, 2) && ElementIs(v, 1, 2) && ElementIs(v, 2, 0) && ElementIs(v, 3, 0)
    then "Version 2.2"
    else "Unknown"
  }

  /** Calling the description function `f` on the value `v`. */
  function Describe(f: Describer, v: Value): (s: string)
    ensures |s| > 0
  {
    match f
    case OrientationText => Orientation(v)
    case ResolutionUnitText => ResolutionUnit(v)
    case ExposureProgramText => ExposureProgram(v)
    case OecfText => "[Raw OECF table data]"
    case ColorSpaceText => ColorSpace(v)
    case GpsVersionIdText => GpsVersionId(v)
  }

  /** The representative subset of `_tagNames`. */
  function Table(kind: IfdKind): (m: map<int, TagEntry>)
    ensures forall code :: code in m ==> 0 <= code < 0x1_0000
  {
    match kind
    case Zeroth =>
      map[
        0x0100 := NameOnly("ImageWidth"),
        0x0112 := WithDescription("Orientation", OrientationText),
        0x011a := NameOnly("XResolution"),
        0x011b := NameOnly("YResolution"),
        0x0128 := WithDescription("ResolutionUnit", ResolutionUnitText),
        0x8769 := NameOnly("Exif IFD Pointer"),
        0x8825 := NameOnly("GPS Info IFD Pointer")]
    case ExifIfd =>
      map[
        0x829a := NameOnly("ExposureTime"),
        0x8822 := WithDescription("ExposureProgram", ExposureProgramText),
        0x8828 := WithDescription("OECF", OecfText),
        0xa001 := WithDescription("ColorSpace", ColorSpaceText),
        0xa005 := NameOnly("Interoperability IFD Pointer")]
    case Gps =>
      map[0x0000 := WithDescription("GPSVersionID", GpsVersionIdText)]
    case Interoperability =>
      map[0x0001 := NameOnly("InteroperabilityIndex")]
  }

  /** The decimal digit for `d`. */
  function Digit(d: nat): char
    requires d < 10
  {
    ('0' as int + d) as char
  }

  /** A number as JavaScript writes it when it is concatenated to a string. */
  function Decimal(n: nat): (s: string)
    ensures |s| >= 1
    ensures forall i :: 0 <= i < |s| ==> '0' <= s[i] <= '9'
    decreases n
  {
    if n < 10 then [Digit(n)] else Decimal(n / 10) + [Digit(n % 10)]
  }

  /** The number a string of decimal digits denotes. */
  function DecimalValue(s: string): nat
    decreases |s|
  {
    if s == [] then 0
    else
      var c := s[|s| - 1];
      var d := if '0' <= c <= '9' then c as int - '0' as int else 0;
      10 * DecimalValue(s[..|s| - 1]) + d
  }

  /** Decimal text names its number: reading it back gives the number. */
  lemma {:induction false} DecimalRoundTrip(n: nat)
    ensures DecimalValue(Decimal(n)) == n
    decreases n
  {
    if n >= 10 {
      DecimalRoundTrip(n / 10);
      var s := Decimal(n / 10) + [Digit(n % 10)];
      assert s[..|s| - 1] == Decimal(n / 10);
    }
  }

  predicate IsArray(v: Value) {
    !v.Single?
  }

  /** The naming step of `_readTag` for a tag `code` in an IFD of `kind`. */
  function NameTag(kind: IfdKind, code: nat, v: Value): (t: Tag)
    ensures t.value == v
    ensures code in Table(kind) ==> t.name == Table(kind)[code].name
    ensures code !in Table(kind) ==> t.name == "undefined-" + Decimal(code) && t.description == RawValue(v)
    ensures t.description.JoinedValue? ==> IsArray(v) && t.description.sep == ", "
    ensures code in Table(kind) && Table(kind)[code].WithDescription? ==>
      t.description == Label(Describe(Table(kind)[code].describe, v))
    ensures code in Table(kind) && Table(kind)[code].NameOnly? ==>
      t.description == (if IsArray(v) then JoinedValue(v, ", ") else RawValue(v))
  {
    if code in Table(kind) then
      match Table(kind)[code]
      case WithDescription(name, describe) => Tag(name, v, Label(Describe(describe, v)))
      case NameOnly(name) =>
        Tag(name, v, if IsArray(v) then JoinedValue(v, ", ") else RawValue(v))
    else
      Tag("undefined-" + Decimal(code), v, RawValue(v))
  }

  /** A value equals at most one number, so the comparisons of a
      description function never match twice. */
  lemma NumberIsUnique(v: Value, j: int, k: int)
    requires NumberIs(v, j) && NumberIs(v, k)
    ensures j == k
  {
    if v.scalar.Ratio? {
      var m := v.scalar.den;
      assert (j - k) * m == 0;
    }
  }

  /** Orientation names each of the values 1 to 8 by its own label, and
      reads "Undefined" exactly when the value is none of them. */
  lemma OrientationLabels(v: Value)
    ensures forall k :: 1 <= k <= 8 && NumberIs(v, k) ==>
      Orientation(v) == ["top-left", "top-right", "bottom-right", "bottom-left",
                         "left-top", "right-top", "right-bottom", "left-bottom"][k - 1]
    ensures Orientation(v) == "Undefined" <==> forall k :: 1 <= k <= 8 ==> !NumberIs(v, k)
  {
    forall k | 1 <= k <= 8 && NumberIs(v, k)
      ensures Orientation(v) == ["top-left", "top-right", "bottom-right", "bottom-left",
                                 "left-top", "right-top", "right-bottom", "left-bottom"][k - 1]
    {
      forall j | 1 <= j < k ensures !NumberIs(v, j) {
        if NumberIs(v, j) {
          NumberIsUnique(v, j, k);
        }
      }
      assert k == 1 || k == 2 || k == 3 || k == 4 || k == 5 || k == 6 || k == 7 || k == 8;
    }
    if Orientation(v) == "Undefined" {
      forall k | 1 <= k <= 8 ensures !NumberIs(v, k) {
        assert k == 1 || k == 2 || k == 3 || k == 4 || k == 5 || k == 6 || k == 7 || k == 8;
      }
    }
  }

  /** ResolutionUnit reads "inches" exactly for 2, "centimeters" exactly
      for 3, and "Unknown" for everything else. */
  lemma ResolutionUnitLabels(v: Value)
    ensures ResolutionUnit(v) == "inches" <==> NumberIs(v, 2)
    ensures ResolutionUnit(v) == "centimeters" <==> NumberIs(v, 3)
    ensures ResolutionUnit(v) == "Unknown" <==> !NumberIs(v, 2) && !NumberIs(v, 3)
  {
    if NumberIs(v, 3) && NumberIs(v, 2) {
      NumberIsUnique(v, 2, 3);
    }
  }

  /** ExposureProgram reads "Unknown" exactly when the value is none of
      0 to 8. */
  lemma ExposureProgramUnknown(v: Value)
    ensures ExposureProgram(v) == "Unknown" <==> forall k :: 0 <= k <= 8 ==> !NumberIs(v, k)
  {
    if ExposureProgram(v) == "Unknown" {
      forall k | 0 <= k <= 8 ensures !NumberIs(v, k) {
        assert k == 0 || k == 1 || k == 2 || k == 3 || k == 4 || k == 5 || k == 6 || k == 7 || k == 8;
      }
    }
  }

  /** ColorSpace reads "sRGB" exactly for 1, "Uncalibrated" exactly for
      0xFFFF, and "Unknown" otherwise. */
  lemma ColorSpaceLabels(v: Value)
    ensures ColorSpace(v) == "sRGB" <==> NumberIs(v, 1)
    ensures ColorSpace(v) == "Uncalibrated" <==> NumberIs(v, 0xffff)
    ensures ColorSpace(v) == "Unknown" <==> !NumberIs(v, 1) && !NumberIs(v, 0xffff)
  {
    if NumberIs(v, 1) && NumberIs(v, 0xffff) {
      NumberIsUnique(v, 1, 0xffff);
    }
  }

  /** Within one IFD's table no two codes share a name, so no tabled tag
      overwrites another. */
  lemma TableNamesDistinct(kind: IfdKind, c1: int, c2: int)
    requires c1 in Table(kind) && c2 in Table(kind) && c1 != c2
    ensures Table(kind)[c1].name != Table(kind)[c2].name
  {
  }

  /** Every name in the tables starts with a capital letter. */
  lemma TableNamesCapitalised(kind: IfdKind, code: int)
    requires code in Table(kind)
    ensures |Table(kind)[code].name| > 0 && 'A' <= Table(kind)[code].name[0] <= 'Z'
  {
  }

  /** The name made up for a code missing from the table can never be the
      name of a listed tag, so an unknown tag never overwrites a known one. */
  lemma UnknownNameIsNotListed(kind: IfdKind, code: nat, v: Value, other: int)
    requires code !in Table(kind) && other in Table(kind)
    ensures NameTag(kind, code, v).name != Table(kind)[other].name
  {
    TableNamesCapitalised(kind, other);
    assert NameTag(kind, code, v).name[0] == 'u';
  }

  /** Two different unknown codes get two different names. */
  lemma UnknownNamesDistinct(kind: IfdKind, c1: nat, c2: nat, v1: Value, v2: Value)
    requires c1 !in Table(kind) && c2 !in Table(kind) && c1 != c2
    ensures NameTag(kind, c1, v1).name != NameTag(kind, c2, v2).name
  {
    var prefix := "undefined-";
    if NameTag(kind, c1, v1).name == NameTag(kind, c2, v2).name {
      assert (prefix + Decimal(c1))[|prefix|..] == Decimal(c1);
      assert (prefix + Decimal(c2))[|prefix|..] == Decimal(c2);
      DecimalRoundTrip(c1);
      DecimalRoundTrip(c2);
    }
  }

  /** Orientation 1 reads "top-left", 6 (also as the rational 12/2) reads
      "right-top", and a value outside 1..8 reads "Undefined". */
  lemma OrientationExamples()
    ensures NameTag(Zeroth, 0x0112, Single(Int(1))) == Tag("Orientation", Single(Int(1)), Label("top-left"))
    ensures NameTag(Zeroth, 0x0112, Single(Int(6))).description == Label("right-top")
    ensures NameTag(Zeroth, 0x0112, Single(Ratio(12, 2))).description == Label("right-top")
    ensures NameTag(Zeroth, 0x0112, Single(Int(99))).description == Label("Undefined")
    ensures NameTag(Zeroth, 0x0112, Many([Int(1), Int(1)])).description == Label("Undefined")
  {
  }

  /** The three pointer tags are named as the IFD walk looks them up, and a
      plain-named tag is described by its single value, or by the ", "-join
      of an array value. */
  lemma PointerTagNames(v: Value)
    ensures v.Single? ==> NameTag(Zeroth, 0x8769, v) == Tag("Exif IFD Pointer", v, RawValue(v))
    ensures v.Single? ==> NameTag(Zeroth, 0x8825, v) == Tag("GPS Info IFD Pointer", v, RawValue(v))
    ensures v.Single? ==> NameTag(ExifIfd, 0xa005, v) == Tag("Interoperability IFD Pointer", v, RawValue(v))
    ensures IsArray(v) ==> NameTag(Zeroth, 0x8769, v).description == JoinedValue(v, ", ")
    ensures IsArray(v) ==> NameTag(Zeroth, 0x8825, v).description == JoinedValue(v, ", ")
    ensures IsArray(v) ==> NameTag(ExifIfd, 0xa005, v).description == JoinedValue(v, ", ")
  {
  }

  /** ResolutionUnit 2 is "inches"; an array of two numbers under a plain
      name is described by joining them with ", ". */
  lemma DescriptionExamples()
    ensures NameTag(Zeroth, 0x0128, Single(Int(2))).description == Label("inches")
    ensures NameTag(Zeroth, 0x0128, Single(Int(1))).description == Label("Unknown")
    ensures NameTag(Zeroth, 0x0100, Many([Int(4), Int(3)])).description == JoinedValue(Many([Int(4), Int(3)]), ", ")
    ensures NameTag(Gps, 0, Many([Int(2), Int(2), Int(0), Int(0)])).description == Label("Version 2.2")
    ensures NameTag(Gps, 0, Single(Int(2))).description == Label("Unknown")
  {
  }
}
