/** `ppi(exif)`: the pixels per inch of an image, from the resolution
    fields of its metadata as a JSON object of strings and numbers. */
module Ppi {
  import opened Wrappers
  import opened Casing

  /** A JSON field value: a string or a number. */
  datatype Field = Str(s: string) | Num(n: real)

  /** What `ppi` returns: `false`, a whole number of pixels per inch, NaN,
      or the TypeError of calling `toLowerCase` on a number. */
  datatype Outcome = NoPpi | Pixels(ppi: int) | NotANumber | UnitNotText

  type Exif = map<string, Field>

  const METERS_PER_INCH: real := 0.0254

  /** Looking a key up: `undefined` when it is absent. */
  function Get(exif: Exif, key: string): Option<Field> {
    if key in exif then Some(exif[key]) else None
  }

  /** JavaScript truthiness: absent, the empty string and zero are false. */
  function Truthy(f: Option<Field>): (b: bool)
    ensures b <==> f.Some? && f.value != Str("") && f.value != Num(0.0)
  {
    match f
    case None => false
    case Some(Str(s)) => s != ""
    case Some(Num(n)) => n != 0.0
  }

  /** `a || b`. */
  function Or(a: Option<Field>, b: Option<Field>): (r: Option<Field>)
    ensures Truthy(r) <==> Truthy(a) || Truthy(b)
  {
    if Truthy(a) then a else b
  }

  /** What `units[key]` holds: a factor, nothing, or an inherited property
      of every object, which is truthy and not a number. */
  datatype Unit = Factor(f: real) | Missing | Inherited

  /** The units table, looked up with a lower-cased key. */
  function Units(key: string): (u: Unit)
    ensures u == Factor(METERS_PER_INCH) <==> key == "meters"
    ensures u == Factor(1.0) <==> key == "inches"
    ensures u.Inherited? <==> key == "constructor" || key == "__proto__"
  {
    if key == "meters" then Factor(METERS_PER_INCH)
    else if key == "inches" then Factor(1.0)
    else if key == "constructor" || key == "__proto__" then Inherited
    else Missing
  }

  function DigitValue(c: char): nat
    requires '0' <= c <= '9'
  {
    c as int - '0' as int
  }

  predicate AllDigits(s: string) {
    forall i :: 0 <= i < |s| ==> '0' <= s[i] <= '9'
  }

  /** The value of a run of decimal digits. */
  function Digits(s: string): (n: nat)
    requires AllDigits(s)
  {
    if s == [] then 0 else Digits(s[..|s| - 1]) * 10 + DigitValue(s[|s| - 1])
  }

  function Power10(k: nat): (p: nat)
    ensures p >= 1
  {
    if k == 0 then 1 else 10 * Power10(k - 1)
  }

  /** The index of the first '.' in `s`, or -1 when there is none. */
  function PointAt(s: string): (k: int)
    ensures -1 <= k < |s|
    ensures k >= 0 ==> s[k] == '.' && '.' !in s[..k]
    ensures k == -1 ==> '.' !in s
    decreases |s|
  {
    if s == [] then -1
    else if s[0] == '.' then 0
    else
      var k := PointAt(s[1..]);
      if k == -1 then -1
      else
        assert s[..k + 1] == [s[0]] + s[1..][..k];
        k + 1
  }

  /** Unary `+` on a field: a number is itself, and a decimal numeral is
      its value. A numeral is a non-empty run of digits with at most one
      decimal point, which may stand first or last ("5." is 5, ".5" is
      0.5) as long as some digit is there; any other string is NaN. */
  function ToNumber(f: Field): (r: Option<real>)
    ensures f.Num? ==> r == Some(f.n)
    ensures f.Str? && r.Some? ==>
      && r.value >= 0.0
      && |f.s| >= 1 && f.s != "."
      && forall i :: 0 <= i < |f.s| ==> '0' <= f.s[i] <= '9' || f.s[i] == '.'
  {
    match f
    case Num(n) => Some(n)
    case Str(s) =>
      if s != [] && AllDigits(s) then Some(Digits(s) as real)
      else
        var k := PointAt(s);
        if 0 <= k && |s| >= 2 && AllDigits(s[..k]) && AllDigits(s[k + 1..]) then
          NumeralChars(s, k);
          Some(Digits(s[..k]) as real + Digits(s[k + 1..]) as real / Power10(|s| - k - 1) as real)
        else None
  }

  /** Digits on both sides of the point at `k`: every character is a digit
      or a point. */
  lemma NumeralChars(s: string, k: int)
    requires 0 <= k < |s| && s[k] == '.' && AllDigits(s[..k]) && AllDigits(s[k + 1..])
    ensures forall i :: 0 <= i < |s| ==> '0' <= s[i] <= '9' || s[i] == '.'
  {
    forall i | 0 <= i < |s| ensures '0' <= s[i] <= '9' || s[i] == '.' {
      if i < k {
        assert s[i] == s[..k][i];
      } else if i > k {
        assert s[i] == s[k + 1..][i - k - 1];
      }
    }
  }

  /** `Math.round`: the nearest whole number, halves rounded up. */
  function Round(x: real): (n: int)
    ensures n as real - 0.5 <= x < n as real + 0.5
  {
    (x + 0.5).Floor
  }

  /** `Math.round(((x + y) / 2) * ratio)` over two fields. */
  function Average(x: Field, y: Field, ratio: Unit): (o: Outcome)
    requires !ratio.Missing?
    ensures o.Pixels? <==> ToNumber(x).Some? && ToNumber(y).Some? && ratio.Factor?
    ensures !o.Pixels? ==> o == NotANumber
    ensures o.Pixels? ==>
      var m := (ToNumber(x).value + ToNumber(y).value) / 2.0 * ratio.f;
      m - 0.5 < o.ppi as real <= m + 0.5
  {
    match (ToNumber(x), ToNumber(y), ratio)
    case (Some(a), Some(b), Factor(f)) => Pixels(Round((a + b) / 2.0 * f))
    case _ => NotANumber
  }

  function Ppi(exif: Exif): (o: Outcome)
    ensures o.Pixels? ==>
      UnitField(exif).Some? && UnitField(exif).value.Str? && LowerAll(UnitField(exif).value.s) in {"meters", "inches"}
  {
    var unit := Or(Get(exif, "resolution unit"), Get(exif, "pixel units"));
    if !Truthy(unit) then NoPpi
    else if unit.value.Num? then UnitNotText
    else
      var ratio := Units(LowerAll(unit.value.s));
      if ratio.Missing? then NoPpi
      else if Truthy(Get(exif, "x resolution")) && Truthy(Get(exif, "y resolution")) then
        Average(exif["x resolution"], exif["y resolution"], ratio)
      else if Truthy(Get(exif, "pixels per unit x")) && Truthy(Get(exif, "pixels per unit y")) then
        Average(exif["pixels per unit x"], exif["pixels per unit y"], ratio)
      else NoPpi
  }

  /** The unit field `ppi` reads: 'resolution unit', or 'pixel units' when
      that is not truthy. */
  function UnitField(exif: Exif): Option<Field> {
    Or(Get(exif, "resolution unit"), Get(exif, "pixel units"))
  }

  predicate HasPair(exif: Exif, x: string, y: string) {
    Truthy(Get(exif, x)) && Truthy(Get(exif, y))
  }

  /** `ppi` returns false exactly when there is no truthy unit, the unit
      names no entry of the table, or neither pair of fields is there. */
  lemma NoPpiIff(exif: Exif)
    ensures Ppi(exif) == NoPpi <==>
      || !Truthy(UnitField(exif))
      || (UnitField(exif).value.Str? && Units(LowerAll(UnitField(exif).value.s)).Missing?)
      || (UnitField(exif).value.Str?
          && !HasPair(exif, "x resolution", "y resolution")
          && !HasPair(exif, "pixels per unit x", "pixels per unit y"))
  {
  }

  /** A numeric unit makes `toLowerCase` throw. */
  lemma UnitNotTextIff(exif: Exif)
    ensures Ppi(exif) == UnitNotText <==> Truthy(UnitField(exif)) && UnitField(exif).value.Num?
  {
  }

  /** With a known unit and numeric fields, the result is the average of
      the pair rounded after scaling to inches; the x/y resolution pair
      takes priority over the pixels-per-unit pair. */
  lemma PpiValue(exif: Exif, unit: string, f: real, a: real, b: real)
    requires UnitField(exif) == Some(Str(unit))
    requires Units(LowerAll(unit)) == Factor(f)
    requires if HasPair(exif, "x resolution", "y resolution")
      then ToNumber(exif["x resolution"]) == Some(a) && ToNumber(exif["y resolution"]) == Some(b)
      else (HasPair(exif, "pixels per unit x", "pixels per unit y")
        && ToNumber(exif["pixels per unit x"]) == Some(a) && ToNumber(exif["pixels per unit y"]) == Some(b))
    ensures f == 1.0 || f == METERS_PER_INCH
    ensures Ppi(exif) == Pixels(Round((a + b) / 2.0 * f))
    ensures (a + b) / 2.0 * f - 0.5 < Ppi(exif).ppi as real <= (a + b) / 2.0 * f + 0.5
  {
  }

  /** While the x/y resolution pair is there, the pixels-per-unit fields
      do not matter. */
  lemma ResolutionPairFirst(exif: Exif, key: string, v: Field)
    requires HasPair(exif, "x resolution", "y resolution")
    requires key == "pixels per unit x" || key == "pixels per unit y"
    ensures Ppi(exif[key := v]) == Ppi(exif)
  {
    assert Get(exif[key := v], "x resolution") == Get(exif, "x resolution");
    assert Get(exif[key := v], "y resolution") == Get(exif, "y resolution");
    assert Get(exif[key := v], "resolution unit") == Get(exif, "resolution unit");
    assert Get(exif[key := v], "pixel units") == Get(exif, "pixel units");
  }

  /** 300 pixels per inch, in inches. */
  lemma InchesExample()
    ensures Ppi(map["resolution unit" := Str("inches"), "x resolution" := Num(300.0), "y resolution" := Num(300.0)]) == Pixels(300)
  {
  }

  /** 3937 pixels per meter is 99.9998 per inch, which rounds to 100; the
      unit is lower-cased first. */
  lemma MetersExample()
    ensures Ppi(map["pixel units" := Str("Meters"), "pixels per unit x" := Num(3937.0), "pixels per unit y" := Num(3937.0)]) == Pixels(100)
  {
    var e := map["pixel units" := Str("Meters"), "pixels per unit x" := Num(3937.0), "pixels per unit y" := Num(3937.0)];
    assert LowerAll("Meters") == "meters";
    assert !Truthy(Get(e, "resolution unit"));
    assert !Truthy(Get(e, "x resolution"));
  }

  /** Resolutions given as strings of digits. */
  lemma DigitStringsExample()
    ensures Ppi(map["resolution unit" := Str("inches"), "x resolution" := Str("72"), "y resolution" := Str("72")]) == Pixels(72)
  {
    var e := map["resolution unit" := Str("inches"), "x resolution" := Str("72"), "y resolution" := Str("72")];
    SeventyTwo();
    assert LowerAll("inches") == "inches";
    PpiValue(e, "inches", 1.0, 72.0, 72.0);
  }

  /** The numeral "72" is the number 72. */
  lemma SeventyTwo()
    ensures ToNumber(Str("72")) == Some(72.0)
  {
    assert AllDigits("72");
    assert "72"[..1] == "7";
    assert Digits("72") == 72;
  }

  /** A point may close or open a numeral: "5." is 5 and ".5" is 0.5. */
  lemma PointAtEitherEnd()
    ensures ToNumber(Str("5.")) == Some(5.0)
    ensures ToNumber(Str(".5")) == Some(0.5)
  {
    var a, b := "5.", ".5";
    assert a[1] == '.' && !AllDigits(a);
    assert PointAt(a[1..]) == 0 && PointAt(a) == 1;
    assert a[..1] == "5" && a[2..] == [];
    assert Digits("5") == 5 && Digits([]) == 0;
    assert b[0] == '.' && !AllDigits(b) && PointAt(b) == 0;
    assert b[..0] == [] && b[1..] == "5";
  }

  /** "2.54" is 2.54: the digits after the point are tenths and hundredths. */
  lemma FractionNumeral()
    ensures ToNumber(Str("2.54")) == Some(2.54)
  {
    var s := "2.54";
    assert s[1] == '.' && !AllDigits(s);
    assert PointAt(s[1..]) == 0 && PointAt(s) == 1;
    assert s[..1] == "2" && s[2..] == "54";
    assert "54"[..1] == "5" && Digits("54") == 54;
    assert Power10(2) == 100;
  }

  /** A point alone, an exponent and a sign are not numerals here. */
  lemma NotNumerals()
    ensures ToNumber(Str(".")) == None
    ensures ToNumber(Str("1e3")) == None
    ensures ToNumber(Str("-1")) == None
  {
    var e, m := "1e3", "-1";
    assert e[1] == 'e' && !AllDigits(e);
    assert PointAt(e[2..]) == -1 && PointAt(e[1..]) == -1 && PointAt(e) == -1;
    assert m[0] == '-' && !AllDigits(m);
    assert PointAt(m[1..]) == -1 && PointAt(m) == -1;
  }

  /** An unknown unit is false; a numeric one throws. */
  lemma UnitExamples()
    ensures Ppi(map["resolution unit" := Str("cm"), "x resolution" := Num(300.0), "y resolution" := Num(300.0)]) == NoPpi
    ensures Ppi(map["resolution unit" := Num(2.0)]) == UnitNotText
  {
  }
}
