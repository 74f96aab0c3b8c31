/** `spaces(str)` of component-exif: a tag name in camel case becomes the
    lower-case words the `ppi` lookup uses as keys. */
module Spaces {
  import opened Casing

  /** The characters the class `\s` matches. */
  function IsSpace(c: char): (b: bool)
    ensures b ==> !IsUpper(c) && !IsLower(c)
    ensures c == ' ' || c == '\t' || c == '\n' || c == '\r' ==> b
  {
    var n := c as int;
    || (0x09 <= n <= 0x0d) || n == 0x20 || n == 0xa0 || n == 0x1680
    || (0x2000 <= n <= 0x200a) || n == 0x2028 || n == 0x2029 || n == 0x202f
    || n == 0x205f || n == 0x3000 || n == 0xfeff
  }

  /** The first `replace`: scanning left to right, at each position the
      first alternative that matches wins. An upper-case letter before a
      lower-case one becomes a space and the pair lower-cased; a lower-case
      letter before an upper-case one gets a space between and the second
      lower-cased; any other upper-case letter is lower-cased. */
  function Spaced(s: string): (r: string)
    ensures |r| >= |s|
    decreases |s|
  {
    if s == [] then [] else Replacement(s) + Spaced(s[Matched(s)..])
  }

  /** How many characters the match at the start of `s` takes. */
  function Matched(s: string): (n: nat)
    requires s != []
    ensures 1 <= n <= |s|
  {
    if |s| >= 2 && ((IsUpper(s[0]) && IsLower(s[1])) || (IsLower(s[0]) && IsUpper(s[1]))) then 2 else 1
  }

  /** What the match at the start of `s`, or its first character when no
      alternative matches there, is replaced by. */
  function Replacement(s: string): (r: string)
    requires s != []
    ensures |r| == 2 * Matched(s) - 1
    ensures NoUpper(r)
  {
    if |s| >= 2 && IsUpper(s[0]) && IsLower(s[1]) then [' ', Lower(s[0]), s[1]]
    else if |s| >= 2 && IsLower(s[0]) && IsUpper(s[1]) then [s[0], ' ', Lower(s[1])]
    else [Lower(s[0])]
  }

  function TrimStart(s: string): (r: string)
    ensures |r| <= |s| && r == s[|s| - |r|..]
    ensures r != [] ==> !IsSpace(r[0])
    decreases |s|
  {
    if s != [] && IsSpace(s[0]) then TrimStart(s[1..]) else s
  }

  function TrimEnd(s: string): (r: string)
    ensures |r| <= |s| && r == s[..|r|]
    ensures r != [] ==> !IsSpace(r[|r| - 1])
    decreases |s|
  {
    if s != [] && IsSpace(s[|s| - 1]) then TrimEnd(s[..|s| - 1]) else s
  }

  /** The second `replace`: leading and trailing white space removed. */
  function Trim(s: string): (r: string)
    ensures |r| <= |s|
    ensures r != [] ==> !IsSpace(r[0]) && !IsSpace(r[|r| - 1])
  {
    var u := TrimStart(s);
    var r := TrimEnd(u);
    assert r != [] ==> r[0] == u[0];
    r
  }

  /** `spaces(str)`: the words of a camel-case name, in lower case, with
      no white space at either end. */
  function Spaces(s: string): (r: string)
    ensures NoUpper(r)
    ensures r != [] ==> !IsSpace(r[0]) && !IsSpace(r[|r| - 1])
  {
    SpacedNoUpper(s);
    TrimNoUpper(Spaced(s));
    Trim(Spaced(s))
  }

  /** `s` without any white space. */
  function Letters(s: string): (r: string)
    ensures forall c :: c in r ==> !IsSpace(c)
  {
    if s == [] then [] else (if IsSpace(s[0]) then [] else [s[0]]) + Letters(s[1..])
  }

  predicate NoUpper(s: string) {
    forall i :: 0 <= i < |s| ==> !IsUpper(s[i])
  }

  /** The first pass leaves no upper-case letter. */
  lemma {:induction false} SpacedNoUpper(s: string)
    ensures NoUpper(Spaced(s))
    decreases |s|
  {
    if s != [] {
      SpacedNoUpper(s[Matched(s)..]);
    }
  }

  /** Without upper-case letters there is nothing for the first pass to do. */
  lemma {:induction false} SpacedKeepsLower(s: string)
    requires NoUpper(s)
    ensures Spaced(s) == s
    decreases |s|
  {
    if s != [] {
      SpacedKeepsLower(s[1..]);
      assert s == [s[0]] + s[1..];
    }
  }

  /** Trimming keeps a string free of upper-case letters. */
  lemma TrimNoUpper(t: string)
    requires NoUpper(t)
    ensures NoUpper(Trim(t))
  {
    var u := TrimStart(t);
    var w := TrimEnd(u);
    assert u == t[|t| - |u|..];
    forall i | 0 <= i < |u|
      ensures !IsUpper(u[i])
    {
      assert u[i] == t[|t| - |u| + i];
    }
    assert w == u[..|w|];
    forall i | 0 <= i < |w|
      ensures !IsUpper(w[i])
    {
      assert w[i] == u[i];
    }
  }

  lemma {:induction false} TrimStartIdle(s: string)
    requires s == [] || !IsSpace(s[0])
    ensures TrimStart(s) == s
  {
  }

  /** Trimming twice is trimming once. */
  lemma TrimTwice(s: string)
    ensures Trim(Trim(s)) == Trim(s)
  {
    var r := Trim(s);
    var u := TrimStart(s);
    if r != [] {
      assert r[0] == u[0];
    }
    TrimStartIdle(r);
  }

  /** `spaces` applied to its own output changes nothing. */
  lemma SpacesIdempotent(s: string)
    ensures Spaces(Spaces(s)) == Spaces(s)
  {
    SpacedKeepsLower(Spaces(s));
    TrimTwice(Spaced(s));
  }

  lemma {:induction false} LettersAppend(a: string, b: string)
    ensures Letters(a + b) == Letters(a) + Letters(b)
    decreases |a|
  {
    if a == [] {
      assert a + b == b;
    } else {
      var x := if IsSpace(a[0]) then [] else [a[0]];
      var ab := a + b;
      assert ab != [] && ab[0] == a[0] && ab[1..] == a[1..] + b;
      assert Letters(ab) == x + Letters(a[1..] + b);
      assert Letters(a) == x + Letters(a[1..]);
      LettersAppend(a[1..], b);
      assert x + (Letters(a[1..]) + Letters(b)) == (x + Letters(a[1..])) + Letters(b);
    }
  }

  /** A replacement only lower-cases letters and adds a space. */
  lemma ReplacementLetters(s: string)
    requires s != []
    ensures Letters(Replacement(s)) == Letters(LowerAll(s[..Matched(s)]))
  {
    if Matched(s) == 2 {
      assert LowerAll(s[..2]) == [Lower(s[0]), Lower(s[1])];
    } else {
      assert LowerAll(s[..1]) == [Lower(s[0])];
    }
  }

  lemma LowerAllAppend(a: string, b: string)
    ensures LowerAll(a + b) == LowerAll(a) + LowerAll(b)
  {
  }

  /** The first pass only lower-cases letters and adds spaces. */
  lemma {:induction false} SpacedLetters(s: string)
    ensures Letters(Spaced(s)) == Letters(LowerAll(s))
    decreases |s|
  {
    if s != [] {
      var n := Matched(s);
      SpacedLetters(s[n..]);
      LettersAppend(Replacement(s), Spaced(s[n..]));
      ReplacementLetters(s);
      assert s == s[..n] + s[n..];
      LowerAllAppend(s[..n], s[n..]);
      LettersAppend(LowerAll(s[..n]), LowerAll(s[n..]));
    }
  }

  lemma {:induction false} TrimStartLetters(s: string)
    ensures Letters(TrimStart(s)) == Letters(s)
    decreases |s|
  {
    if s != [] && IsSpace(s[0]) {
      TrimStartLetters(s[1..]);
    }
  }

  lemma {:induction false} TrimEndLetters(s: string)
    ensures Letters(TrimEnd(s)) == Letters(s)
    decreases |s|
  {
    if s != [] && IsSpace(s[|s| - 1]) {
      var p := s[..|s| - 1];
      TrimEndLetters(p);
      assert s == p + [s[|s| - 1]];
      LettersAppend(p, [s[|s| - 1]]);
    }
  }

  /** Apart from white space, `spaces` yields the lower-cased input. */
  lemma SpacesKeepsLetters(s: string)
    ensures Letters(Spaces(s)) == Letters(LowerAll(s))
  {
    SpacedLetters(s);
    TrimStartLetters(Spaced(s));
    TrimEndLetters(TrimStart(Spaced(s)));
  }

  /** One match of the first pass. */
  lemma SpacedStep(s: string, rest: string)
    requires s != [] && s[Matched(s)..] == rest
    ensures Spaced(s) == Replacement(s) + Spaced(rest)
  {
  }

  /** Text that neither starts nor ends with white space is not trimmed. */
  lemma Untrimmed(s: string)
    requires s != [] && !IsSpace(s[0]) && !IsSpace(s[|s| - 1])
    ensures Trim(s) == s
  {
    TrimStartIdle(s);
  }

  predicate AllLower(a: string) {
    forall i :: 0 <= i < |a| ==> IsLower(a[i])
  }

  /** A run of lower-case letters before a lower-case letter passes through
      the first pass untouched. */
  lemma {:induction false} SpacedConcatLower(a: string, b: string)
    requires AllLower(a)
    requires b != [] && IsLower(b[0])
    ensures Spaced(a + b) == a + Spaced(b)
    decreases |a|
  {
    if a == [] {
      assert a + b == b;
    } else {
      var rest := a[1..] + b;
      assert Spaced(a + b) == [a[0]] + Spaced(rest) by {
        assert a + b == [a[0]] + rest;
        assert rest[0] == if |a| == 1 then b[0] else a[1];
        LowerCons(a[0], rest);
      }
      assert Spaced(rest) == a[1..] + Spaced(b) by {
        SpacedConcatLower(a[1..], b);
      }
      ConsAppend(a, Spaced(b));
    }
  }

  /** Putting the head of `a` back in front. */
  lemma ConsAppend(a: string, t: string)
    requires a != []
    ensures [a[0]] + (a[1..] + t) == a + t
  {
    assert a == [a[0]] + a[1..];
  }

  /** A lower-case letter before another is kept as it is. */
  lemma LowerCons(x: char, r: string)
    requires IsLower(x) && r != [] && IsLower(r[0])
    ensures Spaced([x] + r) == [x] + Spaced(r)
  {
    var s := [x] + r;
    assert s[0] == x && s[1] == r[0] && s[1..] == r;
    SpacedStep(s, r);
  }

  /** Lower-case letters have no upper-case letter among them. */
  lemma AllLowerNoUpper(a: string)
    requires AllLower(a)
    ensures NoUpper(a)
  {
    forall i | 0 <= i < |a|
      ensures !IsUpper(a[i])
    {
      assert IsLower(a[i]);
    }
  }

  /** A lower-case letter, a capital, then lower-case letters. */
  lemma LowerCapitalPair(x: char, c: char, b: string)
    requires IsLower(x) && IsUpper(c) && AllLower(b)
    ensures Spaced([x, c] + b) == [x, ' ', Lower(c)] + b
  {
    var tail := [x, c] + b;
    assert tail[0] == x && tail[1] == c && tail[2..] == b;
    SpacedStep(tail, b);
    AllLowerNoUpper(b);
    SpacedKeepsLower(b);
  }

  /** A run of lower-case letters, a capital, then lower-case letters: the
      last letter of the run and the capital become "x y". */
  lemma LowerRunThenCapital(a: string, c: char, b: string)
    requires a != [] && AllLower(a) && IsUpper(c) && AllLower(b)
    ensures Spaced(a + [c] + b) == a + [' ', Lower(c)] + b
  {
    var init, x := a[..|a| - 1], a[|a| - 1];
    LastLetterApart(a, c, b);
    SpacedConcatLower(init, [x, c] + b);
    LowerCapitalPair(x, c, b);
  }

  /** Taking the last letter off a run of lower-case letters. */
  lemma LastLetterApart(a: string, c: char, b: string)
    requires a != [] && AllLower(a)
    ensures AllLower(a[..|a| - 1]) && IsLower(a[|a| - 1])
    ensures a + [c] + b == a[..|a| - 1] + ([a[|a| - 1], c] + b)
    ensures a[..|a| - 1] + ([a[|a| - 1], ' ', Lower(c)] + b) == a + [' ', Lower(c)] + b
  {
    var init := a[..|a| - 1];
    forall i | 0 <= i < |init| ensures IsLower(init[i]) {
      assert init[i] == a[i];
    }
    assert a == init + [a[|a| - 1]];
  }

  /** One step of the first pass over a capital before a lower-case letter. */
  lemma UpperLowerStep(s: string)
    requires |s| >= 2 && IsUpper(s[0]) && IsLower(s[1])
    ensures Spaced(s) == [' ', Lower(s[0]), s[1]] + Spaced(s[2..])
  {
    SpacedStep(s, s[2..]);
  }

  /** A capital and lower-case letters, with more lower-case letters: the
      first pass gives a leading space and the lower-cased word. */
  lemma CapitalWord(c: char, a: string)
    requires IsUpper(c) && a != [] && AllLower(a)
    ensures Spaced([c] + a) == [' ', Lower(c)] + a
  {
    var tail := a[1..];
    FirstLetterApart(c, a);
    UpperLowerStep([c] + a);
    AllLowerNoUpper(tail);
    SpacedKeepsLower(tail);
  }

  /** Taking the first letter off a run of lower-case letters after `c`. */
  lemma FirstLetterApart(c: char, a: string)
    requires a != [] && AllLower(a)
    ensures AllLower(a[1..])
    ensures |[c] + a| >= 2 && ([c] + a)[0] == c && ([c] + a)[1] == a[0] && ([c] + a)[2..] == a[1..]
    ensures [' ', Lower(c), a[0]] + a[1..] == [' ', Lower(c)] + a
  {
    forall i | 0 <= i < |a| - 1 ensures IsLower(a[1..][i]) {
      assert a[1..][i] == a[i + 1];
    }
    assert a == [a[0]] + a[1..];
  }

  /** The first pass over two capitalised words run together, the first
      of two or more letters. */
  lemma TwoWordsLong(c: char, a: string, d: char, b: string)
    requires IsUpper(c) && |a| >= 2 && AllLower(a)
    requires IsUpper(d) && b != [] && AllLower(b)
    ensures Spaced([c] + a + [d] + b) == [' ', Lower(c)] + a + [' ', Lower(d)] + b
  {
    var s, tail := [c] + a + [d] + b, a[1..];
    assert s[0] == c && s[1] == a[0] && s[2..] == tail + [d] + b;
    SpacedStep(s, tail + [d] + b);
    LowerRunThenCapital(tail, d, b);
    Regroup(c, a, d, b);
  }

  lemma Regroup(c: char, a: string, d: char, b: string)
    requires a != []
    ensures [' ', Lower(c), a[0]] + (a[1..] + [' ', Lower(d)] + b) == [' ', Lower(c)] + a + [' ', Lower(d)] + b
  {
    assert a == [a[0]] + a[1..];
  }

  /** The same when the first word is the single letter `x`. */
  lemma TwoWordsShort(c: char, x: char, d: char, b: string)
    requires IsUpper(c) && IsLower(x)
    requires IsUpper(d) && b != [] && AllLower(b)
    ensures Spaced([c, x, d] + b) == [' ', Lower(c), x, ' ', Lower(d)] + b
  {
    var s := [c, x, d] + b;
    assert s[0] == c && s[1] == x && s[2..] == [d] + b;
    SpacedStep(s, [d] + b);
    CapitalWord(d, b);
  }

  /** Two capitalised words run together, such as "ResolutionUnit", become
      the two words in lower case with one space between. */
  lemma TwoWords(c: char, a: string, d: char, b: string)
    requires IsUpper(c) && a != [] && AllLower(a)
    requires IsUpper(d) && b != [] && AllLower(b)
    ensures Spaces([c] + a + [d] + b) == [Lower(c)] + a + [' ', Lower(d)] + b
  {
    if |a| == 1 {
      OneLetterWord(c, a, d, b);
      TwoWordsShort(c, a[0], d, b);
    } else {
      TwoWordsLong(c, a, d, b);
    }
    var w := [Lower(c)] + a + [' ', Lower(d)] + b;
    WordsEnds(c, a, d, b);
    LeadingSpaceTrimmed(w);
  }

  /** The first word as its single letter. */
  lemma OneLetterWord(c: char, a: string, d: char, b: string)
    requires |a| == 1
    ensures [c] + a + [d] + b == [c, a[0], d] + b
    ensures [' ', Lower(c), a[0], ' ', Lower(d)] + b == [' ', Lower(c)] + a + [' ', Lower(d)] + b
  {
  }

  /** The two words after the first pass: a leading space, then letters at
      both ends. */
  lemma WordsEnds(c: char, a: string, d: char, b: string)
    requires IsUpper(c) && IsUpper(d) && b != [] && AllLower(b)
    ensures [' ', Lower(c)] + a + [' ', Lower(d)] + b == " " + ([Lower(c)] + a + [' ', Lower(d)] + b)
    ensures !IsSpace(([Lower(c)] + a + [' ', Lower(d)] + b)[0])
    ensures !IsSpace(b[|b| - 1]) && ([Lower(c)] + a + [' ', Lower(d)] + b)[|a| + |b| + 2] == b[|b| - 1]
  {
    assert IsLower(b[|b| - 1]);
  }

  /** A lone capital before a capitalised word, such as "XResolution",
      becomes its own lower-case word. */
  lemma CapitalThenWord(c: char, d: char, a: string)
    requires IsUpper(c) && IsUpper(d) && a != [] && AllLower(a)
    ensures Spaces([c, d] + a) == [Lower(c), ' ', Lower(d)] + a
  {
    var s := [c, d] + a;
    assert s[0] == c && s[1] == d && s[1..] == [d] + a;
    SpacedStep(s, [d] + a);
    CapitalWord(d, a);
    var w := [Lower(c), ' ', Lower(d)] + a;
    assert Spaced(s) == w;
    assert w[|w| - 1] == a[|a| - 1];
    Untrimmed(w);
  }

  /** "XResolution" becomes the key "x resolution", which `ppi` looks up. */
  lemma XResolutionKey(s: string)
    requires s == "XResolution"
    ensures Spaces(s) == "x resolution"
  {
    var a := "esolution";
    assert s == ['X', 'R'] + a;
    CapitalThenWord('X', 'R', a);
    XResolutionWords(a);
  }

  lemma XResolutionWords(a: string)
    requires a == "esolution"
    ensures [Lower('X'), ' ', Lower('R')] + a == "x resolution"
  {
  }

  /** "ResolutionUnit" becomes the key "resolution unit", which `ppi`
      looks up. */
  lemma ResolutionUnitKey(s: string)
    requires s == "ResolutionUnit"
    ensures Spaces(s) == "resolution unit"
  {
    var a, b := "esolution", "nit";
    assert s == ['R'] + a + ['U'] + b;
    TwoWords('R', a, 'U', b);
    ResolutionUnitWords(a, b);
  }

  lemma ResolutionUnitWords(a: string, b: string)
    requires a == "esolution" && b == "nit"
    ensures [Lower('R')] + a + [' ', Lower('U')] + b == "resolution unit"
  {
  }

  /** One leading space is trimmed off. */
  lemma LeadingSpaceTrimmed(x: string)
    requires x != [] && !IsSpace(x[0]) && !IsSpace(x[|x| - 1])
    ensures Trim(" " + x) == x
  {
    assert (" " + x)[1..] == x;
    Untrimmed(x);
  }
}
