/** JavaScript's `String.prototype.split` with a one-character separator and
    `Array.prototype.join`, on strings as sequences of characters. Both are
    defined from the right-hand end, the order in which a left-to-right loop
    builds its result. */
module Text {

  /** `s.split(sep)`: the pieces between the separators, in order; the empty
      string splits into one empty piece. */
  function Split(s: string, sep: char): (parts: seq<string>)
    ensures |parts| >= 1
    decreases |s|
  {
    if s == [] then [""]
    else
      var init := Split(s[..|s| - 1], sep);
      var c := s[|s| - 1];
      if c == sep then init + [""] else ExtendLast(init, c)
  }

  /** `parts` with `c` appended to its last piece. */
  function ExtendLast(parts: seq<string>, c: char): (r: seq<string>)
    requires |parts| >= 1
    ensures |r| == |parts|
  {
    parts[..|parts| - 1] + [parts[|parts| - 1] + [c]]
  }

  /** `parts.join(sep)`: it starts with the first piece and ends with the
      last. */
  function Join(parts: seq<string>, sep: string): (r: string)
    ensures |parts| >= 1 ==> |parts[0]| <= |r| && r[..|parts[0]|] == parts[0]
    ensures |parts| >= 1 ==> |parts[|parts| - 1]| <= |r| && r[|r| - |parts[|parts| - 1]|..] == parts[|parts| - 1]
    decreases |parts|
  {
    if parts == [] then ""
    else if |parts| == 1 then parts[0]
    else Join(parts[..|parts| - 1], sep) + sep + parts[|parts| - 1]
  }

  /** `s` with every occurrence of `c` deleted. */
  function Remove(s: string, c: char): (r: string)
    ensures c !in r
    decreases |s|
  {
    if s == [] then []
    else if s[|s| - 1] == c then Remove(s[..|s| - 1], c)
    else Remove(s[..|s| - 1], c) + [s[|s| - 1]]
  }

  /** One more character at the end: a new piece, or a longer last piece. */
  lemma SplitSnoc(p: string, c: char, sep: char)
    ensures Split(p + [c], sep) ==
      if c == sep then Split(p, sep) + [""] else ExtendLast(Split(p, sep), c)
  {
    assert (p + [c])[..|p|] == p;
  }

  lemma ExtendLastAppend(x: seq<string>, y: seq<string>, c: char)
    requires |y| >= 1
    ensures ExtendLast(x + y, c) == x + ExtendLast(y, c)
  {
    assert (x + y)[..|x + y| - 1] == x + y[..|y| - 1];
  }

  /** Joining a longer sequence adds the separator and the new last piece. */
  lemma JoinSnoc(parts: seq<string>, last: string, sep: string)
    requires |parts| >= 1
    ensures Join(parts + [last], sep) == Join(parts, sep) + sep + last
  {
    assert (parts + [last])[..|parts|] == parts;
  }

  /** Extending the last piece extends the join by the same character. */
  lemma JoinExtendLast(parts: seq<string>, c: char, sep: string)
    requires |parts| >= 1
    ensures Join(ExtendLast(parts, c), sep) == Join(parts, sep) + [c]
  {
    if |parts| == 1 {
      assert ExtendLast(parts, c) == [parts[0] + [c]];
    } else {
      var front, last := parts[..|parts| - 1], parts[|parts| - 1];
      assert parts == front + [last];
      JoinSnoc(front, last, sep);
      assert ExtendLast(parts, c) == front + [last + [c]];
      JoinSnoc(front, last + [c], sep);
    }
  }

  /** Joining the pieces back with the separator restores the string. */
  lemma {:induction false} JoinSplit(s: string, sep: char)
    ensures Join(Split(s, sep), [sep]) == s
    decreases |s|
  {
    if s != [] {
      var p, c := s[..|s| - 1], s[|s| - 1];
      var init := Split(p, sep);
      JoinSplit(p, sep);
      assert s == p + [c];
      SplitSnoc(p, c, sep);
      if c == sep {
        JoinSnoc(init, "", [sep]);
      } else {
        JoinExtendLast(init, c, [sep]);
      }
    }
  }

  /** No piece contains the separator. */
  lemma {:induction false} SplitPiecesFree(s: string, sep: char)
    ensures forall i :: 0 <= i < |Split(s, sep)| ==> sep !in Split(s, sep)[i]
    decreases |s|
  {
    if s != [] {
      SplitPiecesFree(s[..|s| - 1], sep);
    }
  }

  /** A string without the separator is a single piece. */
  lemma {:induction false} SplitWhole(s: string, sep: char)
    requires sep !in s
    ensures Split(s, sep) == [s]
    decreases |s|
  {
    if s != [] {
      var p, c := s[..|s| - 1], s[|s| - 1];
      assert s == p + [c];
      assert sep !in p && c != sep;
      SplitWhole(p, sep);
      assert Split(s, sep) == ExtendLast([p], c);
    }
  }

  /** Splitting at a separator splits the two sides independently. */
  lemma {:induction false} SplitAround(a: string, sep: char, b: string)
    ensures Split(a + [sep] + b, sep) == Split(a, sep) + Split(b, sep)
    decreases |b|
  {
    if b == [] {
      assert a + [sep] + b == a + [sep];
      SplitSnoc(a, sep, sep);
    } else {
      var b', c := b[..|b| - 1], b[|b| - 1];
      SplitAround(a, sep, b');
      assert b == b' + [c];
      assert a + [sep] + b == (a + [sep] + b') + [c];
      SplitSnoc(a + [sep] + b', c, sep);
      SplitSnoc(b', c, sep);
      var sa, sb := Split(a, sep), Split(b', sep);
      if c == sep {
        assert (sa + sb) + [""] == sa + (sb + [""]);
      } else {
        ExtendLastAppend(sa, sb, c);
      }
    }
  }

  /** Splitting a join of separator-free pieces gives the pieces back. */
  lemma {:induction false} SplitJoin(parts: seq<string>, sep: char)
    requires |parts| >= 1
    requires forall i :: 0 <= i < |parts| ==> sep !in parts[i]
    ensures Split(Join(parts, [sep]), sep) == parts
    decreases |parts|
  {
    if |parts| == 1 {
      SplitWhole(parts[0], sep);
    } else {
      var init, last := parts[..|parts| - 1], parts[|parts| - 1];
      assert parts == init + [last];
      JoinSnoc(init, last, [sep]);
      SplitJoin(init, sep);
      SplitWhole(last, sep);
      SplitAround(Join(init, [sep]), sep, last);
    }
  }

  /** One more character at the end: deleted when it is `c`, kept otherwise. */
  lemma RemoveSnoc(p: string, x: char, c: char)
    ensures Remove(p + [x], c) == if x == c then Remove(p, c) else Remove(p, c) + [x]
  {
    assert (p + [x])[..|p|] == p;
  }

  /** Joining the pieces with nothing between them deletes the separators. */
  lemma {:induction false} ConcatSplit(s: string, sep: char)
    ensures Join(Split(s, sep), "") == Remove(s, sep)
    decreases |s|
  {
    if s != [] {
      var p, c := s[..|s| - 1], s[|s| - 1];
      var init := Split(p, sep);
      ConcatSplit(p, sep);
      assert s == p + [c];
      SplitSnoc(p, c, sep);
      RemoveSnoc(p, c, sep);
      if c == sep {
        JoinSnoc(init, "", "");
      } else {
        JoinExtendLast(init, c, "");
      }
    }
  }
}
