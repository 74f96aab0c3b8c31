/** `File#is(type)` of component-file: whether a file's MIME type matches a
    pattern that may put `*` in place of the type or the subtype. */
module Mime {
  import opened Wrappers
  import opened Text

  /** The `k`th piece of `s` split on '/', or `undefined` past the end. */
  function Piece(s: string, k: nat): (p: Option<string>)
    ensures p.Some? ==> '/' !in p.value
  {
    var parts := Split(s, '/');
    SplitPiecesFree(s, '/');
    if k < |parts| then Some(parts[k]) else None
  }

  // `is(pattern)` for a file whose type is `fileType`: equal types, the
  // same type before "/*", or the same subtype after "*/". Two pieces that
  // are both missing compare equal.
  function Is(pattern: string, fileType: string): (b: bool)
    ensures pattern == fileType ==> b
    ensures '/' !in pattern && pattern != "*" ==> (b <==> pattern == fileType)
  {
    PiecesOfBare(pattern);
    || pattern == fileType
    || (Piece(pattern, 0) == Piece(fileType, 0) && Piece(pattern, 1) == Some("*"))
    || (Piece(pattern, 1) == Piece(fileType, 1) && Piece(pattern, 0) == Some("*"))
  }

  /** A type written `top/sub`, with no further slash. */
  function Slashed(top: string, sub: string): string {
    top + ['/'] + sub
  }

  lemma PiecesOfSlashed(top: string, sub: string)
    requires '/' !in top && '/' !in sub
    ensures Split(Slashed(top, sub), '/') == [top, sub]
    ensures Piece(Slashed(top, sub), 0) == Some(top) && Piece(Slashed(top, sub), 1) == Some(sub)
  {
    SplitAround(top, '/', sub);
    SplitWhole(top, '/');
    SplitWhole(sub, '/');
  }

  lemma PiecesOfBare(s: string)
    ensures '/' !in s ==> Piece(s, 0) == Some(s) && Piece(s, 1) == None
  {
    if '/' !in s {
      SplitWhole(s, '/');
    }
  }

  /** Every type matches itself. */
  lemma IsReflexive(t: string)
    ensures Is(t, t)
  {
  }

  /** For `top/sub` patterns and types, a match is an equal type, a `*`
      subtype under the same type, or a `*` type over the same subtype. */
  lemma IsSlashed(a: string, b: string, c: string, d: string)
    requires '/' !in a && '/' !in b && '/' !in c && '/' !in d
    ensures Is(Slashed(a, b), Slashed(c, d)) <==>
      (a == c && b == d) || (a == c && b == "*") || (b == d && a == "*")
  {
    PiecesOfSlashed(a, b);
    PiecesOfSlashed(c, d);
    if Slashed(a, b) == Slashed(c, d) {
      assert a == c && b == d;
    }
  }

  // "*/*" does not match a type whose parts are not themselves "*".
  lemma StarStarIsNarrow(c: string, d: string)
    requires '/' !in c && '/' !in d
    requires c != "*" && d != "*"
    ensures !Is(Slashed("*", "*"), Slashed(c, d))
  {
    IsSlashed("*", "*", c, d);
  }

  /** A bare `*` matches every type without a slash, and no type with one
      other than itself. */
  lemma BareStar(fileType: string)
    ensures '/' !in fileType ==> Is("*", fileType)
    ensures forall c, d :: '/' !in c && '/' !in d ==> !Is("*", Slashed(c, d))
  {
    PiecesOfBare("*");
    if '/' !in fileType {
      PiecesOfBare(fileType);
    }
    forall c, d | '/' !in c && '/' !in d
      ensures !Is("*", Slashed(c, d))
    {
      PiecesOfSlashed(c, d);
      assert '/' in Slashed(c, d);
    }
  }
}
