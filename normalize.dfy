/** `require.normalize(curr, path)` of the module loader: resolving a
    relative module path against the directory of the requiring module. */
module Normalize {
  import opened Text

  /** How many ".." pieces `ps` holds. */
  function DotDots(ps: seq<string>): (n: nat)
    ensures n <= |ps|
  {
    if ps == [] then 0 else DotDots(ps[..|ps| - 1]) + (if ps[|ps| - 1] == ".." then 1 else 0)
  }

  /** A piece that names a directory or file: not "..", "." or empty. */
  predicate Named(p: string) {
    p != ".." && p != "." && p != ""
  }

  /** The named pieces of `ps`, in order. */
  function NamedPieces(ps: seq<string>): (r: seq<string>)
    ensures forall i :: 0 <= i < |r| ==> Named(r[i])
  {
    if ps == [] then []
    else NamedPieces(ps[..|ps| - 1]) + (if Named(ps[|ps| - 1]) then [ps[|ps| - 1]] else [])
  }

  /** `base` with its last `n` pieces popped; popping an empty array does
      nothing. */
  function PopN(base: seq<string>, n: nat): (r: seq<string>)
    ensures r <= base
    ensures |r| == if n <= |base| then |base| - n else 0
  {
    base[..if n <= |base| then |base| - n else 0]
  }

  /** One more `curr.pop()`: the last piece goes, and an empty array stays
      empty. */
  lemma PopNStep(base: seq<string>, n: nat)
    ensures PopN(base, n + 1) ==
      if PopN(base, n) == [] then [] else PopN(base, n)[..|PopN(base, n)| - 1]
  {
  }

  /** What `normalize` returns: a path not starting with '.' as it is; else
      the requiring module's directory with one piece popped per ".." of
      `path`, wherever it stands, followed by the named pieces of `path`. */
  function Resolved(curr: string, path: string): (r: string)
    ensures path != [] && path[0] == '.' && NamedPieces(Split(path, '/')) != [] ==>
      var names := NamedPieces(Split(path, '/'));
      var last := names[|names| - 1];
      |last| <= |r| && r[|r| - |last|..] == last
  {
    if path == [] || path[0] != '.' then path
    else
      var ps := Split(path, '/');
      Join(PopN(Split(curr, '/'), DotDots(ps)) + NamedPieces(ps), "/")
  }

  /** `require.normalize`: a loop over the pieces of `path` that pops the
      directory on "..", skips "." and empty pieces and keeps the rest. */
  method Normalize(curr: string, path: string) returns (r: string)
    ensures r == Resolved(curr, path)
  {
    if path == [] || path[0] != '.' {
      return path;
    }
    var dir := Split(curr, '/');
    var ps := Split(path, '/');
    var segs: seq<string> := [];
    for i := 0 to |ps|
      invariant dir == PopN(Split(curr, '/'), DotDots(ps[..i]))
      invariant segs == NamedPieces(ps[..i])
    {
      assert ps[..i + 1][..i] == ps[..i];
      if ps[i] == ".." {
        if dir != [] {
          dir := dir[..|dir| - 1];
        }
      } else if ps[i] != "." && ps[i] != "" {
        segs := segs + [ps[i]];
      }
    }
    assert ps[..|ps|] == ps;
    r := Join(dir + segs, "/");
  }

  /** A path that does not start with '.' is returned unchanged. */
  lemma NotRelativeUnchanged(curr: string, path: string)
    requires path == [] || path[0] != '.'
    ensures Resolved(curr, path) == path
  {
  }

  /** Appending "/p" to a path appends the piece `p`. */
  lemma SplitSnocPiece(x: string, p: string)
    requires '/' !in p
    ensures Split(x + ['/'] + p, '/') == Split(x, '/') + [p]
  {
    SplitAround(x, '/', p);
    SplitWhole(p, '/');
  }

  lemma CountsSnoc(ps: seq<string>, p: string)
    ensures DotDots(ps + [p]) == DotDots(ps) + (if p == ".." then 1 else 0)
    ensures NamedPieces(ps + [p]) == NamedPieces(ps) + (if Named(p) then [p] else [])
  {
    assert (ps + [p])[..|ps|] == ps;
  }

  /** The pieces of a path "d/p" where `d` is "." or "..". */
  lemma TwoPieces(d: string, p: string)
    requires d == "." || d == ".."
    requires '/' !in p
    ensures Split(d + ['/'] + p, '/') == [d, p]
    ensures DotDots([d, p]) == (if d == ".." then 1 else 0) + (if p == ".." then 1 else 0)
    ensures NamedPieces([d, p]) == if Named(p) then [p] else []
  {
    SplitWhole(d, '/');
    SplitSnocPiece(d, p);
    CountsSnoc([], d);
    CountsSnoc([d], p);
    assert [] + [d] == [d];
    assert [d] + [p] == [d, p];
  }

  /** "./name" resolves to the name inside the requiring directory. */
  lemma SameDirectory(curr: string, name: string)
    requires Named(name) && '/' !in name
    ensures Resolved(curr, "." + ['/'] + name) == curr + ['/'] + name
  {
    TwoPieces(".", name);
    var base := Split(curr, '/');
    assert PopN(base, 0) == base;
    JoinSnoc(base, name, "/");
    JoinSplit(curr, '/');
    assert [('/')] == "/";
  }

  /** "../name" resolves to the name beside the requiring directory. */
  lemma ParentDirectory(curr: string, name: string)
    requires Named(name) && '/' !in name
    ensures var base := Split(curr, '/');
      Resolved(curr, ".." + ['/'] + name) == Join(base[..|base| - 1] + [name], "/")
  {
    TwoPieces("..", name);
  }

  /** A ".." after a named piece still pops the requiring directory: it
      does not cancel the piece before it. */
  lemma DotDotPopsDirectory(curr: string, a: string, b: string)
    requires Named(a) && '/' !in a && Named(b) && '/' !in b
    ensures var base := Split(curr, '/');
      Resolved(curr, "." + ['/'] + a + ['/'] + ".." + ['/'] + b) == Join(base[..|base| - 1] + [a, b], "/")
  {
    DotDotPathPieces(a, b);
    DotDotPathCounts(a, b);
    ResolvedFromPieces(curr, "." + ['/'] + a + ['/'] + ".." + ['/'] + b, [".", a, "..", b]);
  }

  lemma DotDotPathPieces(a: string, b: string)
    requires '/' !in a && '/' !in b
    ensures Split("." + ['/'] + a + ['/'] + ".." + ['/'] + b, '/') == [".", a, "..", b]
  {
    var x2 := "." + ['/'] + a;
    var x3 := x2 + ['/'] + "..";
    TwoPieces(".", a);
    SplitSnocPiece(x2, "..");
    SplitSnocPiece(x3, b);
  }

  lemma DotDotPathCounts(a: string, b: string)
    requires Named(a) && '/' !in a && Named(b)
    ensures DotDots([".", a, "..", b]) == 1 && NamedPieces([".", a, "..", b]) == [a, b]
  {
    var p1, p2, p3 := ["."], [".", a], [".", a, ".."];
    CountsSnoc([], ".");
    assert [] + ["."] == p1;
    CountsSnoc(p1, a);
    assert p1 + [a] == p2;
    CountsSnoc(p2, "..");
    assert p2 + [".."] == p3;
    CountsSnoc(p3, b);
    assert p3 + [b] == [".", a, "..", b];
  }

  lemma ResolvedFromPieces(curr: string, path: string, ps: seq<string>)
    requires path != [] && path[0] == '.' && Split(path, '/') == ps
    ensures Resolved(curr, path) == Join(PopN(Split(curr, '/'), DotDots(ps)) + NamedPieces(ps), "/")
  {
  }
}
