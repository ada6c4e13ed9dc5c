/** `std::path::Path` on Unix, as far as the program uses it: a path is a
    sequence of components, and `starts_with` compares whole components. */
module Paths {
  import opened Wrappers
  import opened Text

  datatype Component = RootDir | CurDir | ParentDir | Normal(name: string)

  /** The components of the pieces of a path between '/' separators: empty
      pieces (repeated or trailing separators) and "." disappear. */
  function Normals(pieces: seq<string>): seq<Component> {
    if pieces == [] then []
    else
      var rest := Normals(pieces[1..]);
      if pieces[0] == "" || pieces[0] == "." then rest
      else if pieces[0] == ".." then [ParentDir] + rest
      else [Normal(pieces[0])] + rest
  }

  /** `Path::components`: a leading '/' is the root, a leading "." of a
      relative path is kept as the current directory, every other "." and
      every empty piece is dropped. */
  function Components(p: string): seq<Component> {
    if |p| > 0 && p[0] == '/' then [RootDir] + Normals(Split(p[1..], '/'))
    else
      var pieces := Split(p, '/');
      if pieces[0] == "." then [CurDir] + Normals(pieces[1..]) else Normals(pieces)
  }

  /** `path.starts_with(base)`: the components of `base` are a prefix of
      those of `path`. */
  predicate StartsWith(path: string, base: string) {
    Components(base) <= Components(path)
  }

  /** `path.starts_with(p)` for some `p` in `bases` (`Iterator::any`). */
  predicate UnderAny(path: string, bases: seq<string>) {
    |bases| > 0 && (StartsWith(path, bases[0]) || UnderAny(path, bases[1..]))
  }

  lemma {:induction false} UnderAnyExists(path: string, bases: seq<string>)
    ensures UnderAny(path, bases) <==> exists i :: 0 <= i < |bases| && StartsWith(path, bases[i])
  {
    if |bases| > 0 {
      UnderAnyExists(path, bases[1..]);
      if !StartsWith(path, bases[0]) && exists i :: 0 <= i < |bases| && StartsWith(path, bases[i]) {
        var i :| 0 <= i < |bases| && StartsWith(path, bases[i]);
        assert bases[1..][i - 1] == bases[i];
      }
    }
  }

  /** Joins the names of normal components with '/'. */
  function JoinNames(cs: seq<Component>): string {
    if cs == [] then ""
    else
      var name := if cs[0].Normal? then cs[0].name else "";
      if |cs| == 1 then name else name + "/" + JoinNames(cs[1..])
  }

  /** `path.strip_prefix(base)`: the rest of `path` after the components of
      `base`, or failure when `path` does not start with `base`. */
  function StripPrefix(path: string, base: string): (r: Option<string>)
    ensures r.Some? <==> StartsWith(path, base)
  {
    if StartsWith(path, base) then
      Some(JoinNames(Components(path)[|Components(base)|..]))
    else None
  }

  /** The pieces of "a/" followed by `rest`. */
  lemma SplitAfterA(rest: string)
    ensures Split("a/" + rest, '/') == ["a"] + Split(rest, '/')
  {
    var s := "a/" + rest;
    assert IndexOf(s, '/') == 1;
    assert s[..1] == "a" && s[2..] == rest;
  }

  /** One piece in front of others. */
  lemma NormalsCons(p: string, rest: seq<string>)
    ensures Normals([p] + rest) ==
      if p == "" || p == "." then Normals(rest)
      else if p == ".." then [ParentDir] + Normals(rest)
      else [Normal(p)] + Normals(rest)
  {
    assert ([p] + rest)[1..] == rest;
  }

  /** A relative path not starting with "." has the components of its
      pieces. */
  lemma ComponentsOfPieces(p: string, pieces: seq<string>)
    requires |p| > 0 && p[0] != '/' && Split(p, '/') == pieces && pieces[0] != "."
    ensures Components(p) == Normals(pieces)
  {
  }

  /** The pieces of "a/b". */
  lemma SplitAB()
    ensures Split("a/b", '/') == ["a", "b"]
  {
    assert IndexOf("b", '/') == 1;
    SplitAfterA("b");
    assert "a/" + "b" == "a/b";
  }

  /** The pieces of "a/bc". */
  lemma SplitABSibling()
    ensures Split("a/bc", '/') == ["a", "bc"]
  {
    assert IndexOf("bc", '/') == 2;
    SplitAfterA("bc");
    assert "a/" + "bc" == "a/bc";
  }

  /** The pieces of "a/b/c". */
  lemma SplitABC()
    ensures Split("a/b/c", '/') == ["a", "b", "c"]
  {
    assert IndexOf("c", '/') == 1;
    assert IndexOf("b/c", '/') == 1 && "b/c"[..1] == "b" && "b/c"[2..] == "c";
    SplitAfterA("b/c");
    assert "a/" + "b/c" == "a/b/c";
  }

  /** The pieces of "a/b/": a trailing empty piece. */
  lemma SplitABSlash()
    ensures Split("a/b/", '/') == ["a", "b", ""]
  {
    assert IndexOf("b/", '/') == 1 && "b/"[..1] == "b" && "b/"[2..] == "";
    SplitAfterA("b/");
    assert "a/" + "b/" == "a/b/";
  }

  /** The components of the pieces of "a/b". */
  lemma NormalsAB()
    ensures Normals(["a", "b"]) == [Normal("a"), Normal("b")]
  {
    NormalsCons("b", []);
    NormalsCons("a", ["b"]);
  }

  /** The components of the pieces of "a/bc". */
  lemma NormalsABSibling()
    ensures Normals(["a", "bc"]) == [Normal("a"), Normal("bc")]
  {
    NormalsCons("bc", []);
    NormalsCons("a", ["bc"]);
  }

  /** The components of the pieces of "a/b/c". */
  lemma NormalsABC()
    ensures Normals(["a", "b", "c"]) == [Normal("a"), Normal("b"), Normal("c")]
  {
    NormalsCons("c", []);
    NormalsCons("b", ["c"]);
    NormalsCons("a", ["b", "c"]);
  }

  /** The components of the pieces of "a/b/": the empty piece is dropped. */
  lemma NormalsABSlash()
    ensures Normals(["a", "b", ""]) == [Normal("a"), Normal("b")]
  {
    NormalsCons("", []);
    NormalsCons("b", [""]);
    NormalsCons("a", ["b", ""]);
  }

  /** The components of "a/b". */
  lemma ComponentsAB()
    ensures Components("a/b") == [Normal("a"), Normal("b")]
  {
    SplitAB();
    NormalsAB();
    ComponentsOfPieces("a/b", ["a", "b"]);
  }

  /** Components are compared whole: "a/bc" is not under "a/b". */
  lemma SiblingNotUnder()
    ensures !StartsWith("a/bc", "a/b")
  {
    SplitABSibling();
    NormalsABSibling();
    ComponentsOfPieces("a/bc", ["a", "bc"]);
    ComponentsAB();
    assert Components("a/b")[1] != Components("a/bc")[1];
  }

  /** "a/b/c" is under "a/b". */
  lemma ChildUnder()
    ensures StartsWith("a/b/c", "a/b")
  {
    SplitABC();
    NormalsABC();
    ComponentsOfPieces("a/b/c", ["a", "b", "c"]);
    ComponentsAB();
  }

  /** A trailing separator changes nothing: "a/b/" is under "a/b". */
  lemma TrailingSlashUnder()
    ensures StartsWith("a/b/", "a/b")
  {
    SplitABSlash();
    NormalsABSlash();
    ComponentsOfPieces("a/b/", ["a", "b", ""]);
    ComponentsAB();
  }

  /** Every path starts with the empty path, which has no components. */
  lemma StartsWithEmpty(path: string)
    ensures StartsWith(path, "")
  {
    assert Split("", '/') == [""];
  }
}
