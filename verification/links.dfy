/** How a browser follows the relative links written into the generated pages:
    each leading `../` climbs one directory, never above the docset root, and
    the rest is appended (the dot-segment removal of section 5.2.4 of RFC 3986,
    for the links the generator produces).
 */
module Links {
  import opened Results
  import opened Strs

  /** A page directory inside the docset: empty for the root, otherwise a path
      ending in `/`. */
  predicate IsDir(d: string) {
    d == "" || d[|d| - 1] == '/'
  }

  /** The directory one level up; the root is its own parent. */
  function ParentDir(d: string): (r: string)
    requires IsDir(d)
    ensures IsDir(r)
    ensures d != "" ==> Count(r, '/') + 1 == Count(d, '/')
    ensures StartsWith(d, r)
  {
    if d == "" then ""
    else
      var e := d[..|d| - 1];
      assert d == e + "/";
      match LastIndexOf(e, '/')
      case None =>
        assert Count(e, '/') == 0;
        ""
      case Some(i) =>
        assert e == e[..i + 1] + e[i + 1..];
        assert Count(e[i + 1..], '/') == 0;
        e[..i + 1]
  }

  /** The file a relative link `rel` designates when followed from a page in
      directory `d`. */
  function Resolve(d: string, rel: string): string
    requires IsDir(d)
    decreases |rel|
  {
    if StartsWith(rel, "../") then Resolve(ParentDir(d), rel[3..]) else d + rel
  }

  /** `"../".repeat(path.split("/").length - 1)`: one `../` per `/` in `path`
      (genstd.js and index.cjs build their root prefix this way). */
  function DotsToRoot(path: string): (r: string)
    ensures r == Repeat("../", Count(path, '/'))
  {
    Repeat("../", |Split(path, '/')| - 1)
  }

  /** Climbing once per `/` of a page directory reaches the docset root, so a
      link made of the root prefix and a root-relative path lands on that path. */
  lemma ClimbToRoot(d: string, q: string)
    requires IsDir(d)
    requires !StartsWith(q, "../")
    ensures Resolve(d, DotsToRoot(d) + q) == q
  {
    Climb(d, Count(d, '/'), q);
  }

  /** A link that does not climb is appended to the directory. */
  lemma ResolveDown(d: string, rel: string)
    requires IsDir(d) && !StartsWith(rel, "../")
    ensures Resolve(d, rel) == d + rel
  {
  }

  /** Climbing `n` levels from a directory `n` levels deep. */
  lemma {:induction false} Climb(d: string, n: nat, q: string)
    requires IsDir(d) && Count(d, '/') == n
    requires !StartsWith(q, "../")
    ensures Resolve(d, Repeat("../", n) + q) == q
    decreases n
  {
    if n > 0 {
      var pd := ParentDir(d);
      var up := Repeat("../", n - 1);
      assert d != "" by { RootDir(d); }
      assert Repeat("../", n) == "../" + up;
      assert Repeat("../", n) + q == "../" + (up + q);
      ResolveUp(d, up + q);
      Climb(pd, n - 1, q);
    } else {
      RootDir(d);
      assert Repeat("../", n) + q == q;
    }
  }

  /** A page directory without `/` is the root. */
  lemma RootDir(d: string)
    requires IsDir(d)
    ensures d == "" <==> Count(d, '/') == 0
  {
  }

  /** A leading `../` climbs to the parent directory. */
  lemma ResolveUp(d: string, rest: string)
    requires IsDir(d)
    ensures Resolve(d, "../" + rest) == Resolve(ParentDir(d), rest)
  {
    var rel := "../" + rest;
    assert rel[..3] == "../" && rel[3..] == rest;
  }
}
