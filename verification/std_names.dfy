/** Naming of API pages in the standard-library generator (genstd.js): the
    `#A;…:` route keys of the documentation web app become dotted names, the
    names become file paths, and links between pages become relative paths.
 */
module StdNames {
  import opened Results
  import opened Strs
  import opened Links

  const MissingRoot := "please pass pkgRootName when using toName"

  /** A key the API key dialect rejects: it starts with `#` but not `#A`. */
  predicate Unsupported(key: string) {
    StartsWith(key, "#") && !StartsWith(key, "#A")
  }

  /** The key without its `#A` prefix, one leading `;` and one trailing `:`. */
  function Body(key: string): string {
    var s0 := if StartsWith(key, "#A") then key[2..] else key;
    var s1 := if StartsWith(s0, ";") then s0[1..] else s0;
    if EndsWith(s1, ":") then s1[..|s1| - 1] else s1
  }

  /** `toName(key, rootPkgName)`: the dotted page name of a route key.  The
      first `:` of the body becomes `.`, and a body starting with `root` gets
      that prefix replaced by the root package name. */
  function ToName(key: string, root: string): (r: Result<string>)
    ensures r.Fail? <==> root == "" || (key != "" && Unsupported(key))
    ensures root == "" ==> r == Fail(MissingRoot)
    ensures root != "" && key == "" ==> r == Ok(root)
  {
    if root == "" then Fail(MissingRoot)
    else if key == "" then Ok(root)
    else if Unsupported(key) then Fail("Unsupported key " + key)
    else Ok(SpellName(Body(key), ':', root))
  }

  /** The name spelled by a key body: the first separator `sep` becomes `.`,
      then a leading `root` becomes the root package name (both with
      `String.prototype.replace`).  The API dialect separates with `:`, the
      older dialect of index.cjs and old/gen.js with `;`. */
  function SpellName(body: string, sep: char, root: string): string {
    var s := ReplaceFirst(body, [sep], ".");
    if StartsWith(s, "root") then ReplaceFirst(s, "root", root) else s
  }

  /** Spelling a body whose first separator follows `a`: that separator
      becomes `.`, later ones stay, and a leading `root` becomes the root
      package name. */
  lemma SpellNameAt(a: string, sep: char, b: string, root: string)
    requires sep !in a && '$' !in root
    ensures var s := a + "." + b;
            SpellName(a + [sep] + b, sep, root)
            == if StartsWith(s, "root") then root + s[4..] else s
  {
    var body := a + [sep] + b;
    forall j | 0 <= j < |a| ensures body[j] != sep {
      assert body[j] == a[j];
      assert a[j] in a;
    }
    ReplaceCharAt(body, sep, ".", |a|);
    assert body[..|a|] == a && body[|a| + 1..] == b;
    var s := a + "." + b;
    if StartsWith(s, "root") {
      ReplacePrefix(s, "root", root);
    }
  }

  /** A body naming a child of the root package spells that child under the
      root package name. */
  lemma SpellRootChild(sep: char, rest: string, root: string)
    requires sep !in "root" && '$' !in root
    ensures SpellName("root" + [sep] + rest, sep, root) == root + "." + rest
  {
    SpellNameAt("root", sep, rest, root);
    var t := "." + rest;
    assert "root" + "." + rest == "root" + t;
    PrefixSplit("root", t);
    assert root + t == root + "." + rest;
  }

  /** A concatenation splits back into its two parts. */
  lemma PrefixSplit(p: string, q: string)
    ensures StartsWith(p + q, p) && (p + q)[|p|..] == q
  {
    assert (p + q)[..|p|] == p;
  }

  /** A key under the root package: `#A;root:` + rest + `:` names
      `<root>.<rest>`, with any further `:` of the rest left alone (only the
      first `:` is replaced). */
  lemma ToNameRootChild(rest: string, root: string)
    requires root != "" && '$' !in root
    ensures ToName("#A;root:" + rest + ":", root) == Ok(root + "." + rest)
  {
    var b := "root:" + rest;
    var key := "#A;root:" + rest + ":";
    assert key == "#A;" + b + ":";
    BodyOfKey(b);
    assert Body(key) == b && !Unsupported(key) && key != "";
    assert b == "root" + [':'] + rest;
    SpellRootChild(':', rest, root);
  }

  /** A canonical key `#A;<body>:` is supported and has that body. */
  lemma BodyOfKey(m: string)
    ensures var key := "#A;" + m + ":";
            !Unsupported(key) && Body(key) == m
  {
    var key := "#A;" + m + ":";
    assert key[..2] == "#A";
    var s0 := key[2..];
    assert s0 == ";" + m + ":";
    assert s0[..1] == ";";
    var s1 := s0[1..];
    assert s1 == m + ":";
    assert s1[|s1| - 1..] == ":";
    assert s1[..|s1| - 1] == m;
  }

  /** A name under the root package with the root package name spelled
      `root`, as the keys spell it. */
  function RootAlias(name: string, root: string): (n: string)
    ensures root != "" && StartsWith(name, root) ==> StartsWith(n, "root") && n[4..] == name[|root|..]
    ensures !(root != "" && StartsWith(name, root)) ==> n == name
  {
    if root != "" && StartsWith(name, root) then "root" + name[|root|..] else name
  }

  /** Spelling the root package back: a leading `root` becomes the root
      package name again, unless a name outside the root package itself
      starts with `root`.  The alias adds no separator the name lacks. */
  lemma RootBack(name: string, root: string, sep: char)
    requires root != "" && '$' !in root && sep !in name && sep !in "root"
    requires !StartsWith(name, root) ==> !StartsWith(name, "root")
    ensures var n := RootAlias(name, root);
            sep !in n && (if StartsWith(n, "root") then ReplaceFirst(n, "root", root) else n) == name
  {
    var n := RootAlias(name, root);
    if StartsWith(name, root) {
      var t := name[|root|..];
      assert n == "root" + t;
      assert sep !in t by {
        forall k | 0 <= k < |t| ensures t[k] != sep {
          assert t[k] == name[|root| + k];
          assert name[|root| + k] in name;
        }
      }
      ReplacePrefix(n, "root", root);
      assert n[4..] == t;
      assert name == root + t;
    }
  }

  /** A name written back as a canonical API key `#A;<body>:`, the root
      package name spelled `root` and the first `.` spelled `:`. */
  function ToKey(name: string, root: string): string {
    "#A;" + ReplaceFirst(RootAlias(name, root), ".", ":") + ":"
  }

  /** Swapping the first `.` for a separator and back restores a string free
      of that separator. */
  lemma SwapBack(n: string, sep: char)
    requires sep != '$' && sep != '.' && sep !in n
    ensures ReplaceFirst(ReplaceFirst(n, ".", [sep]), [sep], ".") == n
  {
    match IndexOf(n, ".")
    case None =>
      assert ReplaceFirst(n, ".", [sep]) == n;
    case Some(i) =>
      assert n[i..i + 1] == ".";
      var m := n[..i] + [sep] + n[i + 1..];
      assert ReplaceFirst(n, ".", [sep]) == m;
      forall j | 0 <= j < i ensures m[j] != sep {
        assert m[j] == n[j];
        assert n[j] in n;
      }
      IndexOfChar(m, sep, i);
      assert m[..i] == n[..i];
      assert m[i + 1..] == n[i + 1..];
      assert n == n[..i] + "." + n[i + 1..];
  }

  /** Every `:`-free page name comes back from its canonical key, as long as
      the root package name has no `$` (a `$` in it would be read as a
      replacement pattern) and a name not under the root does not itself start
      with `root`. */
  lemma ToNameOfKey(name: string, root: string)
    requires root != "" && '$' !in root
    requires ':' !in name
    requires !StartsWith(name, root) ==> !StartsWith(name, "root")
    ensures ToName(ToKey(name, root), root) == Ok(name)
  {
    var n := RootAlias(name, root);
    RootBack(name, root, ':');
    var m := ReplaceFirst(n, ".", ":");
    BodyOfKey(m);
    SwapBack(n, ':');
    assert ToKey(name, root) == "#A;" + m + ":";
  }

  /** `toDir(name)`: every segment but the last, each followed by `/`. */
  function ToDir(name: string): (r: string)
    ensures IsDir(r)
  {
    var parts := Split(name, '.');
    var d := Join(parts[..|parts| - 1], "/");
    if d == "" then d else d + "/"
  }

  /** `toPath(name)`: the directory followed by the last segment and `.html`. */
  function ToPath(name: string): string {
    ToDir(name) + LastPiece(name, '.') + ".html"
  }

  /** The last `.` of a name splits it into the directory part and the file
      stem; the directory is the part before that dot with dots turned into
      slashes, plus a final slash. */
  lemma {:induction false} DirOfLastDot(name: string, i: nat)
    requires i < |name| && name[i] == '.' && '.' !in name[i + 1..]
    ensures LastPiece(name, '.') == name[i + 1..]
    ensures ToDir(name) == (if i == 0 then "" else MapChar(name[..i], '.', '/') + "/")
  {
    var p, t := name[..i], name[i + 1..];
    assert name == p + ['.'] + t;
    SplitAppend(p, '.', t);
    var parts := Split(name, '.');
    assert parts == Split(p, '.') + [t];
    assert parts[..|parts| - 1] == Split(p, '.');
    JoinSplitIsMap(p, '.', '/');
    assert Join(parts[..|parts| - 1], "/") == MapChar(p, '.', '/');
  }

  /** `toDir(name)` is empty exactly when the name has no `.` apart from a
      leading one, and otherwise ends in `/`. */
  lemma ToDirEmpty(name: string)
    ensures ToDir(name) == "" <==> '.' !in name || (name[0] == '.' && '.' !in name[1..])
    ensures ToDir(name) != "" ==> ToDir(name)[|ToDir(name)| - 1] == '/'
  {
    match LastIndexOf(name, '.')
    case None =>
      SplitNoSep(name, '.');
    case Some(i) =>
      DirOfLastDot(name, i);
      if i > 0 {
        assert name[0] == '.' ==> name[i] in name[1..];
      }
  }

  lemma SlashesAtLastDot(name: string, i: nat)
    requires i < |name| && name[i] == '.' && '.' !in name[i + 1..]
    ensures MapChar(name, '.', '/') == MapChar(name[..i], '.', '/') + "/" + name[i + 1..]
  {
    var p, t := name[..i], name[i + 1..];
    var m, mp := MapChar(name, '.', '/'), MapChar(p, '.', '/');
    var r := mp + "/" + t;
    forall k | 0 <= k < |m| ensures m[k] == r[k] {
      if k < i {
        assert r[k] == mp[k] && p[k] == name[k];
      } else if k > i {
        assert r[k] == t[k - i - 1] == name[k];
        assert t[k - i - 1] in t;
      }
    }
  }

  lemma PathAtLastDot(name: string, i: nat)
    requires 0 < i < |name| && name[i] == '.' && '.' !in name[i + 1..]
    ensures ToPath(name) == MapChar(name[..i], '.', '/') + "/" + name[i + 1..] + ".html"
  {
    DirOfLastDot(name, i);
  }

  /** When the name has a directory part, its path is the name with every `.`
      turned into `/`, followed by `.html`. */
  lemma ToPathIsDotsToSlashes(name: string)
    requires ToDir(name) != ""
    ensures ToPath(name) == MapChar(name, '.', '/') + ".html"
  {
    match LastIndexOf(name, '.')
    case None =>
      SplitNoSep(name, '.');
    case Some(i) =>
      DirOfLastDot(name, i);
      PathAtLastDot(name, i);
      SlashesAtLastDot(name, i);
  }

  /** For a name without `/`, its path has one `/` per `.` of the name (none
      when the directory part is empty). */
  lemma ToPathSlashes(name: string)
    requires '/' !in name
    ensures Count(ToPath(name), '/') == (if ToDir(name) == "" then 0 else Count(name, '.'))
  {
    if ToDir(name) != "" {
      ToPathIsDotsToSlashes(name);
      MapCharCount(name, '.', '/');
    } else {
      assert '/' !in LastPiece(name, '.');
    }
  }

  /** Unless the name is a leading `.` followed by a dot-free stem, its path
      is the name with dots turned into slashes, followed by `.html`. */
  lemma ToPathFlat(name: string)
    requires ToDir(name) != "" || '.' !in name
    ensures ToPath(name) == MapChar(name, '.', '/') + ".html"
  {
    if ToDir(name) != "" {
      ToPathIsDotsToSlashes(name);
    } else {
      ToPathNoDot(name);
      MapCharNoop(name, '.', '/');
    }
  }

  /** A name without `.` is its own file stem in the docset root. */
  lemma ToPathNoDot(name: string)
    requires '.' !in name
    ensures ToPath(name) == name + ".html"
  {
    SplitNoSep(name, '.');
    var parts := Split(name, '.');
    assert parts[..|parts| - 1] == [];
    assert ToDir(name) == "";
    assert LastPiece(name, '.') == name;
  }

  /** Page names that have no `/` and do not start with `.` never share a
      file path. */
  lemma ToPathInjective(a: string, b: string)
    requires '/' !in a && '/' !in b
    requires (|a| > 0 ==> a[0] != '.') && (|b| > 0 ==> b[0] != '.')
    requires ToPath(a) == ToPath(b)
    ensures a == b
  {
    PathOfPlainName(a);
    PathOfPlainName(b);
    var fa, fb := MapChar(a, '.', '/'), MapChar(b, '.', '/');
    assert fa == (fa + ".html")[..|fa|];
    assert fb == (fb + ".html")[..|fb|];
    MapCharInjective(a, b);
  }

  /** A name without `/` and without a leading `.` is written at its dots
      turned into slashes. */
  lemma PathOfPlainName(name: string)
    requires '/' !in name && (|name| > 0 ==> name[0] != '.')
    ensures ToPath(name) == MapChar(name, '.', '/') + ".html"
  {
    ToDirEmpty(name);
    ToPathFlat(name);
  }

  /** Turning dots into slashes loses nothing on names without `/`. */
  lemma MapCharInjective(a: string, b: string)
    requires '/' !in a && '/' !in b
    requires MapChar(a, '.', '/') == MapChar(b, '.', '/')
    ensures a == b
  {
    var fa, fb := MapChar(a, '.', '/'), MapChar(b, '.', '/');
    forall k | 0 <= k < |a| ensures a[k] == b[k] {
      assert fa[k] == fb[k];
      assert a[k] in a;
      assert b[k] in b;
    }
  }

  /** Two names that do collide: a leading `.` is dropped with the empty first
      segment. */
  lemma ToPathLeadingDotCollision()
    ensures ToPath(".x") == ToPath("x")
  {
    DirOfLastDot(".x", 0);
    SplitNoSep("x", '.');
  }

  /** `tryMakeRelative(sourceDir, path, dots)`: the path below `sourceDir` when
      `path` lies under it, otherwise `dots` (the way back to the root)
      followed by the whole path. */
  function TryMakeRelative(sourceDir: string, path: string, dots: string): (r: string)
    ensures StartsWith(path, sourceDir) ==> sourceDir + r == path
    ensures !StartsWith(path, sourceDir) ==> r == dots + path
    ensures sourceDir == "" ==> r == path
  {
    if !StartsWith(path, sourceDir) then dots + path
    else
      assert path == sourceDir + path[|sourceDir|..];
      path[|sourceDir|..]
  }

  /** A page path has no `.` before its `.html` suffix. */
  lemma ToPathStem(name: string)
    ensures EndsWith(ToPath(name), ".html")
    ensures '.' !in ToPath(name)[..|ToPath(name)| - 5]
  {
    var d := ToDir(name);
    var t := LastPiece(name, '.');
    assert ToPath(name)[..|ToPath(name)| - 5] == d + t;
    match LastIndexOf(name, '.')
    case None =>
      SplitNoSep(name, '.');
    case Some(i) =>
      DirOfLastDot(name, i);
      if i > 0 {
        MapCharCount(name[..i], '.', '/');
        assert Count(d, '.') == 0;
      }
  }

  /** No page path contains `../`: no suffix of it starts with one. */
  lemma ToPathNoUp(name: string, k: nat)
    requires k <= |ToPath(name)|
    ensures !StartsWith(ToPath(name)[k..], "../")
  {
    ToPathStem(name);
    StemNoUp(ToPath(name), k);
  }

  /** A dot-free stem followed by `.html` has no `../` anywhere. */
  lemma StemNoUp(p: string, k: nat)
    requires EndsWith(p, ".html") && '.' !in p[..|p| - 5]
    requires k <= |p|
    ensures !StartsWith(p[k..], "../")
  {
    var n := |p| - 5;
    var w := p[k..];
    if |w| >= 3 {
      if k < n {
        assert w[0] == p[k] == p[..n][k];
      } else {
        var html := p[n..];
        assert html == ".html";
        assert w[1] == p[k + 1] == html[k + 1 - n];
      }
      assert w[..3][0] == w[0] && w[..3][1] == w[1];
    }
  }

  /** Every rewritten in-app link works: followed from the directory of the
      page that contains it, the relative href lands on the target page's
      file, whether or not the target lies under that directory. */
  lemma RelativeLinkResolves(name: string, target: string)
    ensures Resolve(ToDir(name), TryMakeRelative(ToDir(name), ToPath(target), DotsToRoot(ToDir(name))))
            == ToPath(target)
  {
    var dir := ToDir(name);
    var path := ToPath(target);
    ToPathStem(target);
    StemNoUp(path, 0);
    assert path[0..] == path;
    if StartsWith(path, dir) {
      StemNoUp(path, |dir|);
    }
    RelativeResolves(dir, path);
  }

  /** The relative link to a path that does not climb, whether below the
      directory or back from the root, lands on it. */
  lemma RelativeResolves(dir: string, path: string)
    requires IsDir(dir) && !StartsWith(path, "../")
    requires StartsWith(path, dir) ==> !StartsWith(path[|dir|..], "../")
    ensures Resolve(dir, TryMakeRelative(dir, path, DotsToRoot(dir))) == path
  {
    if StartsWith(path, dir) {
      ResolveDown(dir, path[|dir|..]);
    } else {
      ClimbToRoot(dir, path);
    }
  }

  /** The directory of a `/`-free name has one `/` per `.` of the name, or none
      when it is empty. */
  lemma ToDirSlashes(name: string)
    requires '/' !in name
    ensures Count(ToDir(name), '/') == (if ToDir(name) == "" then 0 else Count(name, '.'))
  {
    match LastIndexOf(name, '.')
    case None =>
      SplitNoSep(name, '.');
    case Some(i) =>
      DirOfLastDot(name, i);
      if i > 0 {
        SlashesBeforeLastDot(name, i);
      }
  }

  lemma SlashesBeforeLastDot(name: string, i: nat)
    requires '/' !in name
    requires i < |name| && name[i] == '.' && '.' !in name[i + 1..]
    ensures Count(MapChar(name[..i], '.', '/') + "/", '/') == Count(name, '.')
  {
    var p, t := name[..i], name[i + 1..];
    assert name == p + ['.'] + t;
    assert multiset(name) == multiset(p) + multiset{'.'} + multiset(t);
    assert Count(p, '/') == 0 by { assert '/' !in p; }
    MapCharCount(p, '.', '/');
    assert multiset(t)['.'] == 0;
  }

  /** `dotsToRoot` of a page: one `../` per directory level, so none for a
      single-segment name. */
  lemma DotsToRootOfPage(name: string)
    requires '/' !in name
    ensures DotsToRoot(ToDir(name)) == Repeat("../", if ToDir(name) == "" then 0 else Count(name, '.'))
    ensures '.' !in name ==> DotsToRoot(ToDir(name)) == ""
  {
    ToDirEmpty(name);
    ToDirSlashes(name);
  }
}
