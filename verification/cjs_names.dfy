/** Naming in the older generators, index.cjs and old/gen.js: the web app's
    `#root;Type.decl` route keys become dotted names, and a page is stored
    under the directory of its dotted name with the whole name as file stem.
 */
module CjsNames {
  import opened Results
  import opened Strs
  import opened Links
  import StdNames

  /** The string index.cjs throws when no root package name is given. */
  const NoRoot := "Specify root arg"

  /** The key without one leading `#` and one trailing `;`. */
  function KeyBody(key: string): string {
    var s0 := if StartsWith(key, "#") then key[1..] else key;
    if EndsWith(s0, ";") then s0[..|s0| - 1] else s0
  }

  /** `toName(key, root)` of index.cjs: the first `;` of the body becomes `.`
      and a leading `root` becomes the root package name.  Only a missing root
      name is an error; every key has a name. */
  function ToName(key: string, root: string): (r: Result<string>)
    ensures r.Fail? <==> root == ""
    ensures root == "" ==> r == Fail(NoRoot)
    ensures root != "" && key == "" ==> r == Ok(root)
  {
    if root == "" then Fail(NoRoot)
    else if key == "" then Ok(root)
    else Ok(StdNames.SpellName(KeyBody(key), ';', root))
  }

  /** `toName(key, rootPkgName)` of old/gen.js: the same naming, with the
      error message of the API generator. */
  function OldToName(key: string, root: string): (r: Result<string>)
    ensures root == "" ==> r == Fail(StdNames.MissingRoot)
    ensures r.Ok? <==> ToName(key, root).Ok?
    ensures r.Ok? ==> r.value == ToName(key, root).value
  {
    if root == "" then Fail(StdNames.MissingRoot)
    else if key == "" then Ok(root)
    else Ok(StdNames.SpellName(KeyBody(key), ';', root))
  }

  /** Whatever the key, a name comes from its body: one `#` and one trailing
      `;` are stripped, only the first remaining `;` turns into `.`, and a
      leading `root` is replaced. */
  lemma ToNameOfParts(a: string, b: string, root: string)
    requires root != "" && '$' !in root
    requires ';' !in a
    ensures var s := a + "." + b;
            ToName("#" + a + ";" + b + ";", root)
            == Ok(if StartsWith(s, "root") then root + s[4..] else s)
  {
    var body := a + ";" + b;
    var key := "#" + body + ";";
    assert key == "#" + a + ";" + b + ";";
    assert StartsWith(key, "#");
    assert key[1..] == body + ";";
    assert EndsWith(body + ";", ";");
    assert KeyBody(key) == body;
    StdNames.SpellNameAt(a, ';', b, root);
  }

  /** The documented example, for every child of the root package:
      `#root;` followed by a name without a trailing `;` is that name under the
      root package (`#root;Array.thing` with root `std` is
      `std.Array.thing`). */
  lemma ToNameRootChild(rest: string, root: string)
    requires root != "" && '$' !in root
    requires rest != "" && rest[|rest| - 1] != ';'
    ensures ToName("#root;" + rest, root) == Ok(root + "." + rest)
  {
    var body := "root" + [';'] + rest;
    assert "#root;" + rest == "#" + body;
    KeyBodyOpen(body);
    StdNames.SpellRootChild(';', rest, root);
  }

  /** A key `#` + body with no trailing `;` keeps the whole body. */
  lemma KeyBodyOpen(body: string)
    requires body != "" && body[|body| - 1] != ';'
    ensures KeyBody("#" + body) == body
  {
    assert ("#" + body)[1..] == body;
  }

  /** A name written back as a key in this dialect: `#`, the root package name
      spelled `root`, the first `.` spelled `;`, and a closing `;`. */
  function ToKey(name: string, root: string): string {
    "#" + ReplaceFirst(StdNames.RootAlias(name, root), ".", ";") + ";"
  }

  /** Every `;`-free page name comes back from its key, as long as the root
      package name has no `$` and a name not under the root does not itself
      start with `root`. */
  lemma ToNameOfKey(name: string, root: string)
    requires root != "" && '$' !in root
    requires ';' !in name
    requires !StartsWith(name, root) ==> !StartsWith(name, "root")
    ensures ToName(ToKey(name, root), root) == Ok(name)
  {
    var n := StdNames.RootAlias(name, root);
    StdNames.RootBack(name, root, ';');
    var m := ReplaceFirst(n, ".", ";");
    KeyBodyClosed(m);
    StdNames.SwapBack(n, ';');
  }

  /** A key `#` + body + `;` has that body. */
  lemma KeyBodyClosed(m: string)
    ensures KeyBody("#" + m + ";") == m
  {
    var key := "#" + m + ";";
    assert key[..1] == "#";
    var s0 := key[1..];
    assert s0 == m + ";";
    assert s0[|s0| - 1..] == ";";
    assert s0[..|s0| - 1] == m;
  }

  /** `toPath(name)` of index.cjs: the same directory as the API generator
      uses, but the whole dotted name as the file stem. */
  function ToPath(name: string): (r: string)
    ensures IsDir(StdNames.ToDir(name)) && StartsWith(r, StdNames.ToDir(name))
    ensures EndsWith(r, name + ".html")
    ensures |r| == |StdNames.ToDir(name)| + |name| + 5
  {
    var d := StdNames.ToDir(name);
    assert (d + name + ".html")[..|d|] == d;
    assert (d + name + ".html")[|d|..] == name + ".html";
    d + name + ".html"
  }

  /** The documented example, for every name with a directory part: the
      directory is the name up to its last `.` with dots turned into slashes
      (`std.Array.thing` is stored at `std/Array/std.Array.thing.html`). */
  lemma ToPathAtLastDot(name: string, i: nat)
    requires 0 < i < |name| && name[i] == '.' && '.' !in name[i + 1..]
    ensures ToPath(name) == MapChar(name[..i], '.', '/') + "/" + name + ".html"
  {
    StdNames.DirOfLastDot(name, i);
  }

  /** A name without dots is stored at the docset root under its own name. */
  lemma ToPathNoDot(name: string)
    requires '.' !in name
    ensures ToPath(name) == name + ".html"
  {
    StdNames.ToDirEmpty(name);
  }

  /** Unlike the API generator's paths, these never collide: two `/`-free names
      with the same path are the same name. */
  lemma ToPathInjective(a: string, b: string)
    requires '/' !in a && '/' !in b
    requires ToPath(a) == ToPath(b)
    ensures a == b
  {
    var p := ToPath(a);
    var da, db := StdNames.ToDir(a), StdNames.ToDir(b);
    assert p == da + a + ".html" == db + b + ".html";
    if |a| == |b| {
      assert a == p[|da|..|p| - 5];
      assert b == p[|db|..|p| - 5];
    }
  }

  /** No page path starts with `../`, so a root-relative link to it cannot
      climb further. */
  lemma ToPathNotUp(name: string)
    ensures !StartsWith(ToPath(name), "../")
  {
    var p := ToPath(name);
    var d := StdNames.ToDir(name);
    assert p == d + (name + ".html");
    if d != "" {
      DirHead(name);
      assert p[0] == d[0];
      NotUpAt(p, 0);
    } else {
      StdNames.ToDirEmpty(name);
      StemNotUp(name);
    }
  }

  /** A file in the docset root: a name without `.`, or a leading `.` and a
      dot-free stem. */
  lemma StemNotUp(name: string)
    requires '.' !in name || (name[0] == '.' && '.' !in name[1..])
    ensures !StartsWith(name + ".html", "../")
  {
    var p := name + ".html";
    if name == "" {
      assert p[1] == 'h';
      NotUpAt(p, 1);
    } else if name[0] != '.' {
      assert p[0] == name[0];
      NotUpAt(p, 0);
    } else if |name| > 1 {
      assert p[1] == name[1];
      assert name[1] in name[1..];
      NotUpAt(p, 1);
    } else {
      assert p[2] == 'h';
      NotUpAt(p, 2);
    }
  }

  /** A string that differs from `../` in one of its first three places does
      not start with it. */
  lemma NotUpAt(s: string, k: nat)
    requires k < 3 && k < |s| && s[k] != "../"[k]
    ensures !StartsWith(s, "../")
  {
    if |s| >= 3 {
      assert s[..3][k] == s[k];
    }
  }

  /** A directory part never starts with `.`: its dots are slashes. */
  lemma DirHead(name: string)
    requires StdNames.ToDir(name) != ""
    ensures StdNames.ToDir(name)[0] != '.'
  {
    StdNames.ToDirEmpty(name);
    var i := LastIndexOf(name, '.').value;
    StdNames.DirOfLastDot(name, i);
    if i > 0 {
      assert StdNames.ToDir(name)[0] == MapChar(name[..i], '.', '/')[0];
    }
  }

  /** A page file of a `/`-free name lies in its directory: its path has as
      many `/` as the directory, so the root prefix written into it climbs
      exactly to the docset root. */
  lemma DotsToRootOfPath(name: string)
    requires '/' !in name
    ensures DotsToRoot(ToPath(name)) == DotsToRoot(StdNames.ToDir(name))
  {
    PathSlashes(name);
  }

  lemma PathSlashes(name: string)
    requires '/' !in name
    ensures Count(ToPath(name), '/') == Count(StdNames.ToDir(name), '/')
  {
    var d := StdNames.ToDir(name);
    var tail := name + ".html";
    assert ToPath(name) == d + tail;
    assert '/' !in tail;
    CountConcat(d, tail, '/');
  }

  /** Every rewritten link works: `dotsToRoot + toPath(toName(hash))`, followed
      from the page of a `/`-free name, lands on the target's file. */
  lemma LinkResolves(name: string, target: string)
    requires '/' !in name
    ensures Resolve(StdNames.ToDir(name), DotsToRoot(ToPath(name)) + ToPath(target))
            == ToPath(target)
  {
    DotsToRootOfPath(name);
    ToPathNotUp(target);
    ClimbToRoot(StdNames.ToDir(name), ToPath(target));
  }
}
