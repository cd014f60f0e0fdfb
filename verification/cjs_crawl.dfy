/** The crawl of index.cjs (`onFinishedFirstLoad` and its `onRender`): a
    map `seen` from route key to the type it will be indexed as, a stack
    `next` of keys to render, and a set `done` of keys rendered.  The
    anchors of the page the web app draws for a key come from an oracle,
    after its hidden parts are removed; a fuel bound stands in for the
    unbounded chain of redraws.
 */
module CjsCrawl {
  import opened Results
  import opened Strs
  import opened Kinds
  import opened Links
  import CjsNames
  import StdNames

  /** The web app's address. */
  const BaseUrl := "https://ziglang.org/documentation/master/std"

  /** The section types followed, in the order of the `secids` table. */
  const LinkKinds: seq<Kind> := [Type, Namespace, Global, Function, Value, Error]

  /** An `<a>` element: its resolved `href` (the absolute URL the DOM reports),
      the parts of that URL the crawl compares, and the followed sections it lies in. */
  datatype Link = Link(href: string, origin: string, pathname: string, hash: string, sections: set<Kind>)

  /** `is_suitable`: a non-blank link with a hash that stays in the web app,
      whichever way the DOM reports such a URL. */
  predicate Suitable(a: Link) {
    Trim(a.href) != "" && |a.hash| > 0
    && ((a.origin == "" && a.pathname == "")
        || (a.origin == "null" && a.pathname == "blank")
        || a.origin + a.pathname == BaseUrl + "/")
  }

  /** The position of the first kind of `ks` in `s`. */
  function FirstIn(ks: seq<Kind>, s: set<Kind>): (r: Option<nat>)
    ensures r.None? <==> forall i :: 0 <= i < |ks| ==> ks[i] !in s
    ensures r.Some? ==> r.value < |ks| && ks[r.value] in s
                        && forall j :: 0 <= j < r.value ==> ks[j] !in s
    decreases |ks|
  {
    if |ks| == 0 then None
    else if ks[0] in s then Some(0)
    else match FirstIn(ks[1..], s)
      case None => None
      case Some(i) => Some(i + 1)
  }

  /** The type a new link is indexed as: that of the first section, in
      `secids` order, containing it. */
  function SectionOf(a: Link): (r: Option<Kind>)
    ensures r.Some? ==> r.value in a.sections
  {
    var s := a.sections;
    if Type in s then Some(Type)
    else if Namespace in s then Some(Namespace)
    else if Global in s then Some(Global)
    else if Function in s then Some(Function)
    else if Value in s then Some(Value)
    else if Error in s then Some(Error)
    else None
  }

  /** The section chosen is the first of the `secids` table containing the
      link, and a link in none of them is not followed. */
  lemma SectionOfIsFirst(a: Link)
    ensures SectionOf(a).None? <==> forall i :: 0 <= i < |LinkKinds| ==> LinkKinds[i] !in a.sections
    ensures SectionOf(a).Some? ==>
              var i := FirstIn(LinkKinds, a.sections).value;
              SectionOf(a).value == LinkKinds[i]
              && forall j :: 0 <= j < i ==> LinkKinds[j] !in a.sections
  {
    var s := a.sections;
    var f := FirstIn(LinkKinds, s);
    assert LinkKinds[1..][1..][1..][1..][1..][1..] == [];
    if f.Some? {
      assert SectionOf(a) == Some(LinkKinds[f.value]);
    } else {
      assert SectionOf(a).None?;
    }
  }

  /** The dotted name of a key; the root name is known to be given. */
  function NameOf(hash: string, root: string): string
    requires root != ""
  {
    CjsNames.ToName(hash, root).value
  }

  /** Where an anchor will point: the docset page of a key, or the full web
      address. */
  datatype Target = Local(key: string) | FullUrl

  /** The crawl's tables while a page's links are read. */
  datatype Table = Table(seen: map<string, Kind>, next: seq<string>)

  /** `m2` keeps every key of `m1` with its value. */
  predicate Extends(m1: map<string, Kind>, m2: map<string, Kind>) {
    forall h :: h in m1 ==> h in m2 && m2[h] == m1[h]
  }

  /** Whether the link loop pushes the anchor's key: a suitable link to a
      key not seen yet, inside a followed section. */
  predicate Pushes(t: Table, a: Link) {
    Suitable(a) && a.hash !in t.seen && SectionOf(a).Some?
  }

  /** One anchor of the link loop.  A suitable link to a key already seen is
      rewritten; a suitable link to a new key inside a followed section is
      pushed on `next`, recorded with that section's type, and rewritten;
      every other link gets its full address. */
  function Classify(t: Table, a: Link): (r: (Table, Target))
    ensures r.1.Local? <==> Suitable(a) && (a.hash in t.seen || SectionOf(a).Some?)
    ensures r.1.Local? ==> r.1.key == a.hash
    ensures !Pushes(t, a) ==> r.0 == t
    ensures Pushes(t, a) ==> r.0.next == t.next + [a.hash]
                             && r.0.seen == t.seen[a.hash := SectionOf(a).value]
  {
    var local := Local(a.hash);
    if !Suitable(a) then (t, FullUrl)
    else if a.hash in t.seen then (t, local)
    else match SectionOf(a)
      case None => (t, FullUrl)
      case Some(k) => (Table(t.seen[a.hash := k], t.next + [a.hash]), local)
  }

  /** The link loop over all anchors of a page, in document order. */
  function ClassifyAll(t: Table, links: seq<Link>)
    : (r: (Table, seq<Target>))
    ensures |r.1| == |links|
    ensures |t.next| <= |r.0.next| && r.0.next[..|t.next|] == t.next
    decreases |links|
  {
    if |links| == 0 then (t, [])
    else
      var (t1, x) := Classify(t, links[0]);
      var (t2, xs) := ClassifyAll(t1, links[1..]);
      (t2, [x] + xs)
  }

  lemma ClassifyAllCons(t: Table, links: seq<Link>)
    requires |links| > 0
    ensures ClassifyAll(t, links).0 == ClassifyAll(Classify(t, links[0]).0, links[1..]).0
  {
  }

  /** The keys the link loop pushed on `next`. */
  function Pushed(t: Table, links: seq<Link>): (p: seq<string>)
  {
    ClassifyAll(t, links).0.next[|t.next|..]
  }

  /** The keys pushed by the loop: the first anchor's, if it pushes, then
      those of the rest. */
  lemma PushedCons(t: Table, links: seq<Link>)
    requires |links| > 0
    ensures Pushed(t, links)
            == (if Pushes(t, links[0]) then [links[0].hash] else []) + Pushed(Classify(t, links[0]).0, links[1..])
  {
    var t1 := Classify(t, links[0]).0;
    ClassifyAllGrows(t1, links[1..]);
    ClassifyAllCons(t, links);
    var q := if Pushes(t, links[0]) then [links[0].hash] else [];
    SliceAfter(t.next, q, Pushed(t1, links[1..]), ClassifyAll(t, links).0.next);
  }

  /** A sequence that is `a + q` followed by `p` has `q + p` after `a`. */
  lemma SliceAfter<T>(a: seq<T>, q: seq<T>, p: seq<T>, s: seq<T>)
    requires s == (a + q) + p
    ensures s[|a|..] == q + p
  {
    assert s == a + (q + p);
  }

  /** The link loop only adds to `seen`, never changing a recorded type, and
      only pushes on `next`. */
  lemma {:induction false} ClassifyAllGrows(t: Table, links: seq<Link>)
    ensures var t2 := ClassifyAll(t, links).0;
            Extends(t.seen, t2.seen) && t2.next == t.next + Pushed(t, links)
    decreases |links|
  {
    if |links| > 0 {
      var t1 := Classify(t, links[0]).0;
      ClassifyAllGrows(t1, links[1..]);
      var t2 := ClassifyAll(t1, links[1..]).0;
      ClassifyAllCons(t, links);
    }
  }

  /** Each key pushed was new to `seen` and is recorded in it afterwards. */
  lemma {:induction false} ClassifyAllPushesFresh(t: Table, links: seq<Link>)
    ensures var p := Pushed(t, links);
            forall i :: 0 <= i < |p| ==> p[i] !in t.seen && p[i] in ClassifyAll(t, links).0.seen
    decreases |links|
  {
    if |links| > 0 {
      var t1 := Classify(t, links[0]).0;
      ClassifyAllPushesFresh(t1, links[1..]);
      ClassifyAllGrows(t1, links[1..]);
      var t2 := ClassifyAll(t1, links[1..]).0;
      ClassifyAllCons(t, links);
      PushedCons(t, links);
      var p1 := Pushed(t1, links[1..]);
      var p := Pushed(t, links);
      if Pushes(t, links[0]) {
        var h := links[0].hash;
        assert p == [h] + p1;
        assert h in t1.seen;
        forall i | 0 <= i < |p| ensures p[i] !in t.seen && p[i] in t2.seen {
          if i > 0 {
            assert p[i] == p1[i - 1];
            assert p[i] !in t1.seen;
          }
        }
      } else {
        assert p == p1;
      }
    }
  }

  /** No key is pushed twice during one page. */
  lemma {:induction false} ClassifyAllPushesOnce(t: Table, links: seq<Link>)
    ensures Distinct(Pushed(t, links))
    decreases |links|
  {
    if |links| > 0 {
      var t1 := Classify(t, links[0]).0;
      ClassifyAllPushesOnce(t1, links[1..]);
      ClassifyAllPushesFresh(t1, links[1..]);
      ClassifyAllGrows(t1, links[1..]);
      ClassifyAllCons(t, links);
      PushedCons(t, links);
      var p1 := Pushed(t1, links[1..]);
      var p := Pushed(t, links);
      if Pushes(t, links[0]) {
        var h := links[0].hash;
        assert p == [h] + p1;
        assert h in t1.seen;
        DistinctCons(h, p1, t1.seen);
      } else {
        assert p == p1;
      }
    }
  }

  /** The elements of a sequence are pairwise different. */
  predicate Distinct(q: seq<string>) {
    forall i, j :: 0 <= i < j < |q| ==> q[i] != q[j]
  }

  lemma DistinctCons(h: string, q: seq<string>, s: map<string, Kind>)
    requires h in s && Distinct(q)
    requires forall i :: 0 <= i < |q| ==> q[i] !in s
    ensures Distinct([h] + q)
  {
    var p := [h] + q;
    forall i, j | 0 <= i < j < |p| ensures p[i] != p[j] {
      assert p[j] == q[j - 1];
      if i > 0 { assert p[i] == q[i - 1]; }
    }
  }

  /** Every key recorded by the link loop was seen before or pushed by it. */
  lemma {:induction false} ClassifyAllRecords(t: Table, links: seq<Link>)
    ensures forall h :: h in ClassifyAll(t, links).0.seen ==>
              h in t.seen || h in Pushed(t, links)
    decreases |links|
  {
    if |links| > 0 {
      var t1 := Classify(t, links[0]).0;
      ClassifyAllRecords(t1, links[1..]);
      ClassifyAllCons(t, links);
      PushedCons(t, links);
      var p1 := Pushed(t1, links[1..]);
      var p := Pushed(t, links);
      var pushes := Pushes(t, links[0]);
      assert forall h :: h in p1 ==> h in p;
      assert forall h :: h in t1.seen ==> h in t.seen || (pushes && h == links[0].hash);
      assert pushes ==> links[0].hash in p;
    }
  }

  /** What the link loop does to each anchor: an unsuitable one gets its full
      address; a suitable one to a key seen before the page, or inside a
      followed section, is rewritten to the page of its key, which is then
      recorded. */
  lemma {:induction false} ClassifyAllTargets(t: Table, links: seq<Link>)
    ensures var r := ClassifyAll(t, links);
            forall i :: 0 <= i < |links| ==>
              (!Suitable(links[i]) ==> r.1[i] == FullUrl)
              && (Suitable(links[i]) && (links[i].hash in t.seen || SectionOf(links[i]).Some?) ==>
                    r.1[i] == Local(links[i].hash))
              && (r.1[i].Local? ==> Suitable(links[i]) && links[i].hash in r.0.seen)
    decreases |links|
  {
    if |links| > 0 {
      var (t1, x) := Classify(t, links[0]);
      ClassifyAllTargets(t1, links[1..]);
      ClassifyAllGrows(t1, links[1..]);
      var r := ClassifyAll(t, links);
      var r1 := ClassifyAll(t1, links[1..]);
      assert r.0 == r1.0 && r.1 == [x] + r1.1;
      assert Extends(t.seen, t1.seen);
      forall i | 0 <= i < |links|
        ensures (!Suitable(links[i]) ==> r.1[i] == FullUrl)
        ensures Suitable(links[i]) && (links[i].hash in t.seen || SectionOf(links[i]).Some?) ==>
                  r.1[i] == Local(links[i].hash)
        ensures r.1[i].Local? ==> Suitable(links[i]) && links[i].hash in r.0.seen
      {
        if i > 0 {
          assert links[i] == links[1..][i - 1] && r.1[i] == r1.1[i - 1];
        }
      }
    }
  }

  /** The whole state of the crawl. */
  datatype State = State(seen: map<string, Kind>, next: seq<string>, done: set<string>, cur: string)

  /** The start: the root page's key, pre-seeded in `seen` as a library. */
  function Start(rootName: string): (s: State)
    ensures s.cur == "#" + rootName && s.seen == map[s.cur := Library]
    ensures s.next == [] && s.done == {}
  {
    var cur := "#" + rootName;
    State(map[cur := Library], [], {}, cur)
  }

  /** The row `index` inserts for a page: its last name segment, the type
      `seen` holds for its key (none when the key is missing), and its file. */
  datatype IndexRow = IndexRow(name: string, kind: Option<Kind>, path: string)

  /** The new `href` of an anchor: a path relative to the page, or the full
      web address. */
  datatype Href = Relative(path: string) | Web

  /** `dotsToRoot + toPath(toName(a.hash, root))` for a docset link. */
  function HrefOf(x: Target, root: string, dots: string): (h: Href)
    requires root != ""
    ensures x.Local? <==> h.Relative?
  {
    match x
    case Local(key) => Relative(dots + CjsNames.ToPath(NameOf(key, root)))
    case FullUrl => Web
  }

  /** The new `href` of each anchor, in order. */
  function HrefsOf(targets: seq<Target>, root: string, dots: string): (hs: seq<Href>)
    requires root != ""
    ensures |hs| == |targets|
    ensures forall i :: 0 <= i < |targets| ==> hs[i] == HrefOf(targets[i], root, dots)
    decreases |targets|
  {
    if |targets| == 0 then []
    else [HrefOf(targets[0], root, dots)] + HrefsOf(targets[1..], root, dots)
  }

  /** What `onRender` writes for one page. */
  datatype Written = Written(
    name: string,
    path: string,
    row: IndexRow,
    targets: seq<Target>,
    hrefs: seq<Href>,
    stylesheet: string,
    title: string,
    pushed: seq<string>)

  /** The popping loop: the last key of `next` not yet done, and what is
      left below it. */
  datatype Popped = Popped(rest: seq<string>, picked: Option<string>)

  function PopUndone(done: set<string>, q: seq<string>): (p: Popped)
    ensures |p.rest| <= |q| && p.rest == q[..|p.rest|]
    ensures p.picked.Some? ==> |p.rest| < |q| && p.picked.value == q[|p.rest|] && p.picked.value !in done
    ensures p.picked.None? ==> p.rest == []
    ensures forall i :: |p.rest| < i < |q| ==> q[i] in done
    ensures p.picked.None? ==> forall i :: 0 <= i < |q| ==> q[i] in done
    decreases |q|
  {
    if |q| == 0 then Popped([], None)
    else if q[|q| - 1] in done then PopUndone(done, q[..|q| - 1])
    else Popped(q[..|q| - 1], Some(q[|q| - 1]))
  }

  /** The end of `onRender`: the current key marked done, and the popping
      loop over `next`.  When nothing is left to render, `cur` is the last
      key popped. */
  function Advance(st: State, t: Table): (r: (State, Option<string>))
    ensures r.0.seen == t.seen && r.0.done == st.done + {st.cur}
    ensures |r.0.next| <= |t.next| && r.0.next == t.next[..|r.0.next|]
    ensures r.1.Some? ==> |r.0.next| < |t.next| && r.1.value == t.next[|r.0.next|]
                          && r.0.cur == r.1.value && r.0.cur !in r.0.done
    ensures forall i :: |r.0.next| < i < |t.next| ==> t.next[i] in r.0.done
    ensures r.1.None? ==> r.0.next == [] && forall i :: 0 <= i < |t.next| ==> t.next[i] in r.0.done
  {
    var done := st.done + {st.cur};
    var p := PopUndone(done, t.next);
    var cur := if p.picked.Some? then p.picked.value
               else if |t.next| > 0 then t.next[0] else st.cur;
    (State(t.seen, p.rest, done, cur), p.picked)
  }

  /** The page of `name` as written: its file, stylesheet link, title and
      index row, and each anchor's new `href`. */
  function PageOf(st: State, root: string, name: string, targets: seq<Target>, pushed: seq<string>)
    : (w: Written)
    requires root != ""
    ensures w.name == name && w.path == CjsNames.ToPath(name)
    ensures w.stylesheet == DotsToRoot(w.path) + "style.css"
    ensures w.title == LastPiece(name, '.') && w.row.name == w.title && w.row.path == w.path
    ensures w.row.kind == (if st.cur in st.seen then Some(st.seen[st.cur]) else None)
    ensures w.targets == targets && w.pushed == pushed && |w.hrefs| == |targets|
    ensures forall i :: 0 <= i < |targets| ==> w.hrefs[i] == HrefOf(targets[i], root, DotsToRoot(w.path))
  {
    var filepath := CjsNames.ToPath(name);
    var kind := if st.cur in st.seen then Some(st.seen[st.cur]) else None;
    var row := IndexRow(LastPiece(name, '.'), kind, filepath);
    var dots := DotsToRoot(filepath);
    var hrefs := HrefsOf(targets, root, dots);
    Written(name, filepath, row, targets, hrefs, dots + "style.css", LastPiece(name, '.'), pushed)
  }

  /** One page: `onRender` and its outcome. */
  datatype Step = Step(state: State, page: Written, following: Option<string>)

  /** `onRender()`: name, file and index row of the current key, the link
      loop, the current key marked done, and the next key popped.  It
      throws when no root package name is given. */
  function OnRender(st: State, root: string, links: seq<Link>): (r: Result<Step>)
    ensures r.Fail? <==> root == ""
    ensures r.Fail? ==> r == Fail(CjsNames.NoRoot)
    ensures r.Ok? ==>
              var t := ClassifyAll(Table(st.seen, st.next), links);
              r.value.page == PageOf(st, root, NameOf(st.cur, root), t.1, Pushed(Table(st.seen, st.next), links))
              && (r.value.state, r.value.following) == Advance(st, t.0)
  {
    var name :- CjsNames.ToName(st.cur, root);
    var (t, targets) := ClassifyAll(Table(st.seen, st.next), links);
    var w := PageOf(st, root, name, targets, t.next[|st.next|..]);
    var (s, following) := Advance(st, t);
    Ok(Step(s, w, following))
  }

  /** Every rewritten link of a page with a `/`-free name works: followed
      from the page's directory it lands on the file of its key's page. */
  lemma RewrittenLinkResolves(st: State, root: string, links: seq<Link>, i: nat)
    requires OnRender(st, root, links).Ok?
    requires var w := OnRender(st, root, links).value.page;
             '/' !in w.name && i < |w.hrefs| && w.hrefs[i].Relative?
    ensures var w := OnRender(st, root, links).value.page;
            Resolve(StdNames.ToDir(w.name), w.hrefs[i].path)
            == CjsNames.ToPath(NameOf(w.targets[i].key, root))
  {
    var w := OnRender(st, root, links).value.page;
    CjsNames.LinkResolves(w.name, NameOf(w.targets[i].key, root));
  }

  /** A state of the crawl: every key on `next` and the current key are in
      `seen`. */
  predicate Recorded(st: State) {
    st.cur in st.seen && forall i :: 0 <= i < |st.next| ==> st.next[i] in st.seen
  }

  /** The start is recorded, and its key is not done. */
  lemma StartRecorded(rootName: string)
    ensures Recorded(Start(rootName)) && Start(rootName).cur !in Start(rootName).done
  {
  }

  /** What the crawl relies on from one page `s` rendered in state `st`. */
  predicate StepFacts(st: State, s: Step) {
    s.state.done == st.done + {st.cur}
    && (s.following.Some? ==> s.state.cur == s.following.value && s.state.cur !in s.state.done)
    && Extends(st.seen, s.state.seen) && Distinct(s.page.pushed)
    && (forall i :: 0 <= i < |s.page.pushed| ==>
          s.page.pushed[i] !in st.seen && s.page.pushed[i] in s.state.seen)
    && (forall h :: h in s.state.seen ==> h in st.seen || h in s.page.pushed)
    && (st.cur in st.seen ==> s.page.row.kind.Some?)
    && (Recorded(st) && s.following.Some? ==> Recorded(s.state))
    && (s.following.None? ==> s.state.next == [])
    && (forall i :: 0 <= i < |st.next| ==> Accounted(s.state, s.following, st.next[i]))
    && (forall i :: 0 <= i < |s.page.pushed| ==> Accounted(s.state, s.following, s.page.pushed[i]))
  }

  /** After a step to `following`, key `k` is still on `next`, done, or the
      key moved to. */
  predicate Accounted(st: State, following: Option<string>, k: string) {
    k in st.next || k in st.done || (following.Some? && k == st.cur)
  }

  /** `onRender` has these facts: `seen` only grows, keeping the types it
      had; the keys pushed are new, distinct and recorded; the key it moves
      to was on `next`, hence recorded. */
  lemma OnRenderFacts(st: State, root: string, links: seq<Link>)
    requires OnRender(st, root, links).Ok?
    ensures StepFacts(st, OnRender(st, root, links).value)
  {
    var t0 := Table(st.seen, st.next);
    ClassifyAllGrows(t0, links);
    ClassifyAllPushesFresh(t0, links);
    ClassifyAllPushesOnce(t0, links);
    ClassifyAllRecords(t0, links);
    var t := ClassifyAll(t0, links).0;
    var p := Pushed(t0, links);
    var r := OnRender(st, root, links).value;
    assert r.page.pushed == p;
    assert (r.state, r.following) == Advance(st, t);
    assert r.state.seen == t.seen;
    if Recorded(st) {
      AdvanceRecorded(st, t, p);
    }
    assert t.next == st.next + p;
    OnRenderAccounts(st, t, p);
  }

  /** The keys queued before the page and those it pushed are accounted for
      after the popping loop. */
  lemma OnRenderAccounts(st: State, t: Table, p: seq<string>)
    requires t.next == st.next + p
    ensures var a := Advance(st, t);
            (forall i :: 0 <= i < |st.next| ==> Accounted(a.0, a.1, st.next[i]))
            && forall i :: 0 <= i < |p| ==> Accounted(a.0, a.1, p[i])
  {
    var a := Advance(st, t);
    AdvanceAccounts(st, t);
    forall i | 0 <= i < |st.next| ensures Accounted(a.0, a.1, st.next[i]) {
      assert st.next[i] == t.next[i];
    }
    forall i | 0 <= i < |p| ensures Accounted(a.0, a.1, p[i]) {
      assert p[i] == t.next[|st.next| + i];
    }
  }

  /** The popping loop loses no key: each key on `next` stays on it, is
      done, or is the key moved to. */
  lemma AdvanceAccounts(st: State, t: Table)
    ensures var a := Advance(st, t);
            forall i :: 0 <= i < |t.next| ==> Accounted(a.0, a.1, t.next[i])
  {
    var a := Advance(st, t);
    forall i | 0 <= i < |t.next| ensures Accounted(a.0, a.1, t.next[i]) {
      if i < |a.0.next| {
        assert a.0.next[i] == t.next[i];
      }
    }
  }

  /** The popping loop keeps the state recorded once the pushed keys are. */
  lemma AdvanceRecorded(st: State, t: Table, p: seq<string>)
    requires Recorded(st) && Extends(st.seen, t.seen) && t.next == st.next + p
    requires forall i :: 0 <= i < |p| ==> p[i] in t.seen
    ensures var a := Advance(st, t); a.1.Some? ==> Recorded(a.0)
  {
    var a := Advance(st, t);
    if a.1.Some? {
      forall i | 0 <= i < |t.next| ensures t.next[i] in t.seen {
        if i < |st.next| {
          assert t.next[i] == st.next[i];
        } else {
          assert t.next[i] == p[i - |st.next|];
        }
      }
      assert a.0.cur == t.next[|a.0.next|];
      forall i | 0 <= i < |a.0.next| ensures a.0.next[i] in a.0.seen {
        assert a.0.next[i] == t.next[i];
      }
    }
  }

  /** Rendering one page in a state. */
  type Stepper = State -> Result<Step>

  /** The generator's step: `onRender` on the web app's page for the
      current key. */
  function PageStep(root: string, pages: string -> seq<Link>): Stepper {
    (st: State) => OnRender(st, root, pages(st.cur))
  }

  /** A step with the facts of `onRender`. */
  ghost predicate Faithful(step: Stepper) {
    forall st :: step(st).Ok? ==> StepFacts(st, step(st).value)
  }

  lemma PageStepFaithful(root: string, pages: string -> seq<Link>)
    ensures Faithful(PageStep(root, pages))
  {
    forall st | PageStep(root, pages)(st).Ok?
      ensures StepFacts(st, PageStep(root, pages)(st).value)
    {
      assert PageStep(root, pages)(st) == OnRender(st, root, pages(st.cur));
      OnRenderFacts(st, root, pages(st.cur));
    }
  }

  /** What a run of the crawl produced: the pages written, the key of each,
      the keys pushed on `next` in order, the state at the end, and whether
      the crawl ran out of pages (rather than out of fuel). */
  datatype Run = Run(pages: seq<Written>, rendered: seq<string>, pushed: seq<string>, final: State, finished: bool)

  /** `await onRender()` and the chain of redraws it starts, for at most
      `fuel` pages.  Stated for any step; the generator's is `PageStep`. */
  function CrawlFrom(st: State, step: Stepper, fuel: nat): (r: Result<Run>)
    ensures r.Ok? ==> |r.value.pages| == |r.value.rendered| && |r.value.rendered| <= fuel
    ensures r.Ok? && fuel > 0 ==> |r.value.rendered| > 0 && r.value.rendered[0] == st.cur
    decreases fuel
  {
    if fuel == 0 then Ok(Run([], [], [], st, false))
    else
      var s :- step(st);
      if s.following.None? then Ok(Run([s.page], [st.cur], s.page.pushed, s.state, true))
      else
        var rest :- CrawlFrom(s.state, step, fuel - 1);
        Ok(Run([s.page] + rest.pages, [st.cur] + rest.rendered, s.page.pushed + rest.pushed,
               rest.final, rest.finished))
  }

  /** The whole crawl from the root page `#rootName`. */
  function Generate(rootName: string, root: string, pages: string -> seq<Link>, fuel: nat): (r: Result<Run>)
    ensures fuel > 0 && r.Ok? ==> |r.value.rendered| > 0 && r.value.rendered[0] == "#" + rootName
  {
    CrawlFrom(Start(rootName), PageStep(root, pages), fuel)
  }

  /** A crawl whose every step succeeds succeeds. */
  lemma {:induction false} CrawlOk(st: State, step: Stepper, fuel: nat)
    requires forall s :: step(s).Ok?
    ensures CrawlFrom(st, step, fuel).Ok?
    decreases fuel
  {
    if fuel > 0 && step(st).value.following.Some? {
      CrawlOk(step(st).value.state, step, fuel - 1);
    }
  }

  /** The generator fails exactly when no root package name is given (and
      it renders anything at all). */
  lemma GenerateFails(rootName: string, root: string, pages: string -> seq<Link>, fuel: nat)
    requires fuel > 0
    ensures Generate(rootName, root, pages, fuel).Fail? <==> root == ""
    ensures root == "" ==> Generate(rootName, root, pages, fuel) == Fail(CjsNames.NoRoot)
  {
    var step := PageStep(root, pages);
    var st := Start(rootName);
    assert step(st) == OnRender(st, root, pages(st.cur));
    if root != "" {
      forall s ensures step(s).Ok? {
        assert step(s) == OnRender(s, root, pages(s.cur));
      }
      CrawlOk(st, step, fuel);
    }
  }

  /** No page is rendered twice: the keys rendered are distinct, and none
      was done before the crawl. */
  lemma {:induction false} CrawlRendersOnce(st: State, step: Stepper, fuel: nat)
    requires Faithful(step) && st.cur !in st.done
    ensures var r := CrawlFrom(st, step, fuel);
            r.Ok? ==> Distinct(r.value.rendered)
                      && forall i :: 0 <= i < |r.value.rendered| ==> r.value.rendered[i] !in st.done
    decreases fuel
  {
    var r := CrawlFrom(st, step, fuel);
    if fuel > 0 && r.Ok? {
      var s := step(st).value;
      assert StepFacts(st, s);
      if s.following.Some? {
        CrawlRendersOnce(s.state, step, fuel - 1);
        var rest := CrawlFrom(s.state, step, fuel - 1).value;
        var q := r.value.rendered;
        assert q == [st.cur] + rest.rendered;
        forall i | 0 < i < |q| ensures q[i] !in st.done {
          assert q[i] == rest.rendered[i - 1];
        }
        DistinctConsSet(st.cur, rest.rendered, s.state.done);
      }
    }
  }

  /** A crawl that ran out of pages lost nothing: every key queued at the
      start, the current key and every key pushed during the crawl was
      rendered, or was done before it began. */
  lemma {:induction false} CrawlLosesNothing(st: State, step: Stepper, fuel: nat)
    requires Faithful(step)
    ensures var r := CrawlFrom(st, step, fuel);
            r.Ok? && r.value.finished ==>
              forall k :: k == st.cur || k in st.next || k in r.value.pushed ==>
                k in r.value.rendered || k in st.done
    decreases fuel
  {
    var r := CrawlFrom(st, step, fuel);
    if fuel > 0 && r.Ok? && r.value.finished {
      var s := step(st).value;
      assert StepFacts(st, s);
      if s.following.Some? {
        CrawlLosesNothing(s.state, step, fuel - 1);
        var rest := CrawlFrom(s.state, step, fuel - 1).value;
        assert r.value.pushed == s.page.pushed + rest.pushed;
        assert r.value.rendered == [st.cur] + rest.rendered;
        forall k | k == st.cur || k in st.next || k in r.value.pushed
          ensures k in r.value.rendered || k in st.done
        {
          if k != st.cur && k !in rest.pushed {
            StepAccounts(st, s, k);
          }
        }
      }
    }
  }

  /** A key queued before a step, or pushed by it, other than the step's
      own key, is accounted for after it in the state the crawl goes on from. */
  lemma StepAccounts(st: State, s: Step, k: string)
    requires StepFacts(st, s)
    requires k in st.next || k in s.page.pushed
    ensures Accounted(s.state, s.following, k)
  {
    if k in st.next {
      var i :| 0 <= i < |st.next| && st.next[i] == k;
    } else {
      var i :| 0 <= i < |s.page.pushed| && s.page.pushed[i] == k;
    }
  }

  lemma DistinctConsSet(h: string, q: seq<string>, s: set<string>)
    requires h in s && Distinct(q)
    requires forall i :: 0 <= i < |q| ==> q[i] !in s
    ensures Distinct([h] + q)
  {
    var p := [h] + q;
    forall i, j | 0 <= i < j < |p| ensures p[i] != p[j] {
      assert p[j] == q[j - 1];
      if i > 0 { assert p[i] == q[i - 1]; }
    }
  }

  /** A key is pushed on `next` at most once in the whole crawl, and never
      one that was already seen. */
  lemma {:induction false} CrawlPushesOnce(st: State, step: Stepper, fuel: nat)
    requires Faithful(step)
    ensures var r := CrawlFrom(st, step, fuel);
            r.Ok? ==> Distinct(r.value.pushed)
                      && forall i :: 0 <= i < |r.value.pushed| ==> r.value.pushed[i] !in st.seen
    decreases fuel
  {
    var r := CrawlFrom(st, step, fuel);
    if fuel > 0 && r.Ok? {
      var s := step(st).value;
      assert StepFacts(st, s);
      if s.following.Some? {
        CrawlPushesOnce(s.state, step, fuel - 1);
        var rest := CrawlFrom(s.state, step, fuel - 1).value;
        assert r.value.pushed == s.page.pushed + rest.pushed;
        DistinctAppend(s.page.pushed, rest.pushed, s.state.seen);
        var q := r.value.pushed;
        forall i | 0 <= i < |q| ensures q[i] !in st.seen {
          if i >= |s.page.pushed| {
            assert q[i] == rest.pushed[i - |s.page.pushed|];
          }
        }
      }
    }
  }

  lemma DistinctAppend(a: seq<string>, b: seq<string>, s: map<string, Kind>)
    requires Distinct(a) && Distinct(b)
    requires forall i :: 0 <= i < |a| ==> a[i] in s
    requires forall i :: 0 <= i < |b| ==> b[i] !in s
    ensures Distinct(a + b)
  {
    var p := a + b;
    forall i, j | 0 <= i < j < |p| ensures p[i] != p[j] {
      if j >= |a| {
        assert p[j] == b[j - |a|];
        if i >= |a| { assert p[i] == b[i - |a|]; }
      }
    }
  }

  /** Only the current key and keys found on the pages are rendered, and
      every page's index row has the type `seen` recorded for its key. */
  lemma {:induction false} CrawlRendersFound(st: State, step: Stepper, fuel: nat)
    requires Faithful(step) && Recorded(st)
    ensures var r := CrawlFrom(st, step, fuel);
            r.Ok? ==> forall i :: 0 <= i < |r.value.rendered| ==>
                        (r.value.rendered[i] in st.seen || r.value.rendered[i] in r.value.pushed)
                        && r.value.pages[i].row.kind.Some?
    decreases fuel
  {
    var r := CrawlFrom(st, step, fuel);
    if fuel > 0 && r.Ok? {
      var s := step(st).value;
      assert StepFacts(st, s);
      if s.following.Some? {
        CrawlRendersFound(s.state, step, fuel - 1);
        var rest := CrawlFrom(s.state, step, fuel - 1).value;
        assert r.value.pushed == s.page.pushed + rest.pushed;
        var q := r.value.rendered;
        forall i | 0 < i < |q|
          ensures (q[i] in st.seen || q[i] in r.value.pushed) && r.value.pages[i].row.kind.Some?
        {
          assert q[i] == rest.rendered[i - 1] && r.value.pages[i] == rest.pages[i - 1];
          assert q[i] in s.state.seen || q[i] in rest.pushed;
        }
      }
    }
  }

  /** For the generator from its start: no page twice, no key pushed twice,
      and only the root page and keys found on pages rendered, each with a
      typed index row. */
  lemma GenerateFacts(rootName: string, root: string, pages: string -> seq<Link>, fuel: nat)
    ensures var r := Generate(rootName, root, pages, fuel);
            r.Ok? ==> Distinct(r.value.rendered) && Distinct(r.value.pushed)
                      && forall i :: 0 <= i < |r.value.rendered| ==>
                           (r.value.rendered[i] == "#" + rootName || r.value.rendered[i] in r.value.pushed)
                           && r.value.pages[i].row.kind.Some?
  {
    var step := PageStep(root, pages);
    PageStepFaithful(root, pages);
    StartRecorded(rootName);
    CrawlRendersOnce(Start(rootName), step, fuel);
    CrawlPushesOnce(Start(rootName), step, fuel);
    CrawlRendersFound(Start(rootName), step, fuel);
  }

  /** When the generator runs out of pages, every key it pushed on `next`
      was rendered. */
  lemma GenerateLosesNothing(rootName: string, root: string, pages: string -> seq<Link>, fuel: nat)
    ensures var r := Generate(rootName, root, pages, fuel);
            r.Ok? && r.value.finished ==> forall k :: k in r.value.pushed ==> k in r.value.rendered
  {
    PageStepFaithful(root, pages);
    CrawlLosesNothing(Start(rootName), PageStep(root, pages), fuel);
  }
}
