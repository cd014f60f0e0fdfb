/** One page of the API generator (`render` and the crawl loop of
    genstd.js).  The page the web app draws for a route key is supplied by an
    oracle; the model keeps only what the bookkeeping reads: the anchors of
    the navigation list, of each section and of the rest of the page.
 */
module StdRender {
  import opened Results
  import opened Strs
  import opened Kinds
  import opened Links
  import opened StdNames
  import opened StdFrontier
  import Uri

  /** The parts of a link's URL the generator compares. */
  datatype Url = Url(origin: string, pathname: string, hash: string)

  /** `shouldFollow(baseUrl, a)`: a link to a route of the web app itself. */
  predicate ShouldFollow(base: Url, a: Url) {
    a.hash != "" && a.origin == base.origin && a.pathname == base.pathname
  }

  /** An `<a>` element: its resolved URL, whether it carries an `href`
      attribute, and whether it is the section heading anchor the generator
      inserted itself. */
  datatype Anchor = Anchor(url: Url, hasHref: bool, own: bool)

  /** A page section (`sects[type]`): its type, whether the app hid it, and
      its anchors in document order. */
  datatype Section = Section(kind: Kind, hidden: bool, links: seq<Anchor>)

  /** What the web app draws for a route key. */
  datatype Page = Page(listNav: seq<Anchor>, sections: seq<Section>, rest: seq<Anchor>)

  /** The section types in the order of the `sects` table. */
  const SectionKinds: seq<Kind> :=
    [Type, Namespace, Global, Function, Value, Error, Field, Example, Parameter, TLDR]

  /** The new `href` of an anchor: a relative path to a docset page, the
      absolute form of its URL, or left as it was. */
  datatype Href = Relative(path: string) | Absolute | Kept

  /** What `render` knows about the page being written. */
  datatype Ctx = Ctx(base: Url, name: string, root: string, dir: string, dots: string)

  /** The context of the page of `name`: its directory and the climb back to
      the docset root. */
  function CtxOf(base: Url, name: string, root: string): (c: Ctx)
    ensures IsDir(c.dir)
  {
    var dir := ToDir(name);
    Ctx(base, name, root, dir, DotsToRoot(dir))
  }

  /** The relative link to the page of a route key: it fails exactly when
      the key names no page, and otherwise is the page's path made relative
      to the current directory (see `LinkToResolves` for where it leads). */
  function LinkTo(c: Ctx, hash: string): (r: Result<string>)
    requires IsDir(c.dir)
    ensures r.Ok? <==> ToName(hash, c.root).Ok?
    ensures r.Ok? ==> r.value == TryMakeRelative(c.dir, ToPath(ToName(hash, c.root).value), c.dots)
  {
    var cname :- ToName(hash, c.root);
    Ok(TryMakeRelative(c.dir, ToPath(cname), c.dots))
  }

  /** Followed from the directory of the page being rendered, the link to a
      route key lands on the file of that key's page. */
  lemma LinkToResolves(base: Url, name: string, root: string, hash: string)
    ensures var c := CtxOf(base, name, root);
            LinkTo(c, hash).Ok? ==>
              Resolve(c.dir, LinkTo(c, hash).value) == ToPath(ToName(hash, root).value)
  {
    var c := CtxOf(base, name, root);
    if LinkTo(c, hash).Ok? {
      RelativeLinkResolves(name, ToName(hash, root).value);
    }
  }

  /** An anchor of the navigation list: rewritten when it is a route, made
      absolute when it has an `href`, never followed. */
  function NavHref(c: Ctx, a: Anchor): (r: Result<Href>)
    requires IsDir(c.dir)
    ensures ShouldFollow(c.base, a.url) ==>
              (r.Ok? <==> LinkTo(c, a.url.hash).Ok?)
              && (r.Ok? ==> r.value == Relative(LinkTo(c, a.url.hash).value))
    ensures !ShouldFollow(c.base, a.url) ==> r == Ok(if a.hasHref then Absolute else Kept)
  {
    if ShouldFollow(c.base, a.url) then
      var p :- LinkTo(c, a.url.hash);
      Ok(Relative(p))
    else Ok(if a.hasHref then Absolute else Kept)
  }

  /** A rewritten route anchor of the navigation list leads to the page of
      its route key. */
  lemma NavHrefResolves(base: Url, name: string, root: string, a: Anchor)
    ensures var c := CtxOf(base, name, root);
            var r := NavHref(c, a);
            ShouldFollow(base, a.url) && r.Ok? ==>
              r.value.Relative? && Resolve(c.dir, r.value.path) == ToPath(ToName(a.url.hash, root).value)
  {
    LinkToResolves(base, name, root, a.url.hash);
  }

  /** The navigation list, anchor by anchor: it fails when one anchor fails,
      and otherwise holds each anchor's new `href` in order. */
  function NavHrefs(c: Ctx, links: seq<Anchor>): (r: Result<seq<Href>>)
    requires IsDir(c.dir)
    ensures r.Ok? <==> forall i :: 0 <= i < |links| ==> NavHref(c, links[i]).Ok?
    ensures r.Ok? ==> |r.value| == |links|
                      && forall i :: 0 <= i < |links| ==> NavHref(c, links[i]) == Ok(r.value[i])
    decreases |links|
  {
    if |links| == 0 then Ok([])
    else
      var h :- NavHref(c, links[0]);
      var t :- NavHrefs(c, links[1..]);
      assert forall i :: 1 <= i < |links| ==> links[i] == links[1..][i - 1];
      Ok([h] + t)
  }

  /** The link-admission rule for one anchor of a section.  Anchors of a
      hidden section and the section's own heading anchor are skipped.  A
      route link is rewritten to the relative path of its page and, when its
      name lies under the current page and its type is indexed, put at the
      front of the links to follow, with the current page as parent. */
  function Admit(c: Ctx, kind: Kind, hidden: bool, a: Anchor, toFollow: seq<Entry>)
    : (r: Result<(Href, seq<Entry>)>)
    requires IsDir(c.dir)
    ensures hidden || a.own ==> r == Ok((Kept, toFollow))
    ensures !hidden && !a.own && !ShouldFollow(c.base, a.url) ==>
              r == Ok((if a.hasHref then Absolute else Kept, toFollow))
    ensures !hidden && !a.own && ShouldFollow(c.base, a.url) ==>
              (r.Ok? <==> ToName(a.url.hash, c.root).Ok?)
    ensures r.Ok? && !hidden && !a.own && ShouldFollow(c.base, a.url) ==>
              var cname := ToName(a.url.hash, c.root).value;
              r.value.0 == Relative(TryMakeRelative(c.dir, ToPath(cname), c.dots))
              && r.value.1 == (if StartsWith(cname, c.name) && !Ignored(kind)
                               then [Entry(kind, a.url.hash, c.name)] + toFollow
                               else toFollow)
    ensures r.Ok? ==> Prepended(c, r.value.1, toFollow)
  {
    PrependedSelf(c, toFollow);
    if hidden || a.own then Ok((Kept, toFollow))
    else if ShouldFollow(c.base, a.url) then
      var cname :- ToName(a.url.hash, c.root);
      var e := Entry(kind, a.url.hash, c.name);
      var admit := StartsWith(cname, c.name) && !Ignored(kind);
      var tf := if admit then [e] + toFollow else toFollow;
      if admit then
        PrependedOne(c, e, toFollow);
        Ok((Relative(TryMakeRelative(c.dir, ToPath(cname), c.dots)), tf))
      else
        Ok((Relative(TryMakeRelative(c.dir, ToPath(cname), c.dots)), tf))
    else Ok((if a.hasHref then Absolute else Kept, toFollow))
  }

  /** An entry the admission rule may have queued from the page `c`: a route
      key whose name lies under the page, of an indexed type, with the page
      as parent. */
  predicate Admissible(c: Ctx, e: Entry) {
    e.hash != "" && !Ignored(e.kind) && e.parent == c.name
    && ToName(e.hash, c.root).Ok? && StartsWith(ToName(e.hash, c.root).value, c.name)
  }

  /** `added` followed by `tail`, where every entry of `added` is admissible. */
  predicate Prepended(c: Ctx, q: seq<Entry>, tail: seq<Entry>) {
    |tail| <= |q| && q[|q| - |tail|..] == tail
    && forall i :: 0 <= i < |q| - |tail| ==> Admissible(c, q[i])
  }

  lemma PrependedSelf(c: Ctx, q: seq<Entry>)
    ensures Prepended(c, q, q)
  {
    assert q[|q| - |q|..] == q;
  }

  lemma PrependedOne(c: Ctx, e: Entry, q: seq<Entry>)
    requires Admissible(c, e)
    ensures Prepended(c, [e] + q, q)
  {
    assert ([e] + q)[1..] == q;
  }

  lemma PrependedTrans(c: Ctx, q: seq<Entry>, mid: seq<Entry>, tail: seq<Entry>)
    requires Prepended(c, q, mid) && Prepended(c, mid, tail)
    ensures Prepended(c, q, tail)
  {
    var k := |q| - |mid|;
    forall i | 0 <= i < |q| - |tail| ensures Admissible(c, q[i]) {
      if i >= k {
        assert q[i] == q[k..][i - k] == mid[i - k];
      }
    }
    assert q[|q| - |tail|..] == q[k..][|mid| - |tail|..];
  }

  /** Whether the admission rule queues anchor `a` of a section: a visible
      route link, not the heading anchor, whose name lies under the page and
      whose type is indexed. */
  predicate Queues(c: Ctx, kind: Kind, hidden: bool, a: Anchor) {
    !hidden && !a.own && ShouldFollow(c.base, a.url) && ToName(a.url.hash, c.root).Ok?
    && StartsWith(ToName(a.url.hash, c.root).value, c.name) && !Ignored(kind)
  }

  /** The entry queued for an anchor, with the current page as parent. */
  function EntryOf(c: Ctx, kind: Kind, a: Anchor): Entry {
    Entry(kind, a.url.hash, c.name)
  }

  /** The entries the anchors of one section put in front of the queue.
      Each is put in front of the ones before it, so the last queued
      anchor comes first. */
  function Queued(c: Ctx, kind: Kind, hidden: bool, links: seq<Anchor>): seq<Entry>
    decreases |links|
  {
    if |links| == 0 then []
    else Queued(c, kind, hidden, links[1..])
         + (if Queues(c, kind, hidden, links[0]) then [EntryOf(c, kind, links[0])] else [])
  }

  /** An entry is queued by a section exactly when one of its anchors is
      queued with that entry. */
  lemma {:induction false} QueuedMembers(c: Ctx, kind: Kind, hidden: bool, links: seq<Anchor>, e: Entry)
    ensures e in Queued(c, kind, hidden, links) <==>
              exists i :: 0 <= i < |links| && Queues(c, kind, hidden, links[i]) && e == EntryOf(c, kind, links[i])
    decreases |links|
  {
    if |links| > 0 {
      QueuedMembers(c, kind, hidden, links[1..], e);
      if e in Queued(c, kind, hidden, links[1..]) {
        var i :| 0 <= i < |links[1..]| && Queues(c, kind, hidden, links[1..][i]) && e == EntryOf(c, kind, links[1..][i]);
        assert links[1..][i] == links[i + 1];
      }
      if exists i :: 0 <= i < |links| && Queues(c, kind, hidden, links[i]) && e == EntryOf(c, kind, links[i]) {
        var i :| 0 <= i < |links| && Queues(c, kind, hidden, links[i]) && e == EntryOf(c, kind, links[i]);
        if i > 0 {
          assert links[i] == links[1..][i - 1];
        }
      }
    }
  }

  /** The new `href` of an anchor, and whether admitting it fails, do not
      depend on the queue; the queue only gains the anchor's entry. */
  lemma AdmitIndep(c: Ctx, kind: Kind, hidden: bool, a: Anchor, q: seq<Entry>)
    requires IsDir(c.dir)
    ensures Admit(c, kind, hidden, a, q).Ok? <==> AnchorHref(c, kind, hidden, a).Ok?
    ensures Admit(c, kind, hidden, a, q).Ok? ==>
              AnchorHref(c, kind, hidden, a) == Ok(Admit(c, kind, hidden, a, q).value.0)
              && Admit(c, kind, hidden, a, q).value.1
                 == (if Queues(c, kind, hidden, a) then [EntryOf(c, kind, a)] else []) + q
  {
  }

  /** The new `href` of one anchor of a section, admitted on its own. */
  function AnchorHref(c: Ctx, kind: Kind, hidden: bool, a: Anchor): Result<Href>
    requires IsDir(c.dir)
  {
    var r := Admit(c, kind, hidden, a, []);
    if r.Ok? then Ok(r.value.0) else Fail(r.message)
  }

  /** The anchors of one section, in document order: admitting them fails
      exactly when one anchor fails, each anchor gets the `href` it gets on
      its own, and every queued anchor goes in front of the queue. */
  function AdmitAll(c: Ctx, kind: Kind, hidden: bool, links: seq<Anchor>, toFollow: seq<Entry>)
    : (r: Result<(seq<Href>, seq<Entry>)>)
    requires IsDir(c.dir)
    ensures r.Ok? <==> forall i :: 0 <= i < |links| ==> AnchorHref(c, kind, hidden, links[i]).Ok?
    ensures r.Ok? ==> |r.value.0| == |links|
                      && forall i :: 0 <= i < |links| ==> AnchorHref(c, kind, hidden, links[i]) == Ok(r.value.0[i])
    ensures r.Ok? ==> r.value.1 == Queued(c, kind, hidden, links) + toFollow
    ensures r.Ok? ==> Prepended(c, r.value.1, toFollow)
    decreases |links|
  {
    if |links| == 0 then Ok(([], toFollow))
    else
      var first := Admit(c, kind, hidden, links[0], toFollow);
      AdmitIndep(c, kind, hidden, links[0], toFollow);
      if first.Fail? then Fail(first.message)
      else
        var rest := AdmitAll(c, kind, hidden, links[1..], first.value.1);
        if rest.Fail? then
          AnchorsFailLater(c, kind, hidden, links);
          Fail(rest.message)
        else
          AnchorHrefsCons(c, kind, hidden, links, first.value.0, rest.value.0);
          PrependedTrans(c, rest.value.1, first.value.1, toFollow);
          QueuedAppend(c, kind, hidden, links, toFollow);
          Ok(([first.value.0] + rest.value.0, rest.value.1))
  }

  /** An anchor after the first that fails makes the section fail. */
  lemma AnchorsFailLater(c: Ctx, kind: Kind, hidden: bool, links: seq<Anchor>)
    requires IsDir(c.dir) && |links| > 0
    requires !forall i :: 0 <= i < |links| - 1 ==> AnchorHref(c, kind, hidden, links[1..][i]).Ok?
    ensures !forall i :: 0 <= i < |links| ==> AnchorHref(c, kind, hidden, links[i]).Ok?
  {
    var i :| 0 <= i < |links| - 1 && !AnchorHref(c, kind, hidden, links[1..][i]).Ok?;
    assert links[1..][i] == links[i + 1];
  }

  /** The first anchor's `href` in front of the rest's are every anchor's. */
  lemma AnchorHrefsCons(c: Ctx, kind: Kind, hidden: bool, links: seq<Anchor>, h: Href, hs: seq<Href>)
    requires IsDir(c.dir) && |links| > 0
    requires AnchorHref(c, kind, hidden, links[0]) == Ok(h)
    requires |hs| == |links| - 1
    requires forall i :: 0 <= i < |links| - 1 ==> AnchorHref(c, kind, hidden, links[1..][i]) == Ok(hs[i])
    ensures forall i :: 0 <= i < |links| ==> AnchorHref(c, kind, hidden, links[i]) == Ok(([h] + hs)[i])
  {
    var all := [h] + hs;
    forall i | 0 <= i < |links| ensures AnchorHref(c, kind, hidden, links[i]) == Ok(all[i]) {
      if i > 0 {
        assert links[i] == links[1..][i - 1];
        assert all[i] == hs[i - 1];
      }
    }
  }

  lemma QueuedAppend(c: Ctx, kind: Kind, hidden: bool, links: seq<Anchor>, q: seq<Entry>)
    requires |links| > 0
    ensures Queued(c, kind, hidden, links[1..])
            + ((if Queues(c, kind, hidden, links[0]) then [EntryOf(c, kind, links[0])] else []) + q)
            == Queued(c, kind, hidden, links) + q
  {
    var a := Queued(c, kind, hidden, links[1..]);
    var b := if Queues(c, kind, hidden, links[0]) then [EntryOf(c, kind, links[0])] else [];
    assert Queued(c, kind, hidden, links) == a + b;
    EntriesAssoc(a, b, q);
  }

  /** The entries all sections put in front of the queue: a later section's
      entries in front of an earlier one's. */
  function SectionsQueued(c: Ctx, sections: seq<Section>): seq<Entry>
    decreases |sections|
  {
    if |sections| == 0 then []
    else SectionsQueued(c, sections[1..]) + Queued(c, sections[0].kind, sections[0].hidden, sections[0].links)
  }

  /** The new `href`s of one section's anchors, admitted on their own. */
  function SectionHrefs(c: Ctx, s: Section): Result<seq<Href>>
    requires IsDir(c.dir)
  {
    var r := AdmitAll(c, s.kind, s.hidden, s.links, []);
    if r.Ok? then Ok(r.value.0) else Fail(r.message)
  }

  /** A section's `href`s, and whether it fails, do not depend on the queue. */
  lemma AdmitAllIndep(c: Ctx, s: Section, q: seq<Entry>)
    requires IsDir(c.dir)
    ensures AdmitAll(c, s.kind, s.hidden, s.links, q).Ok? <==> SectionHrefs(c, s).Ok?
    ensures AdmitAll(c, s.kind, s.hidden, s.links, q).Ok? ==>
              SectionHrefs(c, s) == Ok(AdmitAll(c, s.kind, s.hidden, s.links, q).value.0)
  {
    var a := AdmitAll(c, s.kind, s.hidden, s.links, q);
    var b := AdmitAll(c, s.kind, s.hidden, s.links, []);
    assert a.Ok? <==> b.Ok?;
    if a.Ok? {
      assert |a.value.0| == |b.value.0|;
      assert forall i :: 0 <= i < |a.value.0| ==> a.value.0[i] == b.value.0[i];
      assert a.value.0 == b.value.0;
    }
  }

  /** The sections in page order: admitting them fails exactly when one
      section fails, each section gets the `href`s it gets on its own, and
      the queue gains every section's queued entries in front. */
  function AdmitSections(c: Ctx, sections: seq<Section>, toFollow: seq<Entry>)
    : (r: Result<(seq<seq<Href>>, seq<Entry>)>)
    requires IsDir(c.dir)
    ensures r.Ok? <==> forall i :: 0 <= i < |sections| ==> SectionHrefs(c, sections[i]).Ok?
    ensures r.Ok? ==> |r.value.0| == |sections|
                      && forall i :: 0 <= i < |sections| ==> SectionHrefs(c, sections[i]) == Ok(r.value.0[i])
    ensures r.Ok? ==> r.value.1 == SectionsQueued(c, sections) + toFollow
    ensures r.Ok? ==> Prepended(c, r.value.1, toFollow)
    decreases |sections|
  {
    if |sections| == 0 then Ok(([], toFollow))
    else
      var s := sections[0];
      var first := AdmitAll(c, s.kind, s.hidden, s.links, toFollow);
      AdmitAllIndep(c, s, toFollow);
      if first.Fail? then Fail(first.message)
      else
        var rest := AdmitSections(c, sections[1..], first.value.1);
        if rest.Fail? then
          SectionsFailLater(c, sections);
          Fail(rest.message)
        else
          SectionsHrefsCons(c, sections, first.value.0, rest.value.0);
          PrependedTrans(c, rest.value.1, first.value.1, toFollow);
          SectionsQueuedAppend(c, sections, toFollow);
          Ok(([first.value.0] + rest.value.0, rest.value.1))
  }

  /** A section after the first that fails makes the page fail. */
  lemma SectionsFailLater(c: Ctx, sections: seq<Section>)
    requires IsDir(c.dir) && |sections| > 0
    requires !forall i :: 0 <= i < |sections| - 1 ==> SectionHrefs(c, sections[1..][i]).Ok?
    ensures !forall i :: 0 <= i < |sections| ==> SectionHrefs(c, sections[i]).Ok?
  {
    var i :| 0 <= i < |sections| - 1 && !SectionHrefs(c, sections[1..][i]).Ok?;
    assert sections[1..][i] == sections[i + 1];
  }

  /** The first section's `href`s in front of the rest's are every section's. */
  lemma SectionsHrefsCons(c: Ctx, sections: seq<Section>, h: seq<Href>, hs: seq<seq<Href>>)
    requires IsDir(c.dir) && |sections| > 0
    requires SectionHrefs(c, sections[0]) == Ok(h)
    requires |hs| == |sections| - 1
    requires forall i :: 0 <= i < |sections| - 1 ==> SectionHrefs(c, sections[1..][i]) == Ok(hs[i])
    ensures forall i :: 0 <= i < |sections| ==> SectionHrefs(c, sections[i]) == Ok(([h] + hs)[i])
  {
    var all := [h] + hs;
    forall i | 0 <= i < |sections| ensures SectionHrefs(c, sections[i]) == Ok(all[i]) {
      if i > 0 {
        assert sections[i] == sections[1..][i - 1];
        assert all[i] == hs[i - 1];
      }
    }
  }

  lemma SectionsQueuedAppend(c: Ctx, sections: seq<Section>, q: seq<Entry>)
    requires |sections| > 0
    ensures SectionsQueued(c, sections[1..]) + (Queued(c, sections[0].kind, sections[0].hidden, sections[0].links) + q)
            == SectionsQueued(c, sections) + q
  {
    var a := SectionsQueued(c, sections[1..]);
    var b := Queued(c, sections[0].kind, sections[0].hidden, sections[0].links);
    assert SectionsQueued(c, sections) == a + b;
    EntriesAssoc(a, b, q);
  }

  lemma EntriesAssoc(a: seq<Entry>, b: seq<Entry>, q: seq<Entry>)
    ensures a + (b + q) == (a + b) + q
  {
  }

  /** An entry is queued by a page's sections exactly when some anchor of
      some section is queued with that entry. */
  lemma {:induction false} SectionsQueuedMembers(c: Ctx, sections: seq<Section>, e: Entry)
    ensures e in SectionsQueued(c, sections) <==>
              exists i :: 0 <= i < |sections| && e in Queued(c, sections[i].kind, sections[i].hidden, sections[i].links)
    decreases |sections|
  {
    if |sections| > 0 {
      SectionsQueuedMembers(c, sections[1..], e);
      if exists i :: 0 <= i < |sections| && e in Queued(c, sections[i].kind, sections[i].hidden, sections[i].links) {
        var i :| 0 <= i < |sections| && e in Queued(c, sections[i].kind, sections[i].hidden, sections[i].links);
        if i > 0 {
          assert sections[i] == sections[1..][i - 1];
        }
      }
      if e in SectionsQueued(c, sections[1..]) {
        var i :| 0 <= i < |sections[1..]| && e in Queued(c, sections[1..][i].kind, sections[1..][i].hidden, sections[1..][i].links);
        assert sections[1..][i] == sections[i + 1];
      }
    }
  }

  /** A rewritten route anchor of a section leads, from the page's
      directory, to the page of its route key. */
  lemma SectionLinkResolves(base: Url, name: string, root: string, kind: Kind, hidden: bool, a: Anchor)
    ensures var c := CtxOf(base, name, root);
            var r := Admit(c, kind, hidden, a, []);
            r.Ok? && !hidden && !a.own && ShouldFollow(base, a.url) ==>
              r.value.0.Relative? && Resolve(c.dir, r.value.0.path) == ToPath(ToName(a.url.hash, root).value)
  {
    var c := CtxOf(base, name, root);
    if Admit(c, kind, hidden, a, []).Ok? && !hidden && !a.own && ShouldFollow(base, a.url) {
      RelativeLinkResolves(name, ToName(a.url.hash, root).value);
    }
  }

  /** The opening of the tag holding the short name shown in search results. */
  const NameTag := "<dash_entry_name="

  /** The opening of the tag holding the full name shown beside a result. */
  const MenuTag := "<dash_entry_menuDescription="

  /** The two Dash tags of a search-index row: the short name and the full
      name, both URI-encoded. */
  function EntryTags(name: string): string {
    NameTag + Uri.Encode(LastPiece(name, '.')) + ">" + MenuTag + Uri.Encode(name) + ">"
  }

  /** The path written to the search index: the page file, then the tags. */
  function IndexPath(name: string, filepath: string): (r: string)
    ensures StartsWith(r, filepath)
    ensures r[|filepath|..] == EntryTags(name)
  {
    assert (filepath + EntryTags(name))[..|filepath|] == filepath;
    filepath + EntryTags(name)
  }

  /** The tags read back: cut at each `>`, they give the short-name field and
      the description field, since URI encoding leaves no `>` in either. */
  lemma EntryTagsFields(name: string)
    ensures Split(EntryTags(name), '>') ==
              [NameTag + Uri.Encode(LastPiece(name, '.')), MenuTag + Uri.Encode(name), ""]
  {
    var x, y := Uri.Encode(LastPiece(name, '.')), Uri.Encode(name);
    NoCloseInEncode(LastPiece(name, '.'));
    NoCloseInEncode(name);
    TagsFree();
    TwoFields(NameTag, x, MenuTag, y);
  }

  lemma TagsFree()
    ensures '>' !in NameTag && '>' !in MenuTag
  {
  }

  /** Two `>`-terminated fields without `>` of their own split apart. */
  lemma TwoFields(p: string, x: string, q: string, y: string)
    requires '>' !in p && '>' !in x && '>' !in q && '>' !in y
    ensures Split(p + x + ">" + q + y + ">", '>') == [p + x, q + y, ""]
  {
    var a, b := p + x, q + y;
    assert p + x + ">" + q + y + ">" == (a + ['>'] + b) + ['>'] + "";
    CutTwice(a, b);
  }

  lemma CutTwice(a: string, b: string)
    requires '>' !in a && '>' !in b
    ensures Split((a + ['>'] + b) + ['>'] + "", '>') == [a, b, ""]
  {
    SplitAppend(a + ['>'] + b, '>', "");
    SplitAppend(a, '>', b);
    SplitNoSep(a, '>');
  }

  lemma NoCloseInEncode(s: string)
    ensures '>' !in Uri.Encode(s)
  {
    Uri.EncodeAlphabet(s);
  }

  /** What rendering one page produces. */
  datatype Rendered = Rendered(
    name: string,
    toFollow: seq<Entry>,
    nav: seq<Href>,
    sections: seq<seq<Href>>,
    rest: seq<Href>,
    stylesheet: string,
    row: Row)

  /** `render(…, next)`: the page of `next.hash` named under the first
      segment of its parent's name, its links rewritten and admitted, and
      its search-index row.  The links still to follow are those given
      plus the admitted ones in front. */
  function Render(base: Url, next: Entry, page: Page, toFollow: seq<Entry>): (r: Result<Rendered>)
    ensures var root := FirstPiece(next.parent, '.');
            var n := ToName(next.hash, root);
            r.Ok? <==> n.Ok? && NavHrefs(CtxOf(base, n.value, root), page.listNav).Ok?
                       && AdmitSections(CtxOf(base, n.value, root), page.sections, toFollow).Ok?
    ensures r.Ok? ==> ToName(next.hash, FirstPiece(next.parent, '.')) == Ok(r.value.name)
    ensures r.Ok? ==> r.value.row == Row(r.value.name, next.kind, IndexPath(r.value.name, ToPath(r.value.name)))
    ensures r.Ok? ==> r.value.stylesheet == DotsToRoot(ToDir(r.value.name)) + "style.css"
    ensures r.Ok? ==>
              var c := CtxOf(base, r.value.name, FirstPiece(next.parent, '.'));
              |r.value.nav| == |page.listNav|
              && (forall i :: 0 <= i < |page.listNav| ==> NavHref(c, page.listNav[i]) == Ok(r.value.nav[i]))
              && (r.value.sections, r.value.toFollow) == AdmitSections(c, page.sections, toFollow).value
    ensures r.Ok? ==> |r.value.rest| == |page.rest|
                      && forall i :: 0 <= i < |page.rest| ==>
                           r.value.rest[i] == (if page.rest[i].hasHref then Absolute else Kept)
  {
    var root := FirstPiece(next.parent, '.');
    var name :- ToName(next.hash, root);
    var c := CtxOf(base, name, root);
    var nav :- NavHrefs(c, page.listNav);
    var (secs, tf) :- AdmitSections(c, page.sections, toFollow);
    var rest := seq(|page.rest|, i requires 0 <= i < |page.rest| =>
                      if page.rest[i].hasHref then Absolute else Kept);
    var path := ToPath(name);
    Ok(Rendered(name, tf, nav, secs, rest, c.dots + "style.css", Row(name, next.kind, IndexPath(name, path))))
  }

  /** Rendering a page only puts admissible entries in front of the links
      still to follow. */
  lemma RenderPrepends(base: Url, next: Entry, page: Page, toFollow: seq<Entry>)
    ensures var r := Render(base, next, page, toFollow);
            r.Ok? ==>
              Prepended(CtxOf(base, r.value.name, FirstPiece(next.parent, '.')), r.value.toFollow, toFollow)
  {
    var root := FirstPiece(next.parent, '.');
    var n := ToName(next.hash, root);
    if n.Ok? {
      var c := CtxOf(base, n.value, root);
      var secs := AdmitSections(c, page.sections, toFollow);
    }
  }

  /** Every route anchor of a rendered page's navigation list leads, from the
      page's directory, to the page of its route key. */
  lemma RenderNavResolves(base: Url, next: Entry, page: Page, toFollow: seq<Entry>, i: nat)
    requires i < |page.listNav|
    ensures var r := Render(base, next, page, toFollow);
            var root := FirstPiece(next.parent, '.');
            r.Ok? && ShouldFollow(base, page.listNav[i].url) ==>
              r.value.nav[i].Relative?
              && Resolve(ToDir(r.value.name), r.value.nav[i].path)
                 == ToPath(ToName(page.listNav[i].url.hash, root).value)
  {
    var r := Render(base, next, page, toFollow);
    if r.Ok? {
      NavHrefResolves(base, r.value.name, FirstPiece(next.parent, '.'), page.listNav[i]);
    }
  }

  /** Every route anchor of a visible section of a rendered page, other
      than the section's own heading anchor, leads from the page's directory
      to the page of its route key. */
  lemma RenderSectionResolves(base: Url, next: Entry, page: Page, toFollow: seq<Entry>, i: nat, j: nat)
    requires i < |page.sections| && j < |page.sections[i].links|
    ensures var r := Render(base, next, page, toFollow);
            var s := page.sections[i];
            var a := s.links[j];
            r.Ok? && !s.hidden && !a.own && ShouldFollow(base, a.url) ==>
              |r.value.sections[i]| == |s.links|
              && r.value.sections[i][j].Relative?
              && Resolve(ToDir(r.value.name), r.value.sections[i][j].path)
                 == ToPath(ToName(a.url.hash, FirstPiece(next.parent, '.')).value)
  {
    var r := Render(base, next, page, toFollow);
    var s := page.sections[i];
    var a := s.links[j];
    if r.Ok? && !s.hidden && !a.own && ShouldFollow(base, a.url) {
      var root := FirstPiece(next.parent, '.');
      var c := CtxOf(base, r.value.name, root);
      var all := AdmitAll(c, s.kind, s.hidden, s.links, []);
      assert SectionHrefs(c, s) == Ok(r.value.sections[i]);
      assert all.Ok? && all.value.0 == r.value.sections[i];
      assert AnchorHref(c, s.kind, s.hidden, a) == Ok(r.value.sections[i][j]);
      SectionLinkResolves(base, r.value.name, root, s.kind, s.hidden, a);
    }
  }

  /** A rendered page queues, in front of the links still to follow, exactly
      the entries of the anchors the admission rule queues. */
  lemma RenderQueues(base: Url, next: Entry, page: Page, toFollow: seq<Entry>, e: Entry)
    ensures var r := Render(base, next, page, toFollow);
            r.Ok? ==>
              var c := CtxOf(base, r.value.name, FirstPiece(next.parent, '.'));
              r.value.toFollow == SectionsQueued(c, page.sections) + toFollow
              && (e in SectionsQueued(c, page.sections) <==>
                    exists i :: 0 <= i < |page.sections|
                                && e in Queued(c, page.sections[i].kind, page.sections[i].hidden, page.sections[i].links))
  {
    var r := Render(base, next, page, toFollow);
    if r.Ok? {
      SectionsQueuedMembers(CtxOf(base, r.value.name, FirstPiece(next.parent, '.')), page.sections, e);
    }
  }
}
