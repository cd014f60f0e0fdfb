/** The crawl loop of the API generator (`generate` in genstd.js): select a
    page, render it, and go on until the selection comes back empty.  The
    pages come from an oracle and a fuel bound stands in for the loop's
    unbounded run.
 */
module StdCrawl {
  import opened Results
  import opened Kinds
  import opened StdFrontier
  import opened StdRender

  /** The pages rendered, their index rows, the frontier at the end, and
      whether the crawl ran out of pages (rather than out of fuel). */
  datatype Crawl = Crawl(rendered: seq<Entry>, rows: seq<Row>, final: Frontier, finished: bool)

  /** Rendering one selected page, given the links still to follow. */
  type Renderer = (Entry, seq<Entry>) -> Result<Rendered>

  /** The renderer of the generator: the oracle's page for the key, rendered
      by `render`. */
  function RenderWith(base: Url, pages: string -> Page): Renderer {
    (e: Entry, t: seq<Entry>) => Render(base, e, pages(e.hash), t)
  }

  /** `next = await startNextRender(); while (next) next = await render(…, next)`,
      for at most `fuel` pages.  Only the selection decides which pages are
      rendered, so the loop is stated for any renderer. */
  function CrawlFrom(f: Frontier, render: Renderer, fuel: nat): (r: Result<Crawl>)
    ensures r.Ok? ==> |r.value.rows| == |r.value.rendered|
    ensures r.Ok? && |r.value.rendered| > 0 ==> fuel > 0 && StartNextRender(f).next.Some?
    decreases fuel
  {
    if fuel == 0 then Ok(Crawl([], [], f, false))
    else
      var s := StartNextRender(f);
      if s.next.None? then Ok(Crawl([], [], s.frontier, true))
      else
        var e := s.next.value;
        var out :- render(e, s.frontier.toFollow);
        var f' := Frontier(s.frontier.seen, s.frontier.libs, out.toFollow);
        var rest :- CrawlFrom(f', render, fuel - 1);
        Ok(Crawl([e] + rest.rendered, [out.row] + rest.rows, rest.final, rest.finished))
  }

  /** One page of the loop, then the rest of the crawl. */
  lemma CrawlCons(f: Frontier, render: Renderer, fuel: nat, e: Entry, out: Rendered, c: Crawl)
    requires fuel > 0 && StartNextRender(f).next == Some(e)
    requires render(e, StartNextRender(f).frontier.toFollow) == Ok(out)
    requires var s := StartNextRender(f);
             CrawlFrom(Frontier(s.frontier.seen, s.frontier.libs, out.toFollow), render, fuel - 1) == Ok(c)
    ensures CrawlFrom(f, render, fuel) == Ok(Crawl([e] + c.rendered, [out.row] + c.rows, c.final, c.finished))
  {
  }

  /** The crawl only adds to the seen set. */
  lemma {:induction false} CrawlSeenGrows(f: Frontier, render: Renderer, fuel: nat)
    ensures var r := CrawlFrom(f, render, fuel);
            r.Ok? ==> f.seen <= r.value.final.seen
    decreases fuel
  {
    if fuel > 0 {
      var s := StartNextRender(f);
      if s.next.Some? {
        var e := s.next.value;
        var out := render(e, s.frontier.toFollow);
        if out.Ok? {
          var f' := Frontier(s.frontier.seen, s.frontier.libs, out.value.toFollow);
          CrawlSeenGrows(f', render, fuel - 1);
          var rest := CrawlFrom(f', render, fuel - 1);
          if rest.Ok? {
            var c := rest.value;
            var rs := [e] + c.rendered;
            CrawlCons(f, render, fuel, e, out.value, c);
          }
        }
      }
    }
  }

  /** Every page rendered had a key not seen before the crawl, and seen
      after it. */
  lemma {:induction false} CrawlFreshKeys(f: Frontier, render: Renderer, fuel: nat)
    ensures var r := CrawlFrom(f, render, fuel);
            r.Ok? ==> forall i :: 0 <= i < |r.value.rendered| ==>
              r.value.rendered[i].hash !in f.seen && r.value.rendered[i].hash in r.value.final.seen
    decreases fuel
  {
    if fuel > 0 {
      var s := StartNextRender(f);
      if s.next.Some? {
        var e := s.next.value;
        var out := render(e, s.frontier.toFollow);
        if out.Ok? {
          var f' := Frontier(s.frontier.seen, s.frontier.libs, out.value.toFollow);
          CrawlFreshKeys(f', render, fuel - 1);
          CrawlSeenGrows(f', render, fuel - 1);
          var rest := CrawlFrom(f', render, fuel - 1);
          if rest.Ok? {
            var c := rest.value;
            assert f'.seen <= c.final.seen;
            assert e.hash !in f.seen && e.hash in f'.seen && f.seen <= f'.seen;
            CrawlCons(f, render, fuel, e, out.value, c);
            FreshCons(e, f.seen, f'.seen, c.rendered, c.final.seen);
          }
        }
      }
    }
  }

  /** Every page is rendered at most once: the keys rendered are
      distinct. */
  lemma {:induction false} CrawlRendersOnce(f: Frontier, render: Renderer, fuel: nat)
    ensures var r := CrawlFrom(f, render, fuel);
            r.Ok? ==> KeysDistinct(r.value.rendered)
    decreases fuel
  {
    if fuel > 0 {
      var s := StartNextRender(f);
      if s.next.Some? {
        var e := s.next.value;
        var out := render(e, s.frontier.toFollow);
        if out.Ok? {
          var f' := Frontier(s.frontier.seen, s.frontier.libs, out.value.toFollow);
          CrawlRendersOnce(f', render, fuel - 1);
          CrawlFreshKeys(f', render, fuel - 1);
          var rest := CrawlFrom(f', render, fuel - 1);
          if rest.Ok? {
            CrawlCons(f, render, fuel, e, out.value, rest.value);
            DistinctCons(e, f'.seen, rest.value.rendered);
          }
        }
      }
    }
  }

  /** Each page's index row carries the page's type. */
  lemma {:induction false} CrawlRowKinds(f: Frontier, render: Renderer, fuel: nat)
    requires Sound(render)
    ensures var r := CrawlFrom(f, render, fuel);
            r.Ok? ==> forall i :: 0 <= i < |r.value.rows| ==> r.value.rows[i].kind == r.value.rendered[i].kind
    decreases fuel
  {
    if fuel > 0 {
      var s := StartNextRender(f);
      if s.next.Some? {
        var e := s.next.value;
        var out := render(e, s.frontier.toFollow);
        if out.Ok? {
          var f' := Frontier(s.frontier.seen, s.frontier.libs, out.value.toFollow);
          CrawlRowKinds(f', render, fuel - 1);
          assert out.value.row.kind == e.kind;
          var rest := CrawlFrom(f', render, fuel - 1);
          if rest.Ok? {
            CrawlCons(f, render, fuel, e, out.value, rest.value);
            KindsCons(e, out.value.row, rest.value.rendered, rest.value.rows);
          }
        }
      }
    }
  }

  /** No two entries share a key. */
  predicate KeysDistinct(q: seq<Entry>) {
    forall i, j :: 0 <= i < j < |q| ==> q[i].hash != q[j].hash
  }

  /** A page with a fresh key, then pages with keys fresher still. */
  lemma FreshCons(e: Entry, before: set<string>, mid: set<string>, rest: seq<Entry>, after: set<string>)
    requires before <= mid && mid <= after
    requires e.hash !in before && e.hash in mid
    requires forall i :: 0 <= i < |rest| ==> rest[i].hash !in mid && rest[i].hash in after
    ensures forall i :: 0 <= i < |[e] + rest| ==>
              ([e] + rest)[i].hash !in before && ([e] + rest)[i].hash in after
  {
    var rs := [e] + rest;
    forall i | 0 <= i < |rs| ensures rs[i].hash !in before && rs[i].hash in after {
      if i > 0 {
        assert rs[i] == rest[i - 1];
      }
    }
  }

  /** A key seen before the rest of the crawl is not rendered again. */
  lemma DistinctCons(e: Entry, mid: set<string>, rest: seq<Entry>)
    requires e.hash in mid && KeysDistinct(rest)
    requires forall i :: 0 <= i < |rest| ==> rest[i].hash !in mid
    ensures KeysDistinct([e] + rest)
  {
    var rs := [e] + rest;
    forall i, j | 0 <= i < j < |rs| ensures rs[i].hash != rs[j].hash {
      assert rs[j] == rest[j - 1];
      if i > 0 {
        assert rs[i] == rest[i - 1];
      }
    }
  }

  lemma KindsCons(e: Entry, row: Row, rest: seq<Entry>, rows: seq<Row>)
    requires row.kind == e.kind && |rows| == |rest|
    requires forall i :: 0 <= i < |rows| ==> rows[i].kind == rest[i].kind
    ensures forall i :: 0 <= i < |[row] + rows| ==> ([row] + rows)[i].kind == ([e] + rest)[i].kind
  {
    forall i | 0 <= i < |[row] + rows| ensures ([row] + rows)[i].kind == ([e] + rest)[i].kind {
      if i > 0 {
        assert ([row] + rows)[i] == rows[i - 1] && ([e] + rest)[i] == rest[i - 1];
      }
    }
  }

  /** A queued entry that will be indexed when rendered: a real key of an
      indexed type. */
  predicate Indexable(e: Entry) {
    e.hash != "" && !Ignored(e.kind)
  }

  predicate AllIndexable(q: seq<Entry>) {
    forall i :: 0 <= i < |q| ==> Indexable(q[i])
  }

  predicate QueuesIndexable(f: Frontier) {
    AllIndexable(f.toFollow) && AllIndexable(f.libs)
  }

  /** What the crawl needs of a renderer: the index row has the page's type,
      and the links it queues are indexable. */
  ghost predicate Sound(render: Renderer) {
    forall e, t :: render(e, t).Ok? ==>
      render(e, t).value.row.kind == e.kind
      && (AllIndexable(t) ==> AllIndexable(render(e, t).value.toFollow))
  }

  /** The generator's renderer is sound. */
  lemma RenderWithSound(base: Url, pages: string -> Page)
    ensures Sound(RenderWith(base, pages))
  {
    forall e, t | RenderWith(base, pages)(e, t).Ok?
      ensures RenderWith(base, pages)(e, t).value.row.kind == e.kind
      ensures AllIndexable(t) ==> AllIndexable(RenderWith(base, pages)(e, t).value.toFollow)
    {
      assert RenderWith(base, pages)(e, t) == Render(base, e, pages(e.hash), t);
      if AllIndexable(t) {
        RenderKeepsIndexable(base, e, pages(e.hash), t);
      }
    }
  }

  /** Rendering keeps the links to follow indexable. */
  lemma RenderKeepsIndexable(base: Url, e: Entry, page: Page, t: seq<Entry>)
    requires AllIndexable(t)
    ensures var out := Render(base, e, page, t);
            out.Ok? ==> AllIndexable(out.value.toFollow)
  {
    var out := Render(base, e, page, t);
    RenderPrepends(base, e, page, t);
    if out.Ok? {
      var q := out.value.toFollow;
      forall i | 0 <= i < |q| ensures Indexable(q[i]) {
        if i >= |q| - |t| {
          assert q[i] == q[|q| - |t|..][i - (|q| - |t|)];
        }
      }
    }
  }

  lemma IndexableCons(e: Entry, rest: seq<Entry>)
    requires Indexable(e) && AllIndexable(rest)
    ensures AllIndexable([e] + rest)
  {
    forall i | 0 <= i < |[e] + rest| ensures Indexable(([e] + rest)[i]) {
      if i > 0 {
        assert ([e] + rest)[i] == rest[i - 1];
      }
    }
  }

  /** Selection keeps the queues indexable and picks an indexable entry. */
  lemma SelectionKeepsIndexable(f: Frontier)
    requires QueuesIndexable(f)
    ensures QueuesIndexable(StartNextRender(f).frontier)
    ensures StartNextRender(f).next.Some? ==> Indexable(StartNextRender(f).next.value)
  {
    var s := StartNextRender(f);
    var tf, ls := s.frontier.toFollow, s.frontier.libs;
    assert forall i :: 0 <= i < |tf| ==> tf[i] == f.toFollow[i];
    assert forall i :: 0 <= i < |ls| ==> ls[i] == f.libs[i];
    SelectedFromQueues(f);
  }

  /** Starting from indexable queues (the libraries are of type Library),
      every page rendered is indexable, and a crawl that finishes leaves both
      queues empty. */
  lemma {:induction false} CrawlIndexable(f: Frontier, render: Renderer, fuel: nat)
    requires QueuesIndexable(f) && Sound(render)
    ensures var r := CrawlFrom(f, render, fuel);
            r.Ok? ==> AllIndexable(r.value.rendered)
    ensures var r := CrawlFrom(f, render, fuel);
            r.Ok? && r.value.finished ==> r.value.final.toFollow == [] && r.value.final.libs == []
    decreases fuel
  {
    if fuel > 0 {
      var s := StartNextRender(f);
      SelectionKeepsIndexable(f);
      if s.next.None? {
        SelectionExhausts(f);
      } else {
        var e := s.next.value;
        var out := render(e, s.frontier.toFollow);
        if out.Ok? {
          var f' := Frontier(s.frontier.seen, s.frontier.libs, out.value.toFollow);
          CrawlIndexable(f', render, fuel - 1);
          var rest := CrawlFrom(f', render, fuel - 1);
          if rest.Ok? {
            CrawlCons(f, render, fuel, e, out.value, rest.value);
            IndexableCons(e, rest.value.rendered);
          }
        }
      }
    }
  }

  /** Hence no page of an ignored type is indexed, and the counter table of
      the generator's crawl never gains an ignored type. */
  lemma IgnoredNeverCounted(f: Frontier, base: Url, pages: string -> Page, fuel: nat, k: Kind)
    requires QueuesIndexable(f) && Ignored(k)
    ensures var r := CrawlFrom(f, RenderWith(base, pages), fuel);
            r.Ok? ==> k !in TallyOf(map[], r.value.rows)
  {
    var render := RenderWith(base, pages);
    var r := CrawlFrom(f, render, fuel);
    if r.Ok? {
      RenderWithSound(base, pages);
      CrawlIndexable(f, render, fuel);
      CrawlRowKinds(f, render, fuel);
      forall i | 0 <= i < |r.value.rows| ensures r.value.rows[i].kind != k {
        assert Indexable(r.value.rendered[i]);
      }
      NoneOfKind(r.value.rows, k);
      TallyCounts(map[], r.value.rows, k);
    }
  }
}
