/** The crawl frontier of the API generator (genstd.js): a stack of links
    still to follow, a list of library root pages, and the set of route keys
    already taken.  `startNextRender` takes the next page to render from the
    end of the links, and from the libraries only once no link is left.

    The JavaScript code reads an undefined hash as "nothing chosen"; the model
    writes the empty key `""` for it, which is equally falsy.
 */
module StdFrontier {
  import opened Results
  import opened Kinds

  /** A page waiting to be rendered: its type, its route key and the name it
      is rendered under (the linking page's name for a followed link, the
      library's own name for a library). */
  datatype Entry = Entry(kind: Kind, hash: string, parent: string)

  datatype Frontier = Frontier(seen: set<string>, libs: seq<Entry>, toFollow: seq<Entry>)

  /** The outcome of popping one queue: the seen set afterwards, what is left
      of the queue, and the entry taken, if any. */
  datatype Popped = Popped(seen: set<string>, rest: seq<Entry>, picked: Option<Entry>)

  /** One queue loop of `startNextRender`: pop from the end, skip entries
      whose key was seen, and take the first unseen one, marking it seen. */
  function PopUnseen(seen: set<string>, q: seq<Entry>): (p: Popped)
    ensures |p.rest| <= |q| && p.rest == q[..|p.rest|]
    ensures p.picked.Some? ==>
              |p.rest| < |q| && p.picked.value == q[|p.rest|] && p.picked.value.hash !in seen
              && p.seen == seen + {p.picked.value.hash}
    ensures p.picked.None? ==> p.rest == [] && p.seen == seen
    ensures forall i :: |p.rest| < i < |q| ==> q[i].hash in seen
    ensures p.picked.None? ==> forall i :: 0 <= i < |q| ==> q[i].hash in seen
    decreases |q|
  {
    if |q| == 0 then Popped(seen, [], None)
    else
      var e := q[|q| - 1];
      if e.hash in seen then PopUnseen(seen, q[..|q| - 1])
      else Popped(seen + {e.hash}, q[..|q| - 1], Some(e))
  }

  /** The frontier after a selection and the page chosen, if any. */
  datatype Step = Step(frontier: Frontier, next: Option<Entry>)

  /** Every queued entry has a non-empty key (the links followed always do). */
  predicate KeyedQueues(f: Frontier) {
    (forall i :: 0 <= i < |f.toFollow| ==> f.toFollow[i].hash != "")
    && (forall i :: 0 <= i < |f.libs| ==> f.libs[i].hash != "")
  }

  /** `startNextRender()`: the links are tried first; the libraries only
      while nothing was chosen and no link is left. */
  function StartNextRender(f: Frontier): (r: Step)
    ensures f.seen <= r.frontier.seen
    ensures r.next.Some? ==>
              r.next.value.hash != "" && r.next.value.hash !in f.seen
              && r.next.value.hash in r.frontier.seen
    ensures |r.frontier.toFollow| <= |f.toFollow|
            && r.frontier.toFollow == f.toFollow[..|r.frontier.toFollow|]
    ensures |r.frontier.libs| <= |f.libs| && r.frontier.libs == f.libs[..|r.frontier.libs|]
    ensures r.frontier.libs != f.libs ==>
              r.frontier.toFollow == [] && forall i :: 0 <= i < |f.toFollow| ==>
                f.toFollow[i].hash in f.seen || f.toFollow[i].hash == ""
    ensures r.next.Some? && r.frontier.toFollow != [] ==> r.frontier.libs == f.libs
  {
    var a := PopUnseen(f.seen, f.toFollow);
    var h := if a.picked.Some? then a.picked.value.hash else "";
    if h == "" && a.rest == [] then
      var b := PopUnseen(a.seen, f.libs);
      var next := if b.picked.Some? && b.picked.value.hash != "" then b.picked else None;
      Step(Frontier(b.seen, b.rest, []), next)
    else
      Step(Frontier(a.seen, f.libs, a.rest), if h == "" then None else a.picked)
  }

  /** With keyed queues, nothing is chosen exactly when every queued key has
      been seen, and the seen set grows by the chosen key alone. */
  lemma SelectionExhausts(f: Frontier)
    requires KeyedQueues(f)
    ensures var r := StartNextRender(f);
            r.next.None? <==>
              (forall i :: 0 <= i < |f.toFollow| ==> f.toFollow[i].hash in f.seen)
              && (forall i :: 0 <= i < |f.libs| ==> f.libs[i].hash in f.seen)
    ensures var r := StartNextRender(f);
            r.frontier.seen == f.seen + (if r.next.Some? then {r.next.value.hash} else {})
    ensures var r := StartNextRender(f);
            r.next.None? ==> r.frontier.toFollow == [] && r.frontier.libs == []
  {
    var a := PopUnseen(f.seen, f.toFollow);
    if a.picked.Some? {
      assert a.picked.value in f.toFollow;
    } else {
      var b := PopUnseen(a.seen, f.libs);
      if b.picked.Some? {
        assert b.picked.value in f.libs;
      }
    }
  }

  /** Nothing is lost: every entry the selection removes from either queue
      had been seen already, except the entry it returns. */
  lemma NothingLost(f: Frontier)
    requires KeyedQueues(f)
    ensures var r := StartNextRender(f);
            forall i :: |r.frontier.toFollow| <= i < |f.toFollow| ==>
              f.toFollow[i].hash in f.seen || r.next == Some(f.toFollow[i])
    ensures var r := StartNextRender(f);
            forall i :: |r.frontier.libs| <= i < |f.libs| ==>
              f.libs[i].hash in f.seen || r.next == Some(f.libs[i])
  {
    var a := PopUnseen(f.seen, f.toFollow);
    var h := if a.picked.Some? then a.picked.value.hash else "";
    if h == "" && a.rest == [] {
      var b := PopUnseen(a.seen, f.libs);
      assert a.picked.None?;
    }
  }

  /** The page chosen is one of the queued entries. */
  lemma SelectedFromQueues(f: Frontier)
    ensures var r := StartNextRender(f);
            r.next.Some? ==> r.next.value in f.toFollow || r.next.value in f.libs
  {
  }
}
