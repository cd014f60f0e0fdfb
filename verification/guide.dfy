/** The language-reference generator (genguide.js): every heading of the
    single guide page becomes an index entry of type Builtin, Keyword or
    Guide, described by the heading one level up; the rows of the primitive
    types table become Type entries; links to the standard library's docs
    are pointed at the local `std.html`.
 */
module Guide {
  import opened Results
  import opened Strs
  import opened Kinds
  import Uri

  /** The file the guide is written to. */
  const GuideFile := "Zig Language Reference.html"

  /** The address of the master build's library docs. */
  const MasterStd := "https://ziglang.org/documentation/master/std/"

  /** The anchor of the primitive types table and its entries' description. */
  const PrimitiveAnchor := "#Primitive-Types"
  const PrimitiveDesc := "Primitive Types"

  /** The number in a heading's tag name, `h1` to `h6`. */
  type Level = l: nat | 1 <= l <= 6 witness 1

  /** A heading of the guide: its level, its text and its `id`. */
  datatype Heading = Heading(level: Level, text: string, id: string)

  /** The type a heading is indexed as: `@` marks a builtin function, an
      all-lower-case heading is probably a keyword, anything else is a
      guide section. */
  function HeadingKind(text: string): (k: Kind)
    ensures k == Builtin <==> StartsWith(text, "@")
    ensures k == Keyword <==>
              !StartsWith(text, "@") && forall i :: 0 <= i < |text| ==> !('A' <= text[i] <= 'Z')
    ensures k == Guide || k == Keyword || k == Builtin
  {
    LowerFixedPoint(text);
    if StartsWith(text, "@") then Builtin
    else if Lower(text) == text then Keyword
    else Guide
  }

  /** `index(seq, name, type, filepath, desc)`: the row inserted, whose path
      carries the description only when one is given and not empty. */
  function IndexRow(name: string, kind: Kind, filepath: string, desc: Option<string>): (r: Row)
    ensures r.name == name && r.kind == kind && StartsWith(r.path, filepath)
    ensures r.path == filepath <==> desc.None? || desc.value == ""
    ensures desc.Some? && desc.value != "" ==>
              r.path[|filepath|..] == "<dash_entry_menuDescription=" + Uri.Encode(desc.value) + ">"
  {
    if desc.Some? && desc.value != "" then
      var tag := "<dash_entry_menuDescription=" + Uri.Encode(desc.value) + ">";
      assert (filepath + tag)[..|filepath|] == filepath;
      assert (filepath + tag)[|filepath|..] == tag;
      Row(name, kind, filepath + tag)
    else Row(name, kind, filepath)
  }

  /** `previousHeads`: the text of the most recent heading of each level. */
  type Slots = s: seq<Option<string>> | |s| == 6 witness [None, None, None, None, None, None]

  const NoHeads: Slots := [None, None, None, None, None, None]

  /** The description of a heading: the trimmed text of the heading kept
      one level up, none for a top-level heading. */
  function ParentIn(slots: Slots, level: Level): Option<string> {
    if level == 1 then None
    else match slots[level - 2]
      case None => None
      case Some(t) => Some(Trim(t))
  }

  /** The loop over the headings in document order: each is indexed, and
      its trimmed text is kept at its own level only. */
  function Headings(slots: Slots, hs: seq<Heading>): (rows: seq<Row>)
    ensures |rows| == |hs|
    ensures forall i :: 0 <= i < |rows| ==> rows[i].kind != Type
    decreases |hs|
  {
    if |hs| == 0 then []
    else
      var h := hs[0];
      var text := Trim(h.text);
      var row := IndexRow(text, HeadingKind(text), GuideFile + "#" + h.id, ParentIn(slots, h.level));
      [row] + Headings(slots[h.level - 1 := Some(text)], hs[1..])
  }

  /** The reference definition of a heading's parent: the trimmed text of
      the last heading of the given level before it. */
  function MostRecent(hs: seq<Heading>, level: nat): Option<string>
    decreases |hs|
  {
    if |hs| == 0 then None
    else if hs[|hs| - 1].level == level then Some(Trim(hs[|hs| - 1].text))
    else MostRecent(hs[..|hs| - 1], level)
  }

  function ParentOf(before: seq<Heading>, level: Level): Option<string> {
    if level == 1 then None else MostRecent(before, level - 1)
  }

  /** The row of a heading with the given parent. */
  function HeadingRow(h: Heading, parent: Option<string>): Row {
    var text := Trim(h.text);
    IndexRow(text, HeadingKind(text), GuideFile + "#" + h.id, parent)
  }

  /** The slots hold the last heading of each level among `before`. */
  predicate Tracks(slots: Slots, before: seq<Heading>) {
    slots[0] == MostRecent(before, 1) && slots[1] == MostRecent(before, 2)
    && slots[2] == MostRecent(before, 3) && slots[3] == MostRecent(before, 4)
    && slots[4] == MostRecent(before, 5) && slots[5] == MostRecent(before, 6)
  }

  /** Each heading is described by the most recent earlier heading one level
      up, whatever shallower headings came in between, and a top-level
      heading by nothing.  Stated for the loop from heading `k` on. */
  lemma {:induction false} HeadingsParents(slots: Slots, hs: seq<Heading>, k: nat)
    requires k <= |hs| && Tracks(slots, hs[..k])
    ensures forall i :: k <= i < |hs| ==>
              Headings(slots, hs[k..])[i - k] == HeadingRow(hs[i], ParentOf(hs[..i], hs[i].level))
    decreases |hs| - k
  {
    if k < |hs| {
      var h := hs[k];
      var slots' := slots[h.level - 1 := Some(Trim(h.text))];
      TracksStep(slots, hs[..k], h);
      assert hs[..k] + [h] == hs[..k + 1];
      HeadingsParents(slots', hs, k + 1);
      HeadingsCons(slots, hs[k..]);
      ParentMatches(slots, hs[..k], h.level);
      assert hs[k..][1..] == hs[k + 1..];
      var rows, rest := Headings(slots, hs[k..]), Headings(slots', hs[k + 1..]);
      assert rows == [HeadingRow(h, ParentOf(hs[..k], h.level))] + rest;
      forall i | k < i < |hs|
        ensures rows[i - k] == HeadingRow(hs[i], ParentOf(hs[..i], hs[i].level))
      {
        assert rows[i - k] == rest[i - (k + 1)];
      }
    }
  }

  /** One heading of the loop. */
  lemma HeadingsCons(slots: Slots, hs: seq<Heading>)
    requires |hs| > 0
    ensures Headings(slots, hs)
            == [HeadingRow(hs[0], ParentIn(slots, hs[0].level))]
               + Headings(slots[hs[0].level - 1 := Some(Trim(hs[0].text))], hs[1..])
  {
  }

  /** Keeping a heading's text at its own level keeps the slots tracking. */
  lemma TracksStep(slots: Slots, before: seq<Heading>, h: Heading)
    requires Tracks(slots, before)
    ensures Tracks(slots[h.level - 1 := Some(Trim(h.text))], before + [h])
  {
    var before' := before + [h];
    assert before'[..|before'| - 1] == before;
  }

  /** With tracking slots, the slot one level up is the reference parent. */
  lemma ParentMatches(slots: Slots, before: seq<Heading>, level: Level)
    requires Tracks(slots, before)
    ensures ParentIn(slots, level) == ParentOf(before, level)
  {
    if level > 1 {
      var l := level - 1;
      assert slots[l - 1] == MostRecent(before, l);
      if MostRecent(before, l).Some? {
        MostRecentTrimmed(before, l);
      }
    }
  }

  /** The kept texts are already trimmed. */
  lemma {:induction false} MostRecentTrimmed(hs: seq<Heading>, level: nat)
    requires MostRecent(hs, level).Some?
    ensures Trim(MostRecent(hs, level).value) == MostRecent(hs, level).value
    decreases |hs|
  {
    if hs[|hs| - 1].level != level {
      MostRecentTrimmed(hs[..|hs| - 1], level);
    } else {
      TrimIdempotent(hs[|hs| - 1].text);
    }
  }

  /** The rows of the primitive types table, all of type Type and described
      as primitive types, at the table's anchor. */
  function PrimitiveRows(names: seq<string>): (rows: seq<Row>)
    ensures |rows| == |names|
    ensures forall i :: 0 <= i < |rows| ==>
              rows[i] == IndexRow(names[i], Type, GuideFile + PrimitiveAnchor, Some(PrimitiveDesc))
  {
    seq(|names|, i requires 0 <= i < |names| =>
          IndexRow(names[i], Type, GuideFile + PrimitiveAnchor, Some(PrimitiveDesc)))
  }

  /** A link to the std docs of this version or of master points at the
      local `std.html`; any other link is left as it is. */
  function RewriteLink(base: string, href: string): (r: string)
    ensures r == "std.html" || r == href
  {
    if href == base + "std/" || href == MasterStd then "std.html" else href
  }

  /** What the generator produced: the index rows in insertion order, the
      counters, and the new `href` of every link. */
  datatype GuideRun = GuideRun(rows: seq<Row>, tally: Tally, hrefs: seq<string>)

  /** The rows in insertion order: the main heading as a Guide entry, the
      headings, then the primitive types when their table is found. */
  function GuideRows(title: string, hs: seq<Heading>, primitives: Option<seq<string>>): (rows: seq<Row>)
    ensures |rows| == 1 + |hs| + (if primitives.Some? then |primitives.value| else 0)
  {
    var prims := if primitives.Some? then PrimitiveRows(primitives.value) else [];
    [IndexRow(title, Guide, GuideFile, None)] + Headings(NoHeads, hs) + prims
  }

  /** The check of the base address as written: the source reports a
      missing final `/` by calling an `err` it never defines, so what is
      thrown is the resulting reference error, not the message it meant. */
  function CheckBaseAsWritten(base: string): (r: Result<()>)
    ensures r.Fail? <==> !EndsWith(base, "/")
    ensures r.Fail? ==> r.message == UndefinedErr && r.message != BaseCheckIntended
  {
    if EndsWith(base, "/") then Ok(()) else Fail(UndefinedErr)
  }

  /** The check as meant: a base address without a final `/` is rejected
      with the message the source spells out. */
  function CheckBase(base: string): (r: Result<()>)
    ensures r.Fail? <==> !EndsWith(base, "/")
    ensures r.Fail? ==> r.message == BaseCheckIntended
  {
    if EndsWith(base, "/") then Ok(()) else Fail(BaseCheckIntended)
  }

  /** A versioned address without its final `/` is refused, but with the
      reference error instead of the intended message. */
  lemma BaseCheckLosesMessage()
    ensures CheckBaseAsWritten("https://ziglang.org/documentation/0.11.0").Fail?
    ensures CheckBaseAsWritten("https://ziglang.org/documentation/0.11.0")
            != CheckBase("https://ziglang.org/documentation/0.11.0")
  {
    var b := "https://ziglang.org/documentation/0.11.0";
    assert b[|b| - 1] == '0';
  }

  /** `generate(baseUrl, …)` once the page is loaded, as written: a base
      address without a final `/` is refused first, with the reference
      error of the undefined `err`; otherwise the rows are indexed, counted,
      and the links rewritten. */
  function Generate(base: string, title: string, hs: seq<Heading>,
                    primitives: Option<seq<string>>, links: seq<string>): (r: Result<GuideRun>)
    ensures r.Fail? <==> !EndsWith(base, "/")
    ensures r.Fail? ==> r.message == UndefinedErr
    ensures r.Ok? ==> r.value.rows == GuideRows(title, hs, primitives)
    ensures r.Ok? ==> |r.value.hrefs| == |links|
  {
    var _ :- CheckBaseAsWritten(base);
    Ok(Index(base, title, hs, primitives, links))
  }

  /** `generate` with the base check as meant: the same run, refused with
      the intended message. */
  function GenerateIntended(base: string, title: string, hs: seq<Heading>,
                            primitives: Option<seq<string>>, links: seq<string>): (r: Result<GuideRun>)
    ensures r.Fail? <==> !EndsWith(base, "/")
    ensures r.Fail? ==> r.message == BaseCheckIntended
    ensures r.Ok? ==> r.value.rows == GuideRows(title, hs, primitives)
    ensures r.Ok? ==> |r.value.hrefs| == |links|
  {
    var _ :- CheckBase(base);
    Ok(Index(base, title, hs, primitives, links))
  }

  /** The run after the check: rows, their counters, and the new links. */
  function Index(base: string, title: string, hs: seq<Heading>,
                 primitives: Option<seq<string>>, links: seq<string>): GuideRun
  {
    var rows := GuideRows(title, hs, primitives);
    var hrefs := seq(|links|, i requires 0 <= i < |links| => RewriteLink(base, links[i]));
    GuideRun(rows, TallyOf(map[], rows), hrefs)
  }

  /** The two generators agree on every accepted base address and differ
      only in the message of a refused one. */
  lemma GenerateIntendedAgrees(base: string, title: string, hs: seq<Heading>,
                               primitives: Option<seq<string>>, links: seq<string>)
    ensures var w := Generate(base, title, hs, primitives, links);
            var m := GenerateIntended(base, title, hs, primitives, links);
            (w.Ok? <==> m.Ok?) && (w.Ok? ==> w == m) && (w.Fail? ==> w.message != m.message)
  {
  }

  /** What an undefined `err` throws when called. */
  const UndefinedErr := "err is not defined"

  /** The message the check evidently meant to throw. */
  const BaseCheckIntended := "baseUrl must end in '/'"

  /** The headings' description is right from the first heading on: no slot
      is filled before the loop. */
  lemma NoHeadsTrack()
    ensures Tracks(NoHeads, [])
  {
  }

  /** The guide's rows: the main heading as a Guide entry, then each
      heading with the type of its text and, as description, the most
      recent heading one level up. */
  lemma GuideRowsHeadings(title: string, hs: seq<Heading>, primitives: Option<seq<string>>)
    ensures var rows := GuideRows(title, hs, primitives);
            rows[0] == Row(title, Guide, GuideFile)
            && forall i :: 0 <= i < |hs| ==> rows[1 + i] == HeadingRow(hs[i], ParentOf(hs[..i], hs[i].level))
  {
    var rows := GuideRows(title, hs, primitives);
    var head := IndexRow(title, Guide, GuideFile, None);
    var hrows := Headings(NoHeads, hs);
    var prims := if primitives.Some? then PrimitiveRows(primitives.value) else [];
    assert rows == [head] + hrows + prims;
    assert rows[0] == head;
    HeadingsFromStart(hs);
    forall i | 0 <= i < |hs| ensures rows[1 + i] == HeadingRow(hs[i], ParentOf(hs[..i], hs[i].level)) {
      assert rows[1 + i] == hrows[i];
    }
  }

  /** The whole loop, from empty slots. */
  lemma HeadingsFromStart(hs: seq<Heading>)
    ensures forall i :: 0 <= i < |hs| ==>
              Headings(NoHeads, hs)[i] == HeadingRow(hs[i], ParentOf(hs[..i], hs[i].level))
  {
    NoHeadsTrack();
    assert hs[..0] == [] && hs[0..] == hs;
    HeadingsParents(NoHeads, hs, 0);
  }

  /** The primitive types are the only Type entries. */
  lemma GuideRowsTypes(title: string, hs: seq<Heading>, primitives: Option<seq<string>>)
    ensures CountKind(GuideRows(title, hs, primitives), Type)
            == (if primitives.Some? then |primitives.value| else 0)
  {
    var head := [IndexRow(title, Guide, GuideFile, None)];
    var hrows := Headings(NoHeads, hs);
    var prims := if primitives.Some? then PrimitiveRows(primitives.value) else [];
    assert GuideRows(title, hs, primitives) == head + hrows + prims;
    CountKindConcat(head + hrows, prims, Type);
    CountKindConcat(head, hrows, Type);
    NoneOfKind(hrows, Type);
    AllOfKind(prims, Type);
  }

  /** The counters count exactly the rows indexed, and the primitive types
      are the only Type entries. */
  lemma GenerateTally(base: string, title: string, hs: seq<Heading>,
                      primitives: Option<seq<string>>, links: seq<string>, k: Kind)
    requires EndsWith(base, "/")
    ensures var r := Generate(base, title, hs, primitives, links).value;
            (k in r.tally <==> CountKind(r.rows, k) > 0)
            && (k in r.tally ==> r.tally[k] == CountKind(r.rows, k))
            && CountKind(r.rows, Type) == (if primitives.Some? then |primitives.value| else 0)
  {
    var r := Generate(base, title, hs, primitives, links).value;
    TallyCounts(map[], r.rows, k);
    GuideRowsTypes(title, hs, primitives);
  }

  lemma {:induction false} AllOfKind(rows: seq<Row>, k: Kind)
    requires forall i :: 0 <= i < |rows| ==> rows[i].kind == k
    ensures CountKind(rows, k) == |rows|
    decreases |rows|
  {
    if |rows| > 0 {
      AllOfKind(rows[1..], k);
    }
  }

  /** Exactly the links to the std docs of this version or of master now
      point at `std.html`; every other link is unchanged. */
  lemma GenerateLinks(base: string, title: string, hs: seq<Heading>,
                      primitives: Option<seq<string>>, links: seq<string>)
    requires EndsWith(base, "/")
    ensures var r := Generate(base, title, hs, primitives, links).value;
            forall i :: 0 <= i < |links| ==>
              (links[i] == base + "std/" || links[i] == MasterStd ==> r.hrefs[i] == "std.html")
              && (links[i] != base + "std/" && links[i] != MasterStd ==> r.hrefs[i] == links[i])
  {
  }
}
