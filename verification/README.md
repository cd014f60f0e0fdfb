# zig2dash, modelled in Dafny

zig2dash turns the Zig web documentation into Dash docsets. Three
generators crawl the documentation and do the same bookkeeping. The API
generator (genstd.js) and the older one (index.cjs, old/gen.js) drive the
single-page web app from route key to route key. The language-reference
generator (genguide.js) indexes the headings of one long page. For each page
they work out a dotted page name from the route key (`#A;Array:append:`),
then a file path inside the docset (`Array/append.html`). They rewrite every
in-app link into a relative link to that file, queue the links still to
follow, and insert a row `(name, type, path)` into the search index. Two
small worker pools (workerutils.js, old/workerutils.js) hand jobs to
threads and route their messages.

This project models that bookkeeping as pure functions over immutable
data. The page the web app draws for a key is an oracle parameter. The
model keeps only the anchors, sections and headings the generators read.
It then proves the properties the generators rely on:

- page names come back from their keys;
- every rewritten link resolves to the page it names;
- the crawl renders no page twice and drops no queued link unaccounted for: in index.cjs every key pushed is rendered once the crawl runs out of pages, and in genstd.js the queues end empty with every dropped entry's key already seen;
- ignored section types are never indexed;
- the counters count exactly the `index` calls (a row the search index already holds is not inserted again, but is still counted);
- the version test is a total preorder on release numbers;
- the worker pools keep their bookkeeping consistent.

Modules, one file each:

- `Results`: `Option` and `Result`. An exception is `Fail(message)`, with the message the source throws.
- `Strs`: the JavaScript string operations the generators use. This covers `replace` with a string pattern (first occurrence, `$` patterns in the replacement), `split`/`join`, `trim`, `toLowerCase`, `repeat`, `indexOf`, `at(0)` and `at(-1)`.
- `Kinds`: index types, rows and the `idxTable` counters.
- `Decimal`: `String(n)` for the worker numbers in error messages.
- `Uri`: `encodeURIComponent`.
- `Links`: how a browser resolves a relative link from a page directory.
- `Versions`: `newerThanOrEqual`.
- `StdNames`, `StdFrontier`, `StdRender`, `StdCrawl`: the API generator.
- `CjsNames`, `CjsCrawl`: index.cjs, and the naming of old/gen.js.
- `Guide`: genguide.js.
- `Pool`: workerutils.js.
- `OldPool`, `OldCrawl`: old/workerutils.js and old/gen.js.

Two facts about the code that a reader might not expect:

- genstd.js:30-42 names the key `#A;Array:append:` `Array.append`, not
  `std.Array.append`: only a body that starts with `root` gets the library
  name. Its path is `Array/append.html`; a name `std.Array.append` would
  have the path `std/Array/append.html`. The index row carries the name as
  computed, with a path followed by the `dash_entry_*` tags
  (`StdRender.IndexPath`).
- genstd.js's `toPath` (lines 43-51) sends `.x` and `x` to the same file
  (`StdNames.ToPathLeadingDotCollision`). Injectivity holds for names
  without `/` that do not start with `.` (`StdNames.ToPathInjective`).
  index.cjs's `toPath` is injective on names without `/`.

## Model

| member | source | states |
|---|---|---|
| Strs.IndexOf | genstd.js:38 | `indexOf` gives the first position where the pattern occurs, and none when it occurs nowhere |
| Strs.Substitute | genstd.js:40 | a replacement text without `$` is inserted verbatim |
| Strs.SubstitutePatterns | genstd.js:40 | `$$` gives `$`, `$&` the match, `` $` `` the text before it, `$'` the text after it; a `$` before any other character, and every other character, is copied |
| Strs.ReplaceBySelf | genstd.js:38-40 | replacing the first occurrence by `$&` gives back the string |
| Strs.ReplaceFirst | genstd.js:38 | `replace` with a string pattern leaves a string without the pattern unchanged |
| Strs.ReplaceFirstLiteral | genstd.js:38-40 | with a `$`-free replacement, only the first occurrence is replaced, and the text before and after it is kept |
| Strs.ReplaceFirstChar | genstd.js:38 | replacing one character by another keeps the length and removes exactly one occurrence when there is one |
| Strs.ReplaceCharAt | index.cjs:32 | replacing the first `;` found at position i gives the prefix before i, the replacement, then the rest |
| Strs.ReplacePrefix | genstd.js:39-40 | a string that starts with the pattern has that prefix replaced |
| Strs.Split | genstd.js:44 | `split` on one character gives one piece more than there are separators, no piece contains the separator, and joining the pieces restores the string |
| Strs.SplitAppend | genstd.js:47 | splitting `p + c + t`, where t has no c, gives the pieces of p and then t, so `at(-1)` is t |
| Strs.JoinSplitIsMap | genstd.js:44 | `split(".").join("/")` turns every `.` into `/` and changes nothing else |
| Strs.LastPiece | genstd.js:47 | `split(c).at(-1)` has no c and is a suffix of the string |
| Strs.FirstPiece | genstd.js:112 | `split(c).at(0)` is the whole string when it has no c, and otherwise the text before the first c |
| Strs.Repeat | genstd.js:117 | `repeat(n)` is n copies of the string: n times the length, with character i equal to character i mod the length |
| Strs.Trim | genguide.js:94 | `trim` returns the slice between the leading and trailing white space, with no white space at either end |
| Strs.TrimIdempotent | genguide.js:94-98 | trimming an already trimmed heading text changes nothing |
| Strs.Lower | genguide.js:103 | `toLowerCase` lowers every ASCII letter and keeps the length |
| Strs.LowerFixedPoint | genguide.js:103 | a text equals its lower-case form exactly when it has no upper-case letter |
| Strs.MapCharCount | genstd.js:44 | turning every `.` into `/` moves the `.` count onto `/` and leaves no `.` |
| Kinds.Bump | genstd.js:83-84 | a type seen for the first time starts at 1, otherwise its counter goes up by one, and every other counter is unchanged |
| Kinds.TallyCounts | genstd.js:81-84 | after indexing a list of rows, a type has a counter exactly when a row of it was indexed (or it had one), and the counter grew by exactly the number of such rows |
| Kinds.TallyMonotone | genstd.js:83-84 | counters never go down |
| Decimal.Show | workerutils.js:49 | a worker number is written as a digit string without leading zeros whose value is the number |
| Uri.Utf8 | genstd.js:88 | the byte count is set by the code point's range, the lead byte announces it, the others are continuation bytes, and the bytes decode back to the code point |
| Uri.Escapes | genstd.js:88 | each byte becomes three characters, `%` and two hexadecimal digits |
| Uri.EscapesValues | genstd.js:88 | the two digits after each `%` read back as that byte's value |
| Uri.UnescapeEscapes | genstd.js:88 | reading the escapes back gives the bytes |
| Uri.EncodeCharRoundTrip | genstd.js:88 | an escaped character's escapes decode back to its code point |
| Uri.HexValue | genstd.js:88 | the hexadecimal digits are exactly the inverse of the digit values below 16 |
| Uri.EncodeChar | genstd.js:88-89 | an unreserved character is kept; any other becomes 3 to 12 characters starting with `%` |
| Uri.Encode | genstd.js:88-89 | `encodeURIComponent` never shortens its input |
| Uri.EncodeAlphabet | genstd.js:88-89 | the encoded tags contain only unreserved characters, `%` and hexadecimal digits |
| Uri.EncodeFixedPoint | genstd.js:88-89 | a name comes out unchanged exactly when all its characters are unreserved |
| Links.ParentDir | genstd.js:117 | one `../` climbs one directory level, and the root is its own parent |
| Links.DotsToRoot | genstd.js:117 | `"../".repeat(path.split("/").length - 1)` is one `../` per `/` of the path |
| Links.ClimbToRoot | genstd.js:117-118 | followed from a page directory, `dotsToRoot + q` lands on q at the docset root whenever q does not itself climb |
| Links.ResolveUp | genstd.js:117 | a leading `../` resolves from the parent directory |
| Links.ResolveDown | genstd.js:48-51 | a link that does not climb resolves to the directory followed by the link |
| Versions.ParseInt | genstd.js:96 | `parseInt` on a piece is a number exactly when the piece starts with a digit, and on a digit string it is its decimal value |
| Versions.ParseIntPrefix | genstd.js:96 | a piece counts by its leading digits only (`0-dev` reads as 0) |
| Versions.Components | genstd.js:96-97 | a version has one component per `.`-separated piece |
| Versions.Pad | genstd.js:98-99 | a list shorter than three gets a single `0` appended, and a longer one is kept |
| Versions.Triple | genstd.js:94 | a reference release number stands for three numbers |
| Versions.PaddedRef | genstd.js:94-99 | the padded components of a reference are exactly its three numbers |
| Versions.NewerThanOrEqual | genstd.js:93-95 | a reference that is not a release number (a development build) is always reached |
| Versions.NumericOrder | genstd.js:100-104 | when the first three components of the version are numbers, the test is the lexicographic order of the triples |
| Versions.RefIsNumeric | genstd.js:94-99 | a release number's components are all numbers and are its triple |
| Versions.ReleaseOrder | genstd.js:93-105 | between release numbers the test is reflexive, total and transitive, and holds both ways exactly for equal triples (`0.9` and `0.9.0`) |
| Versions.NotANumberIsOlder | genstd.js:96-102 | a version whose first piece does not start with a digit is older than every release number |
| StdNames.ToName | genstd.js:30-42 | a missing root package name throws; a key starting with `#` but not `#A` throws; the empty key names the root package |
| StdNames.SpellNameAt | genstd.js:38-40 | only the first separator of a key body becomes `.`, and a leading `root` becomes the root package name |
| StdNames.SpellRootChild | genstd.js:39-40 | a body `root` + separator + rest spells the root package name, `.`, then rest |
| StdNames.ToNameRootChild | genstd.js:30-42 | a key `#A;root:` + rest + `:` names the child rest of the root package |
| StdNames.BodyOfKey | genstd.js:34-37 | a canonical key `#A;` + body + `:` is supported and its prefix and one trailing `:` are stripped |
| StdNames.RootAlias | genstd.js:39-40 | writing the root package name back as `root` keeps the rest of the name |
| StdNames.RootBack | genstd.js:39-40 | spelling the alias back with the first-`root` replacement restores the name |
| StdNames.SwapBack | genstd.js:38 | swapping the first `.` for a separator and back with `replace` restores a separator-free name |
| StdNames.ToNameOfKey | genstd.js:30-42 | every `:`-free page name comes back from its canonical key |
| StdNames.ToDir | genstd.js:43-46 | `toDir` is empty or a `/`-terminated directory path |
| StdNames.DirOfLastDot | genstd.js:43-47 | the last `.` of a name splits it into the directory (dots turned into `/`) and the file stem |
| StdNames.ToDirEmpty | genstd.js:43-46 | the directory is empty exactly when the name has no `.` except a single leading one, and otherwise ends in `/` |
| StdNames.SlashesAtLastDot | genstd.js:44-47 | the name with all dots turned into `/` is the directory part, `/`, then the stem |
| StdNames.PathAtLastDot | genstd.js:47 | the path of a name with a directory part is the directory, the last segment and `.html` |
| StdNames.ToPathIsDotsToSlashes | genstd.js:43-47 | when the name has a directory part, its path is the name with every `.` turned into `/`, then `.html` |
| StdNames.ToPathSlashes | genstd.js:43-47 | a `/`-free name's path has one `/` per `.` of the name, or none for a root page |
| StdNames.ToPathFlat | genstd.js:43-47 | unless the name is a leading `.` and a dot-free stem, its path is the name with dots turned into `/`, then `.html` |
| StdNames.ToPathNoDot | genstd.js:47 | a name without `.` is its own file stem in the docset root |
| StdNames.ToPathInjective | genstd.js:43-47 | two names without `/` that do not start with `.` never share a path |
| StdNames.ToPathLeadingDotCollision | genstd.js:43-47 | `.x` and `x` share a path |
| StdNames.TryMakeRelative | genstd.js:48-51 | a path below the source directory becomes the rest of the path; any other gets the climb to the root in front |
| StdNames.ToPathStem | genstd.js:47 | a page path ends in `.html` and has no other `.` |
| StdNames.ToPathNoUp | genstd.js:47 | no suffix of a page path starts with `../` |
| StdNames.StemNoUp | genstd.js:47 | a dot-free stem followed by `.html` contains no `../` |
| StdNames.RelativeLinkResolves | genstd.js:116-126 | every rewritten in-app link, followed from the directory of the page it is on, lands on the file of the page it names |
| StdNames.RelativeResolves | genstd.js:48-51 | a relative link made by `tryMakeRelative` to a path that does not climb resolves to that path |
| StdNames.ToDirSlashes | genstd.js:116-117 | the directory of a `/`-free name has one `/` per `.` of the name, or none |
| StdNames.DotsToRootOfPage | genstd.js:116-117 | a page climbs one `../` per directory level, and none for a dot-free name |
| StdFrontier.PopUnseen | genstd.js:60-66 | popping from the end skips seen keys and takes the first unseen entry, marking it seen; what is skipped was seen |
| StdFrontier.StartNextRender | genstd.js:58-79 | the chosen key is non-empty, was unseen and is now seen; the queues only shrink from the end; the libraries are tried only when no link is left |
| StdFrontier.SelectionExhausts | genstd.js:58-74 | nothing is chosen exactly when every queued key was seen, and the seen set grows by the chosen key alone |
| StdFrontier.NothingLost | genstd.js:58-73 | every entry the selection removes was seen before or is the one returned |
| StdFrontier.SelectedFromQueues | genstd.js:58-77 | the page chosen is one of the queued entries |
| StdRender.CtxOf | genstd.js:116-117 | a page's directory is a valid docset directory |
| StdRender.LinkTo | genstd.js:125 | the link to a route key fails exactly when the key has no name, and is otherwise the key's page path made relative to the current directory |
| StdRender.LinkToResolves | genstd.js:125 | followed from the current page's directory, the link lands on the file of the key's page |
| StdRender.NavHref | genstd.js:124-128 | a navigation anchor is rewritten to a relative path when it is a route, made absolute when it has an `href`, and otherwise kept |
| StdRender.NavHrefs | genstd.js:124-128 | the list fails exactly when one anchor's rewrite fails; otherwise each navigation anchor gets its own new `href`, in order |
| StdRender.NavHrefResolves | genstd.js:124-125 | a rewritten route anchor of the navigation list leads to the page of its key |
| StdRender.Admit | genstd.js:137-148 | hidden sections and the section's own anchor are skipped; a route link is rewritten and queued in front exactly when its name lies under the page and its type is indexed; a bad key throws |
| StdRender.AdmitAll | genstd.js:137-148 | a section's links fail exactly when one anchor's name fails; each anchor gets the `href` the admission rule gives it on its own; the queue gains exactly the queued anchors' entries in front, the last anchor's first, and only admissible ones |
| StdRender.QueuedMembers | genstd.js:139-144 | an entry is queued by a section exactly when one of its anchors is visible, not the heading anchor, a route under the page of an indexed type, with that entry |
| StdRender.AdmitSections | genstd.js:130-149 | the sections fail exactly when one section fails; each section gets the `href`s it gets on its own; the queue gains every section's queued entries in front, a later section's first, and only admissible ones |
| StdRender.SectionsQueuedMembers | genstd.js:130-149 | an entry is queued by the page exactly when some section queues it |
| StdRender.SectionLinkResolves | genstd.js:140-145 | a rewritten route anchor of a section leads from the page's directory to the page of its key |
| StdRender.PrependedTrans | genstd.js:144 | admissible entries put in front twice are admissible entries put in front once |
| StdRender.IndexPath | genstd.js:86-89 | the indexed path is the page file followed by the short-name tag and the menu-description tag, each URI-encoded |
| StdRender.EntryTagsFields | genstd.js:86-89 | the tags read back: cut at `>` they give exactly the short-name field and the description field, because encoding leaves no `>` in them |
| StdRender.Render | genstd.js:110-203 | rendering fails exactly when the name, a navigation anchor or a section link fails; the page is named under the first segment of its parent's name; its row is that name, the page's type and the indexed path of its file; the stylesheet climbs to the root; each navigation anchor gets its own new `href`; the sections are admitted in page order; the remaining anchors are made absolute when they have an `href` |
| StdRender.RenderSectionResolves | genstd.js:130-149 | on a rendered page, every route anchor of a visible section other than its heading anchor leads to the page of its key |
| StdRender.RenderQueues | genstd.js:130-149 | a rendered page puts exactly its sections' queued entries in front of the links still to follow |
| StdRender.RenderNavResolves | genstd.js:124-125 | on a rendered page, every route anchor of the navigation list leads to the page of its key |
| StdRender.RenderPrepends | genstd.js:140-145 | rendering only adds admissible entries in front of the links still to follow |
| StdCrawl.CrawlFrom | genstd.js:360-370 | one row per page rendered, and a page is rendered only when the selection found one |
| StdCrawl.CrawlCons | genstd.js:361-369 | the crawl is the selected page followed by the crawl from the updated frontier |
| StdCrawl.CrawlSeenGrows | genstd.js:360-370 | the crawl only adds to the seen set |
| StdCrawl.CrawlFreshKeys | genstd.js:360-370 | every page rendered had a key unseen before the crawl and seen after it |
| StdCrawl.CrawlRendersOnce | genstd.js:360-370 | no page is rendered twice |
| StdCrawl.CrawlRowKinds | genstd.js:197-198 | each page's index row carries the page's type |
| StdCrawl.RenderWithSound | genstd.js:110-203 | the generator's renderer keeps the row type and keeps the queue indexable |
| StdCrawl.RenderKeepsIndexable | genstd.js:143-144 | rendering queues only entries of indexed types with real keys |
| StdCrawl.SelectionKeepsIndexable | genstd.js:58-73 | selection keeps the queues indexable and picks an indexable entry |
| StdCrawl.CrawlIndexable | genstd.js:360-370 | starting from libraries, every page rendered is of an indexed type, and a crawl that finishes leaves both queues empty |
| StdCrawl.IgnoredNeverCounted | genstd.js:329 | no page of an ignored type (TLDR, Field, Example, Parameter) is indexed, so the counter table never holds it |
| CjsNames.ToName | index.cjs:26-35 | a missing root throws; the empty key names the root; any other key is named from its body |
| CjsNames.OldToName | old/gen.js:19-29 | old/gen.js names keys exactly as index.cjs does, with its own error message |
| CjsNames.ToNameOfParts | index.cjs:29-34 | the first `;` of the body becomes `.`, and a leading `root` becomes the root name |
| CjsNames.ToNameRootChild | index.cjs:24-25 | `#root;` + rest names the child rest of the root package (`#root;Array.thing` is `std.Array.thing`) |
| CjsNames.ToNameOfKey | index.cjs:26-35 | every `;`-free page name comes back from its key |
| CjsNames.ToPath | index.cjs:37-42 | the file lies in the same directory as in the API generator and is named by the whole dotted name, with nothing between the two |
| CjsNames.ToPathNoDot | index.cjs:37-42 | a name without dots is stored at the docset root under its own name |
| CjsNames.ToPathAtLastDot | index.cjs:37-42 | the path of a name with a directory part is the directory, `/`, the full name and `.html` |
| CjsNames.ToPathInjective | index.cjs:37-42 | two `/`-free names never share a path |
| CjsNames.ToPathNotUp | index.cjs:37-42 | no page path starts with `../` |
| CjsNames.DotsToRootOfPath | index.cjs:108 | climbing by the `/` of the file path is climbing by the `/` of its directory |
| CjsNames.LinkResolves | index.cjs:108-129 | `dotsToRoot + toPath(toName(hash))`, followed from the page's directory, lands on the target's file |
| CjsCrawl.FirstIn | index.cjs:120-126 | the first section in table order that contains the link, or none |
| CjsCrawl.SectionOf | index.cjs:120-126 | a link is typed by a section that contains it |
| CjsCrawl.SectionOfIsFirst | index.cjs:68-75 | that section is the first of the `secids` table containing the link, and there is none exactly when no followed section contains it |
| CjsCrawl.Classify | index.cjs:112-130 | a suitable link is rewritten exactly when its key was seen or it lies in a followed section; a new one in a followed section is pushed and recorded with that type; nothing else changes the tables |
| CjsCrawl.ClassifyAll | index.cjs:109-131 | every anchor gets a target, and `next` only grows at the end |
| CjsCrawl.ClassifyAllGrows | index.cjs:118-128 | the link loop never changes a recorded type and only pushes on `next` |
| CjsCrawl.ClassifyAllPushesFresh | index.cjs:118-123 | each key pushed was new to `seen` and is recorded afterwards |
| CjsCrawl.ClassifyAllPushesOnce | index.cjs:118-123 | no key is pushed twice during one page |
| CjsCrawl.ClassifyAllRecords | index.cjs:118-123 | every key recorded was seen before or pushed by the loop |
| CjsCrawl.ClassifyAllTargets | index.cjs:112-130 | unsuitable links get their full address; suitable links to known keys or in followed sections are rewritten, and every rewritten key is recorded |
| CjsCrawl.Start | index.cjs:77-82 | the crawl starts at `#` + the root name, seeded in `seen` as a Library, with nothing queued or done |
| CjsCrawl.HrefOf | index.cjs:129-130 | exactly the docset links get relative paths |
| CjsCrawl.HrefsOf | index.cjs:129-130 | each anchor's new `href` is that of its target |
| CjsCrawl.PopUndone | index.cjs:136-143 | the popping loop takes the last key not done and drops only keys already done |
| CjsCrawl.Advance | index.cjs:134-143 | the current key is marked done, and the key moved to, if any, was on `next` and not done |
| CjsCrawl.PageOf | index.cjs:87-92 | the file is `toPath(name)`, the title and row name are the last segment, the row type is what `seen` holds, and the stylesheet climbs to the root |
| CjsCrawl.OnRender | index.cjs:86-184 | `onRender` throws exactly when no root name is given, and otherwise writes the page from the link loop, then advances |
| CjsCrawl.RewrittenLinkResolves | index.cjs:108-129 | every rewritten link of a `/`-free page works |
| CjsCrawl.StartRecorded | index.cjs:77-82 | the start key is recorded and not done |
| CjsCrawl.OnRenderFacts | index.cjs:86-143 | `seen` only grows and keeps its types; the pushed keys are new, distinct and recorded; the next key was recorded; every key queued before or pushed by the page is still queued, done, or the key moved to |
| CjsCrawl.AdvanceAccounts | index.cjs:134-143 | the popping loop drops a key from `next` only when it is done or is the key moved to |
| CjsCrawl.AdvanceRecorded | index.cjs:134-143 | the key popped from `next` is recorded |
| CjsCrawl.PageStepFaithful | index.cjs:139-140 | the generator's step, on the web app's page for the current key, has all of these facts |
| CjsCrawl.CrawlFrom | index.cjs:139-140 | at most one page per redraw, starting with the current key |
| CjsCrawl.Generate | index.cjs:66-187 | the crawl starts with the root page |
| CjsCrawl.CrawlOk | index.cjs:86-184 | a crawl whose pages all succeed succeeds |
| CjsCrawl.GenerateFails | index.cjs:27 | the generator fails exactly when no root package name is given |
| CjsCrawl.CrawlRendersOnce | index.cjs:134-143 | no page is rendered twice, and none that was done before |
| CjsCrawl.CrawlPushesOnce | index.cjs:118-123 | a key is pushed on `next` at most once in the whole crawl, and never one seen at the start |
| CjsCrawl.CrawlRendersFound | index.cjs:118-143 | only the start key and keys found on the pages are rendered, and every page is indexed with a type |
| CjsCrawl.GenerateFacts | index.cjs:66-187 | from the start: no page twice, no key pushed twice, and every page found and typed |
| CjsCrawl.CrawlLosesNothing | index.cjs:118-143 | a crawl that ran out of pages rendered the current key, every key queued at its start and every key pushed, unless it was done before |
| CjsCrawl.GenerateLosesNothing | index.cjs:66-187 | when the generator runs out of pages, every key it pushed was rendered |
| Guide.HeadingKind | genguide.js:100-109 | `@` marks a Builtin, an otherwise lower-case text a Keyword, anything else a Guide entry |
| Guide.IndexRow | genguide.js:34-41 | the row keeps name and type; its path is the file, followed by the description tag exactly when a description is given |
| Guide.Headings | genguide.js:92-111 | one row per heading, never of type Type |
| Guide.HeadingsParents | genguide.js:96-98 | each heading is described by the most recent earlier heading one level up |
| Guide.TracksStep | genguide.js:110 | keeping a heading's text in its level's slot keeps the slots tracking the headings seen |
| Guide.ParentMatches | genguide.js:98 | the slot one level up is the most recent heading of that level |
| Guide.MostRecentTrimmed | genguide.js:94-98 | the description is already trimmed |
| Guide.PrimitiveRows | genguide.js:113-127 | one Type row per primitive type, described as a primitive type |
| Guide.RewriteLink | genguide.js:129-132 | a link becomes `std.html` or stays as it was |
| Guide.GuideRows | genguide.js:64-127 | one row for the main heading, one per heading, one per primitive type |
| Guide.CheckBaseAsWritten | genguide.js:46 | a base address without a final `/` is rejected, with a message that is not the intended one |
| Guide.CheckBase | genguide.js:46 | a base address without a final `/` is rejected with the intended message |
| Guide.BaseCheckLosesMessage | genguide.js:46 | a versioned address without its final `/` is refused with `err is not defined` |
| Guide.Generate | genguide.js:43-132 | the generator fails exactly when the base address lacks its final `/`, with `err is not defined`, and otherwise indexes the guide rows and rewrites every link |
| Guide.GenerateIntended | genguide.js:43-132 | with the check as meant, the same failure carries `baseUrl must end in '/'` |
| Guide.GenerateIntendedAgrees | genguide.js:46 | the two generators agree on every accepted base address and differ only in a refusal's message |
| Guide.NoHeadsTrack | genguide.js:92 | the empty slots track the empty prefix |
| Guide.GuideRowsHeadings | genguide.js:64-111 | the main heading is a Guide entry, then each heading gets its type and, as description, the most recent heading one level up |
| Guide.HeadingsFromStart | genguide.js:92-111 | from empty slots, each heading row has the reference description |
| Guide.GuideRowsTypes | genguide.js:100-126 | the primitive types are the only Type entries |
| Guide.GenerateTally | genguide.js:33-36 | the counters count exactly the rows indexed |
| Guide.GenerateLinks | genguide.js:129-132 | exactly the links to this version's or master's std docs point at `std.html`; every other link is unchanged |
| Pool.WorkerCount | workerutils.js:74 | a positive `nWorkers` is used as given; without one the count is the processor count less one |
| Pool.InitWorkers | workerutils.js:73-82 | one new record per worker, numbered from 0, initialising with nothing completed, after the existing ones |
| Pool.InitIndexed | workerutils.js:76-80 | started on an empty pool, every worker sits at its own number |
| Pool.Assign | workerutils.js:19-23 | the worker is working on the job and is sent it; nothing else changes |
| Pool.Receive | workerutils.js:24-51 | an unknown tag or an unanswerable `ask` throws; `finished` makes the worker idle and counts a job unless it was initialising; `ask` posts one reply to the worker; other workers are untouched |
| Pool.ReceiveHandlers | workerutils.js:36-47 | `data` and `reply` call their handler, with the message data, job data and start-up flag, exactly when it is given; `ask` calls nothing else and its reply carries `onAsk`'s value |
| Pool.FinishedCalls | workerutils.js:30-35 | a `finished` message calls `onInit` exactly when the worker was initialising, then `onIdle` when it is given |
| Pool.AskRunningWorkers | workerutils.js:53-57 | an `ask` goes to every working worker, in pool order, and to no other |
| Pool.WorkerStats | workerutils.js:58-65 | the status and completed count of every worker, in pool order |
| Pool.FirstIdle | workerutils.js:67 | the first idle worker at or after a position |
| Pool.AssignIdleWorker | workerutils.js:66-69 | throws exactly when no worker is idle |
| Pool.AssignIdleLowest | workerutils.js:66-69 | the job goes to the idle worker of lowest position and every other worker is unchanged |
| Pool.Run | workerutils.js:19-69 | a run of messages, `assignIdleWorker` calls and calls of `onIdle`'s bound `assign` keeps the pool's size and numbering |
| Pool.RunCompleted | workerutils.js:27-35 | a worker stays initialising until its first `finished`, which is not a job; every later one counts one job, also when `onIdle`'s bound `assign` handed out the jobs |
| Pool.UnguardedAssignCounts | workerutils.js:27-34 | a bound `assign` reaches the caller only after a `finished`; a job assigned earlier would turn the start-up `finished` into a counted job |
| Pool.CompletedNeverDecreases | workerutils.js:58-65 | no run of events lowers a completed count in `workerStats` |
| Pool.RunMonotone | workerutils.js:33 | one worker's completed count never goes down |
| OldPool.InitWorkers | old/workerutils.js:64-73 | with a count, that many workers start working on their start-up job; without one, the missing `os` module throws |
| OldPool.Assign | old/workerutils.js:17-25 | the worker works on the job with a fresh promise's callbacks and is sent the job |
| OldPool.RunCallback | old/workerutils.js:35 | the job callback is recorded; an `onInit` callback that assigns a job at once makes one promise |
| OldPool.Clear | old/workerutils.js:36-38 | the worker's pending callbacks and data are forgotten |
| OldPool.OfferIdle | old/workerutils.js:39 | `onIdle` is offered the worker only while it is idle |
| OldPool.Receive | old/workerutils.js:28-47 | any tag but `finished` and `data` throws; after `finished` the worker has no pending job, even one assigned by its callback |
| OldPool.ReceiveIntended | old/workerutils.js:33-40 | after `finished` the worker is idle exactly when it has no pending job |
| OldPool.InitAssignmentLost | old/workerutils.js:35-38 | as written, a job `onInit` assigns at once is sent but loses its callbacks and data; as meant it keeps them |
| OldPool.InitSettled | old/workerutils.js:64-72 | `initWorkers` leaves a settled pool settled: every new worker is working, with at most the `onInit` callback pending |
| OldPool.SettledKept | old/workerutils.js:33-40 | the receivers and `assignIdleWorker` keep every idle worker free of a pending job |
| OldPool.AssignSettled | old/workerutils.js:17-25 | assigning keeps the pool settled |
| OldPool.ReceiveSettled | old/workerutils.js:33-40 | a `finished` message as written keeps the pool settled |
| OldPool.ReceiveIntendedSettled | old/workerutils.js:33-40 | a `finished` message as meant keeps the pool settled |
| OldPool.HasIdleWorker | old/workerutils.js:49-52 | true exactly when some worker is idle |
| OldPool.HasRunningWorker | old/workerutils.js:53-56 | true exactly when some worker is working |
| OldPool.FirstIdle | old/workerutils.js:58 | the first idle worker at or after a position |
| OldPool.AssignIdleWorker | old/workerutils.js:57-60 | rejects exactly when no worker is idle, and otherwise assigns the first idle one |
| OldCrawl.PickNext | old/gen.js:79-110 | with no library taken, the job is the last unseen link; a library taken yields a library's job unless every library was seen; only popped keys become seen; the workers stop only when none is running |
| OldCrawl.PickNextExhausts | old/gen.js:79-109 | nothing is handed out exactly when every queued key was seen |
| OldCrawl.PickNextDropsLink | old/gen.js:88-94 | with one unseen link and one unseen library, the library is handed out and the link is marked seen but never handed out |
| OldCrawl.OnInit | old/gen.js:115-118 | the libraries found at start-up are queued after those already known |
| OldCrawl.Pick | old/gen.js:95 | the job `pickNext` hands out goes to the worker whose assignment function is used, under a new promise, and no other worker changes |
| OldCrawl.OnIdle | old/gen.js:119 | the worker that fell idle, and no other, receives the job `pickNext` hands out |
| OldCrawl.OnMsg | old/gen.js:120-126 | reported links are queued and picked; the seen set only grows; workers other than the sender are untouched; with no idle worker, the links are only appended to the queue and nothing else changes |
| OldCrawl.OnMsgKeeps | old/gen.js:120-126 | nothing reported or queued is dropped without its key being seen |
| OldCrawl.PickKeeps | old/gen.js:81-94 | one selection keeps every queued link accounted for |
| OldCrawl.KeptGrows | old/gen.js:120-126 | an entry accounted for stays accounted for |
| OldCrawl.OnMsgAssignsSender | old/gen.js:124 | as written, a worker reporting a link mid-job is handed that link while another worker sits idle |
| OldCrawl.PickIntended | old/gen.js:79-95 | as meant, the job goes to an idle worker and no working worker is disturbed |
| OldCrawl.OnMsgIntended | old/gen.js:120-126 | as meant, no working worker is disturbed by a report |
| OldCrawl.OnMsgIntendedSparesSender | old/gen.js:124 | as meant, the reported link goes to the idle worker and the sender keeps its job |

## Left out

- The DOM is left out: JSDOM, the web app's scripts, redraw timing, `requestAnimationFrame` and the page-load wait. The page drawn for a key is an oracle parameter (`StdCrawl.RenderWith`, `CjsCrawl.PageStep`), kept down to its anchors and sections.
- DOM surgery is left out because it does not affect the bookkeeping. This covers the section heading anchors, the function-signature anchors, the online-redirect comment, hiding and removing elements, script tags and the `Not avaliable yet` placeholder of an empty page (genstd.js:155-195, index.cjs:145-172).
- File writing, `mkdir`, HTML minification, the CSS renaming, the SQLite database and console output are I/O. They are left out; an index row stands for one `index` call.
- The unique index on `(name, type, path)` (index.js:43) and `INSERT OR IGNORE` are not modelled. The table drops a repeated row; the model's rows and counters include it, as `idxTable` does.
- `getFullUrl` (index.cjs:44-58) is not modelled. It builds URLs with the `URL` class. A non-suitable link's new `href` is the constant `Web`.
- URL parsing is not modelled: `new URL(baseUrl)` and the origin/pathname/hash split of an anchor. They are fields of `StdRender.Url` and `CjsCrawl.Link`.
- Strs.Lower: `toLowerCase` is modelled on ASCII letters only, because Unicode case mapping needs tables the model does not carry.
- Versions.ParseInt: reads a piece as an exact integer, while JavaScript's `parseInt` (genstd.js:96-97) returns a double, so pieces above 2^53 lose precision there and not here.
- Uri.Encode: a Dafny `char` is a Unicode scalar value, not a UTF-16 code unit, so a lone surrogate cannot be written. The URIError that `encodeURIComponent` (genstd.js:88-89) throws for one is not modelled, and the model never fails.
- Versions.ParseInt: models `parseInt` on strings of decimal digits only. Signs, leading white space and `0x` prefixes are left out because version strings never hold them. A missing component reads as none (`undefined`), like a piece without leading digits (`NaN`).
- StdCrawl.CrawlFrom: the crawl loop runs for at most `fuel` pages, because the source loop has no bound. A crawl that runs out of fuel reports `finished == false`.
- CjsCrawl.CrawlFrom: the same fuel bound applies to the chain of redraws.
- Promise timing and worker threads are left out. A worker message is an event applied in order (`Pool.Run`). A promise's resolve function is a recorded call (`OldPool.RunCallback`). The job an `onInit` handler assigns at once is a parameter. In old/gen.js, `pickNext`'s progress printing after a job completes is left out.
- The state after an exception thrown mid-receiver is not modelled: a receiver that throws is `Fail` and the pool is dropped.
- `initWorkers` called twice is not modelled. The second batch's numbers restart at 0 and then differ from their positions. `Pool.AssignIdleLowest` and `Pool.RunCompleted` require every worker to sit at its own number (`Indexed`), which holds after one call.
- `stopWorkers` is not modelled; it only terminates threads. `OldCrawl` records that the workers were stopped.
- The undefined `err` at genstd.js:159, 165 and 218 is outside the modelled core: the DOM checks and the base-address check of the API generator. The same slip in genguide.js is under Findings.
- stdworker.js, guide.cjs, index.js, gen.js and old/testworker.js are not part of this model. They are entry points and worker scripts around the modelled core.

## Findings

| source | as written | input that shows it | evidently intended | confidence | as-written member | corrected member |
|---|---|---|---|---|---|---|
| old/gen.js:88-94 | the library loop runs whenever no link is left to follow, even when a link was just taken; a library taken there replaces the link, which stays marked seen and is never handed out | one unseen link and one unseen library queued | take a library only when no link was taken (`!h`, as genstd.js:67 does) | not executed | OldCrawl.PickNextDropsLink | OldCrawl.PickIntended |
| old/gen.js:124 | `onMsg` calls `pickNext(assign)` with the assignment function of the worker that reported the links, which is still busy | a working worker reports one unseen link while another worker is idle | hand the link to an idle worker | not executed | OldCrawl.OnMsgAssignsSender | OldCrawl.OnMsgIntended |
| genguide.js:46 | the check calls `err`, which genguide.js never defines, so the throw is `err is not defined` instead of the message | base address `https://ziglang.org/documentation/0.11.0` | reject with `baseUrl must end in '/'` | not executed | Guide.CheckBaseAsWritten | Guide.CheckBase |
| old/workerutils.js:35-38 | the pending callbacks and data are cleared after the job callback runs, wiping a job that the callback (`onInit`) assigned at once | a `finished` start-up job whose `onInit` assigns a new job to the same worker | clear the pending job before running its callback | not executed | OldPool.InitAssignmentLost | OldPool.ReceiveIntended |
