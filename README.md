# jelly's document pipeline, modelled in Dafny

jelly is a static documentation-site generator. It walks a directory of
Markdown files and builds, for every page:

- a title;
- a breadcrumb of the sections above it;
- a table of contents;
- a search index.

It also builds a section tree for the whole site. This project models that pipeline with all file I/O removed, and proves what it promises. The model covers:

- **the ATX heading block rule**, which scans a line into a level and a content span (module `AtxHeading`);
- **how headings render**, and the three passes that collect the headings below level 1 with their positions and the text after them (`Headings`);
- **`nodes_to_string` and the page preamble** (`MdParse`);
- **the two table-of-contents builders:**
  - the rustdoc-style `TocBuilder` (`Toc`), a class with `topLevel` and `chain` fields whose `push`/`fold_until` loop is proved to build the tree that an independent definition `Forest` gives;
  - the older recursive `toc_for_level` (`LegacyToc`);
- **the per-page search index** (`Search`);
- **document-title detection**, in the markdown-it and the comrak revisions (`DocTitle`);
- **code-fence metadata parsing**, the render fallbacks, and the rule that replaces code nodes, in both revisions (`CodeBlocks`);
- **image attributes and alternative text** (`Images`);
- **the content tree:**
  - page building, the index page, and page rank and ordering (`Pages`);
  - title resolution for pages and sections (`Titles`);
  - the `name_from_path` helpers (`Utils`);
  - section building with breadcrumb accumulation and pre-order page flattening (`Sections`);
  - the site's pages, documents and attributes (`Sites`);
  - `by_title` (`Sort`).

Support modules:

- `Wrappers`: Option, Result, Ordering.
- `Strings`: the `str` methods the code calls.
- `Slug`: a concrete ASCII model of `slugify`.
- `Ast`: the Markdown node tree and the HTML it renders to.
- `Seqs`: slicing facts.

Where a file exists in two revisions, the shared algorithm is modelled once and the variant only where behaviour differs:

- `RuleLegacy` / `RunLegacy`
- `RenderLegacy`
- `GetDocumentTitleComrak`
- `RenderCodeRaw` / `ApplyCodeRuleRaw`
- `LegacyFromPath`
- `TitleFromIndexPageAsWritten` / `SectionTitleAsWritten`

`src/md/toc.rs` holds the same `TocBuilder` fold as `src/md/markdown_it_md/toc.rs`; it differs only in wrapping the entries in a tuple struct, so `Toc` models both. `src/md/image.rs` and `src/md/markdown_it_md/image.rs` behave identically, so `Images` models both. `src/md/title.rs` applies the same first-heading rule as `src/md/markdown_it_md/title.rs`, so `DocTitle.GetDocumentTitle` models both.

The markdown-it revisions count only ATX headings as headings: `FancyHeading`, and `ATXHeading` in `src/md/title.rs`. A setext heading (text underlined with `=` or `-`, the rule registered at `src/md/parse.rs:63`) is a node of its own, `SetextHeading`. Comrak's `NodeValue::Heading` covers both kinds, so on a document whose first heading is a setext heading the comrak revision can find a different title (`DocTitle.SetextTitleOnlyComrak`, `DocTitle.SetextH2HidesH1OnlyComrak`).

Inputs stand in for everything the code reads:

- A page arrives as a `PageSource`: the outcome of reading and deserialising its front matter, plus its parsed whole file and content.
- A directory arrives as a `Dir`: its `_dir.yaml` and `index.md`, each absent or the outcome of reading and parsing it, plus its directory listing.
- `get_pages_in_dir`, `titlecase` and the syntax highlighter are function-typed parameters.

Page ordering follows the code. `Ord::cmp` in `src/content/page.rs:105-120` compares the ranks and then reverses the result. So a higher rank orders first. The index page has rank 0, so it compares `Greater` than every other page and comes last in an ascending sort, not first. `Pages.CmpMeaning` and `Pages.IndexComparesGreater` state this.

## Model

| member | source | states |
|---|---|---|
| AtxHeading.HashRunBounds | src/md/markdown_it_md/headings.rs:79-86 | the level counter counts exactly the leading `#` run, and the run stops at the first non-`#` |
| AtxHeading.HashRunExact | src/md/markdown_it_md/headings.rs:79-86 | a prefix of n `#` followed by a non-`#` or the end gives a run of exactly n |
| AtxHeading.TrailingBlanksBounds | src/md/markdown_it_md/headings.rs:101-103 | the backward skip removes exactly the trailing spaces and tabs |
| AtxHeading.TrailingHashesBounds | src/md/markdown_it_md/headings.rs:104-106 | the second backward skip removes exactly the trailing `#` run |
| AtxHeading.ClosingCutBounds | src/md/markdown_it_md/headings.rs:99-106 | only blanks and `#` lie after the point where the closing run is cut |
| AtxHeading.ScanAccepts | src/md/markdown_it_md/headings.rs:69-96 | a line is a heading iff indent < 4, the `#` run has at most 6, and a blank or the end follows it; the level is the length of the run |
| AtxHeading.Scan | src/md/markdown_it_md/headings.rs:69-117 | an accepted line has level = text_pos ≤ 6 and text_pos ≤ text_max ≤ line length |
| AtxHeading.ScanSpan | src/md/markdown_it_md/headings.rs:87-117 | the span has text_pos ≤ text_max ≤ line length and starts at the separating blank; when it stops short of the end, it ends on a blank followed only by blanks and `#`. Conversely, with p the line length less its trailing blanks and then its trailing `#`: if p ≤ text_pos + 1 the span is empty; if a blank sits before p the span ends at p; otherwise it runs to the end of the line |
| AtxHeading.Rule | src/md/markdown_it_md/headings.rs:67-124 | the rule yields a node iff the scan accepts; the node is a heading of the scanned level ≤ 6 holding `line[text_pos..text_max]` as its one unparsed inline child, and it consumes exactly one line |
| AtxHeading.RuleLegacy | src/md/headings.rs:53-117 | the older rule gives only headings of level 1 to 6 |
| AtxHeading.Run | src/md/markdown_it_md/headings.rs:67-124 | the scanning loops give exactly the declarative rule's result |
| AtxHeading.RunLegacy | src/md/headings.rs:53-117 | the older scanning loops, with the leading-`#` check, give exactly the older rule's result |
| AtxHeading.ScanLine | src/md/markdown_it_md/headings.rs:73-115 | the forward counting loop and the backward trimming loops compute the declarative scan |
| AtxHeading.CutClosing | src/md/markdown_it_md/headings.rs:99-106 | the backward passes over blanks and then `#` stop exactly at the closing cut, never before the separator |
| AtxHeading.HashRunAtLeast | src/md/markdown_it_md/headings.rs:81-86 | n leading `#` make a run of at least n |
| AtxHeading.LegacyAgrees | src/md/headings.rs:61-64 | the older rule equals the newer one on lines starting with `#` and rejects every other line |
| AtxHeading.EmptyLineIsLevelZero | src/md/markdown_it_md/headings.rs:77-96 | with no leading-`#` check the newer scanner accepts the empty line at level 0; the older rule rejects it |
| AtxHeading.SevenHashesRejected | src/md/markdown_it_md/headings.rs:82-85 | seven leading `#`, as in `####### This won't show up`, are never a heading at any indent |
| AtxHeading.ClosingRunExamples | src/md/markdown_it_md/headings.rs:108-115 | `##` and `## ##` give empty content; `#foo` is not a heading |
| AtxHeading.ClosedHeadingExample | src/md/markdown_it_md/headings.rs:109-110 | in `## foo ##` the closing run is cut after the blank before it |
| AtxHeading.UnclosedHeadingExample | src/md/markdown_it_md/headings.rs:111-112 | in `## foo##` a closing run without a blank before it is kept, and the content runs to the end of the line |
| AtxHeading.TrailingBlanksKeptExample | src/md/markdown_it_md/headings.rs:99-112 | trailing blanks with no closing `#` run stay in the content |
| Headings.Render | src/md/markdown_it_md/headings.rs:20-61 | level 1 renders nothing; levels 2–6 render `h<level>` with `id` = slug, the content, then an anchor `#` with `href` = `#slug` |
| Headings.RenderLegacy | src/md/headings.rs:20-48 | every level renders `h<level>` with `id` = slug and `class` = `heading`; one anchor to `#slug` wraps the whole content |
| Headings.AnchorTargetsHeading | src/md/markdown_it_md/headings.rs:49-56 | in both revisions the anchor's `href` is `#` followed by the heading's own `id`, and the id is a well-formed slug |
| Headings.HeadingsOf | src/md/markdown_it_md/headings.rs:149-167 | only headings of level > 1 are listed, each with slug = slugify(text), never more than there are nodes |
| Headings.CollectHeadings | src/md/markdown_it_md/headings.rs:155-167 | the `Headings` loop pushes exactly the headings specified by `HeadingsOf` |
| Headings.HeadingsOfAppend | src/md/markdown_it_md/headings.rs:158-164 | the headings of a concatenation are those of each part, in order |
| Headings.HeadingsOfOne | src/md/markdown_it_md/headings.rs:159-163 | a level-1 heading or any other node contributes nothing; a deeper heading contributes itself |
| Headings.IndexedHeadingsOf | src/md/headings.rs:164-181 | each listed index points at a heading of level > 1, and the entry holds that heading |
| Headings.IndexedHeadingsIncreasing | src/md/headings.rs:171-176 | the listed indices strictly increase |
| Headings.IndexedHeadingsComplete | src/md/headings.rs:171-176 | every heading of level > 1 is listed with its index |
| Headings.IndexedHeadingsProject | src/md/markdown_it_md/headings.rs:170-189 | dropping the indices gives exactly the `Headings` sequence |
| Headings.HeadingsWithIdx | src/md/markdown_it_md/headings.rs:176-188 | the enumerate loop gives exactly the indexed headings |
| Headings.UntilHeading | src/md/markdown_it_md/headings.rs:212-223 | the collected nodes are the longest prefix without a heading of any level |
| Headings.UntilHeadingUnique | src/md/markdown_it_md/headings.rs:212-223 | any prefix that has no heading and ends at a heading or the end is that prefix |
| Headings.WithTextAfterOf | src/md/markdown_it_md/headings.rs:193-237 | one pair per indexed heading |
| Headings.HeadingsWithTextAfter | src/md/markdown_it_md/headings.rs:197-237 | the loop yields, for each heading of level > 1 in order, the heading and the text after it |
| Headings.TextAfterAt | src/md/markdown_it_md/headings.rs:203-231 | the next-node check and the inner while loop give the following nodes up to the next heading, joined by spaces |
| Headings.WithTextAfterHeadings | src/md/markdown_it_md/headings.rs:200-205 | the headings paired with text are exactly the `Headings` sequence, as many and in order |
| Headings.NoTextAfter | src/md/markdown_it_md/headings.rs:207-230 | a heading followed directly by a heading, or last in the document, gets "" |
| Headings.TextAfterStops | src/md/markdown_it_md/headings.rs:215-223 | the text stops at the next heading, an h1 included, or at the end of the document |
| MdParse.Texts | src/md/parse.rs:8-11 | one collected text per node, in order |
| MdParse.JoinLength | src/md/parse.rs:7-13 | joining puts exactly one separator between consecutive parts and none at the ends |
| MdParse.NodesToStringSnoc | src/md/parse.rs:7-13 | the empty list gives ""; adding a node appends one space and its text |
| MdParse.NonHeadings | src/md/parse.rs:19-29 | the kept nodes are non-headings, in order |
| MdParse.NonHeadingsAppend | src/md/parse.rs:19-29 | the kept nodes of a concatenation are those of each part |
| MdParse.StopIndex | src/md/parse.rs:20-25 | the stop point is the first heading of level other than 1, or the end |
| MdParse.StopIndexFirst | src/md/parse.rs:20-25 | no heading of level other than 1 comes before the stop point |
| MdParse.Preamble | src/md/parse.rs:16-32 | the loop with `continue`/`break` gives the non-heading nodes before the first non-h1 heading, joined by spaces |
| MdParse.PreambleIgnoresSuffix | src/md/parse.rs:23-24 | nothing after the stopping heading reaches the preamble |
| MdParse.StopIndexAppend | src/md/parse.rs:23-24 | appending nodes after a stopping heading does not move the stop point |
| MdParse.PreambleSkipsH1 | src/md/parse.rs:20-22 | a leading h1 neither stops nor contributes to the preamble |
| MdParse.StopIndexShift | src/md/parse.rs:19-29 | a prefix without a stopping heading shifts the stop point by its length |
| MdParse.StopIndexSkip | src/md/parse.rs:20-22 | a leading h1 moves the stop point by one |
| MdParse.PreambleWithoutHeadings | src/md/parse.rs:26-28 | without headings the preamble keeps every node |
| MdParse.StopIndexNoHeadings | src/md/parse.rs:19-29 | without headings there is no stop before the end |
| MdParse.NonHeadingsNoHeadings | src/md/parse.rs:26-28 | without headings every node is kept |
| MdParse.TextParagraph | src/md/parse.rs:10 | a one-text paragraph's collected text is that text |
| MdParse.TitledPagePreamble | src/md/parse.rs:16-32 | an h1 and two paragraphs give the two paragraph texts joined by a space, as the setup page of the test site expects |
| Toc.RunDeeperBounds | src/md/markdown_it_md/toc.rs:84-90 | every heading in the run is deeper than the level, and the heading that ends the run is not deeper |
| Toc.PreorderAppend | src/md/markdown_it_md/toc.rs:93 | the pre-order of two forests side by side is the concatenation of their pre-orders |
| Toc.PreorderForest | src/md/markdown_it_md/toc.rs:18-26 | `Forest`, the independent definition of the tree: the pre-order of the tree is exactly the heading sequence: nothing lost, duplicated or reordered |
| Toc.PreorderCombine | src/md/markdown_it_md/toc.rs:84-90 | an entry followed by a forest lists the entry first, then its children, then the forest |
| Toc.ForestUnfold | src/md/markdown_it_md/toc.rs:84-95 | the first heading owns the run of deeper headings after it; the rest is the following forest |
| Toc.PreorderOne | src/md/markdown_it_md/toc.rs:84 | a single entry lists itself, then its children |
| Toc.ForestDeeper | src/md/markdown_it_md/toc.rs:85-90 | headings all deeper than a level give entries all deeper than it |
| Toc.ForestChildrenDeeper | src/md/markdown_it_md/toc.rs:84-90 | every child is strictly deeper than its parent, all the way down |
| Toc.SiblingsNotDeeper | src/md/markdown_it_md/toc.rs:85-93 | a top-level entry is never deeper than the one before it |
| Toc.InsertLastAppend | src/md/markdown_it_md/toc.rs:84-95 | inserting along the rightmost path only changes the last part of a forest |
| Toc.ForestSnoc | src/md/markdown_it_md/toc.rs:100-107 | one more heading goes along the rightmost path, under the nearest shallower entry |
| Toc.ForestSnocSibling | src/md/markdown_it_md/toc.rs:100-107 | a new heading that falls after the first subtree is inserted in the later forest |
| Toc.ForestSnocChild | src/md/markdown_it_md/toc.rs:100-107 | a new heading deeper than the single root goes into that root's subtree |
| Toc.ForestSingleRoot | src/md/markdown_it_md/toc.rs:84-95 | when every later heading is deeper the tree has one root |
| Toc.ForestSnocClosing | src/md/markdown_it_md/toc.rs:85-94 | a new heading no deeper than the single root becomes its sibling |
| Toc.RunDeeperSnoc | src/md/markdown_it_md/toc.rs:85-89 | how one more heading extends the deeper run |
| Toc.InsertThroughChain | src/md/markdown_it_md/toc.rs:84-95 | inserting into the pending entry and then closing the chain is inserting into the closed tree |
| Toc.PushInserts | src/md/markdown_it_md/toc.rs:100-107 | pushing a leaf on a chain that is shallower than it inserts the heading into the tree the builder describes |
| Toc.IncreasingSnoc | src/md/markdown_it_md/toc.rs:105-106 | a deeper entry on top keeps the chain levels increasing |
| Toc.CloseSnoc | src/md/markdown_it_md/toc.rs:84-95 | closing a chain with an entry on top is closing the rest with that entry pending |
| Toc.FoldCloses | src/md/markdown_it_md/toc.rs:79-98 | folding never changes the tree the builder describes |
| Toc.FoldShape | src/md/markdown_it_md/toc.rs:79-98 | after `fold_until(l)` the chain keeps a prefix of its levels, still increasing, all below l |
| Toc.FoldSettled | src/md/markdown_it_md/toc.rs:84-95 | after the fold, the last child of the chain's top, or the last top-level entry, is at least as deep as l |
| Toc.FoldToBottom | src/md/markdown_it_md/toc.rs:92-94 | folding to a level that no chain entry is below empties the chain into the top level |
| Toc.PushKeeps | src/md/markdown_it_md/toc.rs:100-107 | `push` keeps the builder invariant (increasing chain, no h1, tree = Forest of what was pushed) with the heading appended |
| Toc.NoH1Kept | src/md/markdown_it_md/toc.rs:101 | a folded chain with an entry of level ≥ 2 on top still holds no h1 |
| Toc.IntoTocGives | src/md/markdown_it_md/toc.rs:74-77 | `fold_until(1)` empties the chain and hands over exactly Forest of the pushed headings |
| Toc.TocBuilder.constructor | src/md/markdown_it_md/toc.rs:65-72 | a new builder has an empty top level and chain, and nothing pushed |
| Toc.TocBuilder.FoldUntil | src/md/markdown_it_md/toc.rs:79-98 | the pop/attach loop moves the fields to the value fold of their old values |
| Toc.TocBuilder.Push | src/md/markdown_it_md/toc.rs:100-107 | requires level ≥ 2; folds to the level, puts a leaf on the chain, and keeps the invariant with the heading recorded |
| Toc.TocBuilder.IntoToc | src/md/markdown_it_md/toc.rs:74-77 | returns Forest of every pushed heading and leaves the chain empty |
| Toc.Parse | src/md/markdown_it_md/toc.rs:18-26 | the table of contents is Forest of the document's headings below h1 |
| Toc.ForestEmpty | src/md/markdown_it_md/toc.rs:28-30 | `Forest`: the tree is empty exactly when there are no headings |
| Toc.TestDocumentShape | src/md/markdown_it_md/toc.rs:118-188 | levels 2,3,4,2,3,2,4 give h2 > h3 > h4, h2 > h3, and h2 > h4, with the skipped level nested directly under the nearest shallower entry |
| Toc.TwoLevelEntry | src/md/markdown_it_md/toc.rs:149-161 | three ever-deeper headings make one entry with one grandchild |
| Toc.OneChild | src/md/markdown_it_md/toc.rs:162-170 | two headings, the second deeper, give one entry with one child |
| Toc.TwoSiblings | src/md/markdown_it_md/toc.rs:162-179 | levels 2,3,2,4 give two entries with one child each; the h4 sits directly under its h2 |
| Toc.ForestOwns | src/md/markdown_it_md/toc.rs:84-95 | the first heading's children are exactly the deeper headings that follow it |
| Toc.RunDeeperExact | src/md/markdown_it_md/toc.rs:85-89 | n deeper headings followed by one that is not deeper make a run of exactly n |
| Toc.ForestOne | src/md/markdown_it_md/toc.rs:105-106 | one heading is one leaf |
| LegacyToc.MaxLevel | src/toc.rs:38-46 | no heading is deeper than the maximum level |
| LegacyToc.MaxLevelSuffix | src/toc.rs:43 | a suffix's maximum level is at most the whole list's, which makes the recursion terminate |
| LegacyToc.EntriesMatchHeadings | src/toc.rs:35-47 | `EntriesUpTo`, and so `TocForLevel`: one entry per heading of exactly the wanted level: entry k is the k-th such heading, at position j, paired with `toc_for_level` over `nodes[j..]` one level deeper; each entry has that level and slug = slugify(text) |
| LegacyToc.IndicesAt | src/toc.rs:37-40 | the positions of the headings of exactly the level among the first i nodes: strictly increasing, each at the level, and no such position missing |
| LegacyToc.BuildTocForLevel | src/toc.rs:35-49 | the loop with its recursive call gives the recursive definition |
| LegacyToc.New | src/toc.rs:30-32 | `new(doc, level)` is `toc_for_level` over the document's nodes |
| LegacyToc.EntriesPrefix | src/toc.rs:38-46 | entries, once pushed, stay |
| LegacyToc.TocLeveled | src/toc.rs:40-43 | entries are at the level, their sub-tables one deeper, and so on down, so a heading that skips a level never appears |
| LegacyToc.DeeperThanAllIsEmpty | src/toc.rs:38-48 | a call for a level deeper than every heading returns nothing |
| LegacyToc.TestDocument | src/toc.rs:59-130 | levels 2,3,4,2,2 give three h2 entries, the first with h3 > h4 and the others empty |
| LegacyToc.TestDocumentFirst | src/toc.rs:59-130 | in the same document the level-3 table is h3 with h4 under it |
| LegacyToc.LevelsBelow | src/toc.rs:38-46 | a bound on every heading bounds the maximum level |
| LegacyToc.NoneAtLevel | src/toc.rs:39-40 | nodes that are not headings of the wanted level add no entry |
| LegacyToc.EntriesShift | src/toc.rs:38-46 | a first node not at the wanted level can be dropped |
| LegacyToc.RepeatedHeading | src/toc.rs:43 | as written, h2 A, h3 B, h2 C, h3 D lists D under A and again under C |
| LegacyToc.SectionLength | src/toc.rs:43 | the section after a heading ends at the next heading of that level or shallower |
| LegacyToc.CountHeadingsAppend | src/toc.rs:38-46 | the heading count of a concatenation is the sum of the counts |
| LegacyToc.SectionedListsEachOnce | src/toc.rs:43 | with the recursion cut at the section's end, the table lists, in pre-order, exactly the headings at a strictly increasing sequence of document positions, so no heading twice and no more headings than the document has |
| LegacyToc.SectionedListsPositions | src/toc.rs:43 | the sectioned table's pre-order listing is the heading at each position `SectionedPositions` gives, and those positions strictly increase |
| LegacyToc.SectionedExample | src/toc.rs:43 | with sections, h2 A, h3 B, h2 C, h3 D gives A > B and C > D |
| LegacyToc.SectionedSingle | src/toc.rs:40-44 | a single heading at the level is one empty entry |
| Search.HeadingDocuments | src/md/search.rs:38-45 | one document per (heading, text) pair, with that heading's level and text, the page title, and the text as content |
| Search.HeadingDocumentsSnoc | src/md/search.rs:38-45 | one more pair pushes one more document |
| Search.BuildSearchIndexForPage | src/md/search.rs:28-48 | the push and the loop give the preamble document followed by the heading documents |
| Search.SearchIndexShape | src/md/search.rs:28-48 | the length is 1 + the number of headings below h1; the first document is level 1 with the page title as title and the preamble as content; every page_title is the argument; then the headings, in order, with level ≥ 2 |
| Search.SearchIndexContent | src/md/search.rs:38-45 | each heading document holds the text after its heading |
| Search.EmptyPage | src/md/search.rs:61-65 | an empty body gives one document with empty content |
| Search.ExamplePage | src/md/search.rs:66-91 | text, h2, text, h3, two paragraphs give the three expected documents, the last with the paragraphs joined by a space |
| Search.WithTextAfterTwo | src/md/markdown_it_md/headings.rs:197-237 | two indexed headings give two pairs, each with the text after its own position |
| Search.PairWithTextTwo | src/md/markdown_it_md/headings.rs:200-231 | pairing two indexed headings with their text |
| Search.HeadingDocumentsTwo | src/md/search.rs:38-45 | two pairs give two documents in order |
| Search.ExamplePreamble | src/md/parse.rs:19-31 | a paragraph before the first h2 is the whole preamble |
| Search.ExampleTextAfter | src/md/markdown_it_md/headings.rs:212-225 | the text after each heading of the example document |
| Search.IndexedHeadingsAt | src/md/markdown_it_md/headings.rs:179-185 | the example's headings are indexed at positions 1 and 3 |
| DocTitle.FirstHeading | src/md/markdown_it_md/title.rs:7-10 | the first node the revision counts as a heading, with none before it, or none at all; markdown-it counts only `FancyHeading` (ATX), comrak setext headings too (`Counts`) |
| DocTitle.FirstHeadingIs | src/md/markdown_it_md/title.rs:7-10 | a counted heading with no counted heading before it is the first heading |
| DocTitle.GetDocumentTitle | src/md/markdown_it_md/title.rs:3-18 | the counter loop with early return gives the first-heading-is-h1 rule |
| DocTitle.TitleIff | src/md/markdown_it_md/title.rs:7-17 | `DocumentTitle` is `Some` iff some heading is an h1 with no heading before it, and then it is that heading's text |
| DocTitle.FirstH2HidesH1 | src/md/markdown_it_md/title.rs:11 | a first heading of level ≥ 2 gives `None` even when an h1 follows |
| DocTitle.LeadingTextIgnored | src/md/markdown_it_md/title.rs:8-10 | non-heading nodes in front change nothing |
| DocTitle.HeaderTextsSnoc | src/md.rs:35-37 | the children's texts are appended in order |
| DocTitle.AppendHeaderText | src/md.rs:28-40 | `get_header_text` only appends to its buffer, and appends exactly the flattened text `HeaderText` |
| DocTitle.AppendHeaderTexts | src/md.rs:34-38 | the recursion over children appends their flattened texts in order |
| DocTitle.GetDocumentTitleComrak | src/md.rs:6-26 | the comrak counter loop, counting every `NodeValue::Heading` (ATX and setext), gives the first-heading-is-h1 rule with `get_header_text` (`ComrakTitle`) |
| DocTitle.RevisionsAgreeOnPresence | src/md.rs:12-25 | on a document with no top-level setext heading both revisions stop at the same heading, so they find a title on the same documents |
| DocTitle.SetextTitleOnlyComrak | src/md.rs:13 | a lone setext h1 (`Title` over `=====`) is comrak's title, while markdown-it finds none |
| DocTitle.SetextH2HidesH1OnlyComrak | src/md.rs:13-15 | a setext h2 followed by an ATX h1 gives comrak no title, while markdown-it takes the h1 |
| DocTitle.BreakFlattening | src/md.rs:33 | on a two-line setext h1, comrak's title joins the lines with one space; `collect_text` would join them with nothing, and markdown-it takes no title from it |
| CodeBlocks.ParseMetadata | src/md/markdown_it_md/code.rs:17-47 | the token loop gives the language as the first word, showLineNumbers iff a later word equals it, and the file from the whole string |
| CodeBlocks.WordsEmpty | src/md/markdown_it_md/code.rs:23-27 | there is no word exactly when the string is all whitespace |
| CodeBlocks.LanguageIsFirstWord | src/md/markdown_it_md/code.rs:23-27 | `MetadataOf`: no language iff no word, and then the default metadata; otherwise the language is the non-empty first word |
| CodeBlocks.FileNeedsSecondWord | src/md/markdown_it_md/code.rs:29-44 | a file is set only with a second word and a whole string splitting on `=` into exactly two parts whose trimmed left part is `file`; its value is the trimmed right part without `"` |
| CodeBlocks.FileValueShape | src/md/markdown_it_md/code.rs:34-41 | a file found by `FileOf` comes from a string with exactly one `=` whose trimmed left side is `file`; the name holds no `=` and neither starts nor ends with `"` |
| CodeBlocks.FileAfterLanguageIgnored | src/md/markdown_it_md/code.rs:34-44 | as written, `LANG file=NAME` yields no file |
| CodeBlocks.LastSome | src/md/markdown_it_md/code.rs:43 | the last present candidate, and none exactly when none is present |
| CodeBlocks.FileCandidates | src/md/markdown_it_md/code.rs:34-42 | one candidate per word, computed from that word |
| CodeBlocks.LastSomeIsLast | src/md/markdown_it_md/code.rs:43 | a later assignment overwrites an earlier one |
| CodeBlocks.PerWordFindsFile | src/md/markdown_it_md/code.rs:34-44 | with the split done per word, the last `file=` word after the language names the file |
| CodeBlocks.PerWordFileFromWord | src/md/markdown_it_md/code.rs:34-44 | with the split per word (`MetadataPerWord`), a file found is the candidate of some word after the language |
| CodeBlocks.LastFileCandidate | src/md/markdown_it_md/code.rs:29-44 | the last `file=` word among the later words is the one found |
| CodeBlocks.PerWordFindsFileAfterLanguage | src/md/markdown_it_md/code.rs:34-44 | corrected: `LANG file=NAME` gives that language, no line numbers and file NAME without quotes |
| CodeBlocks.LanguageThenFileWords | src/md/markdown_it_md/code.rs:23-29 | `LANG file=NAME` splits into the two words, and the second names the file |
| CodeBlocks.FileWord | src/md/markdown_it_md/code.rs:35-38 | `file=NAME` is one word, and its own candidate is NAME without quotes |
| CodeBlocks.PerWordAgrees | src/md/markdown_it_md/code.rs:23-32 | the corrected parse keeps the language and showLineNumbers of the original |
| CodeBlocks.RenderCode | src/md/markdown_it_md/code.rs:57-78 | `pre` with class `language-<lang>` (lang defaults to `text`) holding `code` with the highlighted HTML, or the error text when highlighting fails (`Highlighted`) |
| CodeBlocks.RenderCodeRaw | src/md/code.rs:16-36 | the older render uses the raw info string as the language, `text` only when there is none, with the same fallback |
| CodeBlocks.EmptyInfoLanguage | src/md/code.rs:17-20 | an empty info string gives `language-text` in the newer revision and `language-` in the older |
| CodeBlocks.ApplyCodeRuleAll | src/md/markdown_it_md/code.rs:84-104 | the rule keeps the number of children |
| CodeBlocks.ApplyCodeRuleRawAll | src/md/code.rs:42-62 | the older rule keeps the number of children |
| CodeBlocks.CodeRuleReplaces | src/md/markdown_it_md/code.rs:84-104 | `ApplyCodeRule` and `ApplyCodeRuleRaw`: after either rule no indented block or fence is left, and every code content is kept, in order |
| CodeBlocks.FancyRuleReplaces | src/md/markdown_it_md/code.rs:84-104 | after `ApplyCodeRule` no indented block or fence is left, and every code content is kept, in order |
| CodeBlocks.FancyRuleReplacesAll | src/md/markdown_it_md/code.rs:84-104 | the same, over a list of children |
| CodeBlocks.RawRuleReplaces | src/md/code.rs:42-62 | after `ApplyCodeRuleRaw` no indented block or fence is left, and every code content is kept, in order |
| CodeBlocks.RawRuleReplacesAll | src/md/code.rs:42-62 | the same, over a list of children |
| CodeBlocks.CodeRuleOnlyCode | src/md/markdown_it_md/code.rs:89-102 | a tree without code blocks comes back unchanged from either rule |
| CodeBlocks.CodeRuleOnlyCodeAll | src/md/code.rs:47-59 | the same, over a list of children |
| CodeBlocks.CodeRuleIdempotent | src/md/markdown_it_md/code.rs:84-104 | running the rule twice is running it once |
| CodeBlocks.CodeRuleLeaves | src/md/markdown_it_md/code.rs:89-101 | an indented block gets the default metadata; a fence gets its parsed info string (the older rule: its raw info string); the content is kept |
| Images.ImageNode | src/md/markdown_it_md/image.rs:37-43 | the image node has the given title and children, and the href as URL, or "" when the href is missing |
| Images.AltTextsSnoc | src/md/markdown_it_md/image.rs:19-24 | the walk appends each node's text runs in order |
| Images.AltTextsAppend | src/md/markdown_it_md/image.rs:19-24 | `AltText`/`AltTexts`: the alt text of a concatenation is the concatenation of the alt texts |
| Images.WalkAlt | src/md/markdown_it_md/image.rs:19-24 | the walk only appends to `alt`, and appends exactly the node's text runs, code-span literals included |
| Images.WalkAltAll | src/md/markdown_it_md/image.rs:20-24 | the walk over children appends their text runs and code-span literals in walk order, without separators |
| Images.RenderImage | src/md/markdown_it_md/image.rs:12-34 | figure > a(href = URL) > img with the attributes in push order; the alt text is every text run and code-span literal of the children |
| Images.ImgAttrsMeaning | src/md/markdown_it_md/image.rs:13-27 | `ImgAttrs`: `src` first, then `title` iff present, then `alt` iff non-empty and last |
| Images.AltTextExample | src/md/markdown_it_md/image.rs:21-23 | text runs, nested ones and code-span literals are concatenated in order |
| Images.BareImage | src/md/markdown_it_md/image.rs:53-54 | `![](URL)` gives only `src` |
| Images.TitledImage | src/md/markdown_it_md/image.rs:56-57 | `![TEXT](URL "TITLE")` gives `src`, `title`, `alt` in that order |
| Pages.IsIndexOnlyAtRoot | src/content/page.rs:35-37 | `IsIndex`: the page is the index iff its relative path is exactly `index.md`; `DIR/index.md` is not |
| Pages.ParseFront | src/page.rs:39-42 | no front-matter block gives the default, with no title and no order; a block gives its deserialisation or its error |
| Pages.StripPrefix | src/content/page.rs:55 | the strip succeeds iff the root is a prefix, and then root + result = path; otherwise the error is `Prefix` |
| Pages.Links | src/content/page.rs:67-71 | one link per pair, in the same order |
| Pages.LinksAppend | src/content/page.rs:67-71 | mapping is compatible with concatenation |
| Pages.FromPath | src/content/page.rs:39-76 | read and front-matter errors propagate; order 0 fails with `ZeroOrder(path)`; a page never has order 0; root + relative path = path; breadcrumb = mapped pairs |
| Pages.FromPathBuilds | src/content/page.rs:47-75 | without order 0: a path outside the root fails with `Prefix`; otherwise the page has the inferred title, the copied order, the document's table of contents, and a search index titled with the page title of 1 + headings documents |
| Pages.ZeroOrderFirst | src/content/page.rs:50-52 | order 0 fails before title inference and the prefix check, whatever the root |
| Pages.Rank | src/content/page.rs:107-117 | rank 0 for the index page regardless of its order, else its order, else 1 |
| Pages.CmpMeaning | src/content/page.rs:105-126 | `Cmp`/`PartialCmp`: `cmp` is the reversed rank comparison: Less iff a higher rank, Equal iff equal ranks; antisymmetric, transitive, and `partial_cmp` is `Some(cmp)` |
| Pages.IndexComparesGreater | src/content/page.rs:107-118 | the index page compares Greater than any other page, so it sorts after them |
| Pages.ExplicitOrdersCompare | src/content/page.rs:110-118 | two explicit orders compare reversed, and equal orders compare Equal |
| Pages.LegacyFromPath | src/page.rs:29-65 | the older build: read errors propagate, root + relative path = path, breadcrumb = mapped pairs in order |
| Pages.RevisionsAgree | src/page.rs:39-63 | missing front matter gives the default title rule; where the newer build succeeds the older gives the same fields; only the newer rejects order 0 |
| Titles.PageTitlePriority | src/content/title.rs:15-24 | `InferPageTitle`: the front-matter title, else the document title, else the name from the path |
| Titles.TitleFromIndexPage | src/content/title.rs:26-37 | no `index.md` gives none; a read error propagates; otherwise the first-heading rule on it |
| Titles.SectionTitlePriority | src/content/title.rs:39-57 | `SectionTitle`: a sidecar title wins whatever `index.md` holds; a sidecar without a title behaves as none; sidecar errors propagate; the two fallback branches are the same |
| Titles.IndexTitleNamesSection | src/content/title.rs:46-56 | an `index.md` with an h1 names its directory when the sidecar gives no title |
| Titles.TitleFromIndexPageAsWritten | src/title.rs:14-25 | the older version checks for `index.md` but reads the directory's path |
| Titles.AsWrittenReadsDirectory | src/title.rs:17 | as written, a directory with an `index.md` and no sidecar fails, where reading `index.md` gives its h1 |
| Titles.RevisionsAgreeOnSameContents | src/title.rs:27-45 | `SectionTitleAsWritten` against `SectionTitle`: where the directory read and `index.md` agree, both revisions give the same section title |
| Utils.LastIndexOf | src/utils.rs:9 | the last occurrence of a character, with none after it, or none at all |
| Utils.CapitalizeFirstLetter | src/utils.rs:31-33 | upper-cases only the first character and keeps the rest; requires a non-empty string with a one-byte first character |
| Utils.NameFromPathCases | src/utils.rs:8-22 | `NameFromPath`, defined where `NameDefined` holds: title-casing wins; else the first letter is capitalized; else the stem with every `-` as a space; no `-` survives outside title-casing |
| Utils.FileStemIsPrefix | src/utils.rs:9 | `file_stem` exists iff `file_name` does; it is a prefix of the name, non-empty for a non-empty name, cut at the last `.` with no `.` after it, and the whole name when no `.` follows the first character |
| Utils.MarkdownStem | src/utils.rs:9 | the stem of `NAME.md` is NAME |
| Utils.FileStemExamples | src/utils.rs:9 | `index.md` has stem `index`; a leading dot does not start an extension; no path, no stem |
| Utils.GetOrNone | src/utils.rs:36-42 | `None` iff the list is empty, else `Some` of the same items |
| Utils.GetOrNoneRoundTrip | src/utils.rs:36-42 | flattening the result gives the list back, and it is never `Some([])` |
| Sections.SectionsOrNone | src/content/section.rs:78 | empty section lists are stored as none, others unchanged |
| Sections.Section.Pages | src/content/section.rs:24-43 | own pages in stored order, then each sub-section's pages, in order |
| Sections.PushAll | src/content/section.rs:28-30 | pushing every item in order appends the list |
| Sections.PagesOfAllSnoc | src/content/section.rs:33-39 | one more sub-section appends its pages |
| Sections.PageCounts | src/content/section.rs:33-39 | one count per sub-section |
| Sections.PagesOfAllLength | src/content/section.rs:33-39 | the sub-sections contribute the sum of their page counts |
| Sections.PagesOfLength | src/content/section.rs:24-43 | own count plus the sum over sub-sections, with the own pages first; a missing list contributes nothing |
| Sections.Crumbs | src/content/section.rs:51-59 | the parent's breadcrumb followed by (path, this title) |
| Sections.PrependSnoc | src/content/section.rs:70-71 | pushing sections one at a time is pushing them all |
| Sections.PrependNothing | src/content/section.rs:62 | the walk starts with no sections |
| Sections.BuildSection | src/content/section.rs:45-82 | the walk (copy the breadcrumb, push this directory, loop over the listing) gives the recursive definition |
| Sections.DirsOf | src/content/section.rs:64-73 | the directories of a listing, in order |
| Sections.NameableDirs | src/content/section.rs:64-73 | every directory of a listing can be named |
| Sections.SubSectionsAreDirs | src/content/section.rs:64-73 | `SubSections`: one section per directory entry, in order, each built with the same accumulated breadcrumb; only directories recurse |
| Sections.FromPathBuilds | src/content/section.rs:45-82 | `FromPath` on success: the title is the section title; the pages come from `get_pages_in_dir` with the accumulated breadcrumb; empty lists are none; one sub-section per directory |
| Sections.StartWithShorter | src/content/section.rs:59-70 | a breadcrumb that starts with a longer prefix starts with a shorter one |
| Sections.BreadcrumbsOf | src/content/section.rs:59-70 | each page at depth d below the directory gets parent + d + 1 links, starting with this directory's breadcrumb |
| Sections.BreadcrumbsOfAll | src/content/section.rs:64-73 | every sub-section's pages start with the accumulated breadcrumb and get one link more |
| Sections.SubSectionsDirStep | src/content/section.rs:69-71 | a directory entry that builds puts its section in front of the rest |
| Sections.StartWithAppend | src/content/section.rs:36-38 | pages of two lists sharing a breadcrumb prefix still share it |
| Sections.RootBreadcrumbs | src/content/section.rs:45-82 | a page at depth d gets d + 1 links, the root's first |
| Sites.Site.Pages | src/content/site.rs:16-18 | the site's pages are the root section's pages |
| Sites.Site.Documents | src/content/site.rs:20-31 | the nested loops concatenate every page's search documents in page order |
| Sites.Site.Attrs | src/content/site.rs:33-37 | the site title is the root section's title |
| Sites.IndexLengths | src/content/site.rs:24-28 | one index length per page |
| Sites.DocumentsAppend | src/content/site.rs:23-29 | the documents of two page lists are concatenated |
| Sites.DocumentsLength | src/content/site.rs:20-31 | the number of documents is the sum of the index lengths |
| Sites.DocumentsCopied | src/content/site.rs:24-28 | each page's index appears whole and unchanged, after the pages before it and before the pages after it |
| Sites.DocumentsOne | src/content/site.rs:24-28 | a single page contributes exactly its index |
| Sites.DocumentsMembership | src/content/site.rs:20-31 | `DocumentsOf`: a document is among the site's documents iff it is in some page's index |
| Sites.SiteTitle | src/content/site.rs:33-37 | a site built from a root directory is titled with that directory's section title |
| Sort.ByTitleMeaning | src/content/sort.rs:5-7 | `ByTitle`: Equal iff the titles are equal; a smaller title gives Greater; antisymmetric and transitive; depends only on the titles |
| Sort.PrefixTitleAfter | src/content/sort.rs:6 | a title that is a strict prefix of another sorts after it |
| Strings.TrimStart | src/md/markdown_it_md/code.rs:36 | the result is no longer, and starts with no whitespace |
| Strings.TrimStartSuffix | src/md/markdown_it_md/code.rs:36-37 | `trim_start` keeps a suffix and drops only whitespace |
| Strings.TrimEndPrefix | src/md/markdown_it_md/code.rs:36-37 | `trim_end` keeps a prefix, drops only whitespace, and ends with none |
| Strings.TrimStartMatchesSuffix | src/md/markdown_it_md/code.rs:37 | `trim_start_matches` keeps a suffix not starting with the pattern and drops only the pattern |
| Strings.TrimEndMatchesPrefix | src/md/markdown_it_md/code.rs:37 | `trim_end_matches` keeps a prefix not ending with the pattern and drops only the pattern |
| Strings.TrimMatchesInside | src/md/markdown_it_md/code.rs:37 | `trim_matches` leaves neither end on the pattern and keeps only characters of its input |
| Strings.TrimInside | src/md/markdown_it_md/code.rs:36 | `trim` keeps only characters of its input |
| Strings.TakeWord | src/md/markdown_it_md/code.rs:23 | a word is the longest prefix without whitespace |
| Strings.Words | src/md/markdown_it_md/code.rs:23 | every word from `split_whitespace` is non-empty and has no whitespace |
| Strings.IndexOf | src/md/markdown_it_md/code.rs:35 | the first occurrence, with none before it, or none at all |
| Strings.Split | src/md/markdown_it_md/code.rs:35 | at least one part, and no part holds the separator |
| Strings.SplitJoin | src/md/markdown_it_md/code.rs:35 | joining `Split`'s parts with the separator gives back the string |
| Strings.TrimNoWhitespace | src/md/markdown_it_md/code.rs:36-37 | a string without whitespace is its own trim |
| Strings.TakeWordExact | src/md/markdown_it_md/code.rs:23 | a word followed by whitespace or the end is taken whole |
| Strings.WordsSkipSpace | src/md/markdown_it_md/code.rs:23 | a leading space does not change the words |
| Strings.WordsCons | src/md/markdown_it_md/code.rs:23-29 | a word, a space and more text: the word comes first |
| Strings.WordsSingle | src/md/markdown_it_md/code.rs:23 | a non-empty string without whitespace is one word |
| Strings.IndexOfAt | src/md/markdown_it_md/code.rs:35 | an occurrence with none before it is the first |
| Strings.SplitTwo | src/md/markdown_it_md/code.rs:35-36 | two pieces joined by the separator split back into the two pieces |
| Strings.JoinSnoc | src/md/parse.rs:12 | joining one more part adds one separator and the part |
| Strings.LexCompareAntisymmetric | src/content/sort.rs:6 | comparing the other way round reverses the result |
| Strings.LexCompareEqual | src/content/sort.rs:6 | Equal iff the strings are equal |
| Strings.LexCompareTransitive | src/content/sort.rs:6 | Less is transitive |
| Strings.LexCompareStrictPrefix | src/content/sort.rs:6 | a strict prefix is smaller |
| Strings.AsciiUpper | src/utils.rs:32 | lower-case ASCII letters become upper-case, others are unchanged |
| Strings.ReplaceChar | src/utils.rs:13 | same length, and every `-` becomes a space while every other character stays |
| Slug.Slugify | src/md/markdown_it_md/headings.rs:139-146 | the slug has only `a-z`, `0-9` and `-`, with no `-` at either end and no `--` |
| Slug.Pushed | src/md/markdown_it_md/headings.rs:140 | the separator logic pushes only `a-z`, `0-9` and `-`, never `--`, and no leading `-` after a dash |
| Slug.PushedWellFormed | src/md/markdown_it_md/headings.rs:140 | a well-formed slug passes through the separator logic unchanged |
| Slug.SlugifyIdempotent | src/md/markdown_it_md/headings.rs:140 | the slug of a slug is itself |
| Wrappers.Ordering.Reverse | src/content/page.rs:118 | the reversed ordering is Equal exactly when the original is |
| Wrappers.CompareNat | src/content/page.rs:118 | Less, Equal or Greater exactly as the numbers compare |
| Ast.CollectTextsAppend | src/md/parse.rs:10 | the collected text of a concatenation is the concatenation of the texts |

## Left out

- **Markdown parsing:** `ast()` in `src/md/parse.rs:38-81` is not part of this model. It only wires markdown-it plugins. The model starts from its output, a `Node` tree, and `collect_text` is defined on that tree.
- **`node_to_string`:** the older revision's helper is not among the source files. It is taken to be `collect_text`.
- **The `slug` crate:** it is modelled as a concrete ASCII slugifier. Non-ASCII characters act as separators, because transliteration by `deunicode` is left out.
- **Foreign libraries:** `titlecase`, the syntect highlighter and `get_pages_in_dir` are function-typed parameters. `CarriesBreadcrumb` pins down `get_pages_in_dir`'s one used property: every page carries the breadcrumb it is given.
- **HTML output:** rendering is modelled as tag names, attribute lists and nesting. Emitted bytes, `fmt.cr()` newlines and the `mapping` offsets of the inline root are not modelled.
- **I/O:** file reads, `read_dir`, `metadata`, `exists()`, and YAML/front-matter deserialisation are inputs (`PageSource`, `Dir`, `DirFiles`).
- **Front matter:** the newer page reads `front.order`, but the front-matter struct in `src/content/front.rs` has no such field. `FrontMatter` is taken as an optional title plus an optional order.
- **Page fields:** a page's `body` and `html` strings are not modelled.
- **The code-block rule:** `walk_post_mut` replaces nodes in place, but the model works on values. It rebuilds the tree without the replaced code nodes, so in-place update and aliasing are not modelled.
- **Other files:**
  - `src/search.rs` builds documents and then discards them, so it is not part of this model.
  - `src/content.rs`, `src/section.rs` and `src/site.rs` are older filesystem walkers.
  - `src/md/admonition.rs` is a stub whose scanner always returns `None`.
  - The Handlebars templates in `src/md/render.rs` and `src/md/markdown_it_md/render.rs` are not part of this model.
  - The commands in `src/cmd/*`, the CLI, and the config structs only construct data.
- **Integer widths:** heading levels are `u8` and orders are `usize` in the source; the model uses unbounded integers. The scanner rejects any level above 6, so `u8` never overflows there, and orders are only copied and compared.
- **Name panics:** `name_from_path` unwraps the file stem and slices the first byte. `Utils.NameDefined` is required where the code would otherwise panic.
- Sections.FromPath: requires every directory of the tree to be nameable (`Nameable`). This excludes directories whose title would fall through to a name that panics, which the code does not guard against.
- Pages.FromPath: requires a nameable path wherever the title would fall through to the file name (`TitleDefined`), for the same reason.
- Headings.Render: requires a level from 1 to 6, as does `Headings.RenderLegacy`. The source indexes its tag table with `level - 2` (`level - 1` in the older file), which would panic for level 0. The scanner gives level 0 only to an empty line (`AtxHeading.EmptyLineIsLevelZero`), and the block parser never runs the rule on an empty line, so no such node is built. The panic is not modelled.
- **Positions:** the scanner's `text_pos`, `text_max` and the line length are character indices into a `seq<char>`. The source uses byte offsets into UTF-8 text. They agree exactly on ASCII lines. Elsewhere the spans agree as character ranges, but not as numbers.
- Pages.LegacyFromPath: takes the page's front matter through the same `ParseFront` outcome as the newer build. The older `FrontMatter` (`src/page.rs:69-71`) holds only a title, so a front matter whose `order` fails to deserialise would still parse in the older build. The model gives both builds the same parse outcome and does not capture that difference.
- **Legacy table of contents:** `LegacyToc.New` models `toc_for_level` as written. The corrected sectioned variant is proved about, but it does not replace the original.

## Findings

| source | as written | input that shows it | evidently intended | confidence | as-written member | corrected member |
|---|---|---|---|---|---|---|
| src/title.rs:17 | `title_from_index_page` checks that `index.md` exists, then reads `path`, the directory itself | a directory with `index.md` whose first heading is `# Guide` and no `_dir.yaml`: reading the directory fails, so the section fails | read `index_path`, giving the title `Guide` (as `src/content/title.rs:29` does) | not executed | Titles.AsWrittenReadsDirectory | Titles.IndexTitleNamesSection |
| src/toc.rs:43 | the sub-table recurses over `&nodes[idx..]`, the rest of the document | h2 A, h3 B, h2 C, h3 D: D is listed under A and again under C | recurse only over the section up to the next heading of the same or a shallower level | not executed | LegacyToc.RepeatedHeading | LegacyToc.SectionedListsEachOnce |
| src/md/markdown_it_md/code.rs:34-44 | the `file=` split runs on the whole info string `s`, not on the current `part` | `rust file=main.rs`: the whole string splits into `rust file` and `main.rs`, so no file is found | split the current word, giving file `main.rs` | not executed | CodeBlocks.FileAfterLanguageIgnored | CodeBlocks.PerWordFindsFileAfterLanguage |

The corrected title rule is the newer revision. `Sections.FromPath` uses it.

The corrected table-of-contents shape is what `Toc` builds. Pages use it, as `Toc.ForestOwns` and `Toc.TestDocumentShape` show.

The corrected metadata parse is `CodeBlocks.MetadataPerWord`. Rendering reads only the language, and `CodeBlocks.PerWordAgrees` proves both parses give the same language. So the rendered output of `LANG file=NAME` is the same under both.
