/** The per-page search index (src/md/search.rs). */
module Search {
  import opened Strings
  import opened Seqs
  import opened Ast
  import opened MdParse
  import opened Headings

  datatype SearchDocument = SearchDocument(level: nat, pageTitle: string, title: string, content: string)

  /** One search unit per heading below level 1, with the text that follows it. */
  function HeadingDocuments(pageTitle: string, ds: seq<(Heading, string)>): (docs: seq<SearchDocument>)
    ensures |docs| == |ds|
    ensures forall k :: 0 <= k < |ds| ==> docs[k] == SearchDocument(ds[k].0.level, pageTitle, ds[k].0.text, ds[k].1)
  {
    if ds == [] then []
    else HeadingDocuments(pageTitle, ds[..|ds| - 1]) + [SearchDocument(ds[|ds| - 1].0.level, pageTitle, ds[|ds| - 1].0.text, ds[|ds| - 1].1)]
  }

  lemma HeadingDocumentsSnoc(pageTitle: string, ds: seq<(Heading, string)>, i: nat)
    requires i < |ds|
    ensures HeadingDocuments(pageTitle, ds[..i + 1]) ==
      HeadingDocuments(pageTitle, ds[..i]) + [SearchDocument(ds[i].0.level, pageTitle, ds[i].0.text, ds[i].1)]
  {
    PrefixOfNext(ds, i);
  }

  /**
   * The index of a page: first a level-1 unit titled with the page title and
   * holding the preamble, then one unit per heading below level 1.
   */
  function SearchIndexFor(pageTitle: string, document: seq<Node>): seq<SearchDocument> {
    [SearchDocument(1, pageTitle, pageTitle, PreambleText(document))] + HeadingDocuments(pageTitle, WithTextAfterOf(document))
  }

  /** `build_search_index_for_page` */
  method BuildSearchIndexForPage(pageTitle: string, document: seq<Node>) returns (index: seq<SearchDocument>)
    ensures index == SearchIndexFor(pageTitle, document)
  {
    var documents: seq<SearchDocument> := [];
    var preamble := Preamble(document);
    documents := documents + [SearchDocument(1, pageTitle, pageTitle, preamble)];
    var items := HeadingsWithTextAfter(document);
    for i := 0 to |items|
      invariant documents == [SearchDocument(1, pageTitle, pageTitle, preamble)] + HeadingDocuments(pageTitle, items[..i])
    {
      HeadingDocumentsSnoc(pageTitle, items, i);
      var (heading, s) := items[i];
      documents := documents + [SearchDocument(heading.level, pageTitle, heading.text, s)];
    }
    assert items[..|items|] == items;
    index := documents;
  }

  /**
   * One unit more than there are headings below level 1; the first is the
   * preamble at level 1, each later one carries its heading's level and text,
   * and every unit names the page.
   */
  lemma SearchIndexShape(pageTitle: string, document: seq<Node>)
    ensures var idx := SearchIndexFor(pageTitle, document);
      && |idx| == 1 + |HeadingsOf(document)|
      && idx[0] == SearchDocument(1, pageTitle, pageTitle, PreambleText(document))
      && (forall k :: 0 <= k < |idx| ==> idx[k].pageTitle == pageTitle)
      && forall k :: 0 <= k < |HeadingsOf(document)| ==>
           idx[k + 1].level == HeadingsOf(document)[k].level >= 2
           && idx[k + 1].title == HeadingsOf(document)[k].text
  {
    WithTextAfterHeadings(document);
  }

  /** Each heading unit holds the text after its heading. */
  lemma SearchIndexContent(pageTitle: string, document: seq<Node>, k: nat)
    requires k < |IndexedHeadingsOf(document)|
    ensures SearchIndexFor(pageTitle, document)[k + 1].content == TextAfter(document, IndexedHeadingsOf(document)[k].0)
  {
  }

  /** An empty body gives the single preamble unit with empty content. */
  lemma EmptyPage(pageTitle: string)
    ensures SearchIndexFor(pageTitle, []) == [SearchDocument(1, pageTitle, pageTitle, "")]
  {
    assert HeadingsOf([]) == [];
    assert PreambleNodes([]) == [];
  }

  /**
   * The second case of the unit test, over arbitrary one-paragraph texts: a
   * paragraph, an h2, a paragraph, an h3 and two paragraphs give the
   * preamble unit, the h2 unit with its paragraph, and the h3 unit with the
   * two paragraphs joined by a space.
   */
  lemma ExamplePage(pageTitle: string, p0: string, h2: string, p1: string, h3: string, p2: string, p3: string)
    ensures SearchIndexFor(pageTitle, [Para([Text(p0)]), FancyHeading(2, [Text(h2)]), Para([Text(p1)]),
                                       FancyHeading(3, [Text(h3)]), Para([Text(p2)]), Para([Text(p3)])]) ==
      [SearchDocument(1, pageTitle, pageTitle, p0),
       SearchDocument(2, pageTitle, h2, p1),
       SearchDocument(3, pageTitle, h3, p2 + " " + p3)]
  {
    var a, b, c, d, e, f := Para([Text(p0)]), FancyHeading(2, [Text(h2)]), Para([Text(p1)]),
                            FancyHeading(3, [Text(h3)]), Para([Text(p2)]), Para([Text(p3)]);
    var ns := [a, b, c, d, e, f];
    assert CollectText(b) == h2 by { TextParagraph(h2); }
    assert CollectText(d) == h3 by { TextParagraph(h3); }
    ExamplePreamble(ns, p0);
    IndexedHeadingsAt(ns, a, b, c, d, e, f);
    ExampleTextAfter(ns, p1, p2, p3);
    WithTextAfterTwo(ns, 1, HeadingOf(b), 3, HeadingOf(d));
    SearchIndexTwo(pageTitle, ns, p0, HeadingOf(b), p1, HeadingOf(d), p2 + " " + p3);
    assert HeadingOf(b).level == 2 && HeadingOf(b).text == h2;
    assert HeadingOf(d).level == 3 && HeadingOf(d).text == h3;
  }

  lemma SearchIndexTwo(pageTitle: string, ns: seq<Node>, pre: string, h: Heading, s: string, h': Heading, s': string)
    requires PreambleText(ns) == pre && WithTextAfterOf(ns) == [(h, s), (h', s')]
    ensures SearchIndexFor(pageTitle, ns) ==
      [SearchDocument(1, pageTitle, pageTitle, pre),
       SearchDocument(h.level, pageTitle, h.text, s),
       SearchDocument(h'.level, pageTitle, h'.text, s')]
  {
    HeadingDocumentsTwo(pageTitle, h, s, h', s');
  }

  lemma WithTextAfterTwo(ns: seq<Node>, i: nat, hi: Heading, j: nat, hj: Heading)
    requires i < |ns| && j < |ns| && IndexedHeadingsOf(ns) == [(i, hi), (j, hj)]
    ensures WithTextAfterOf(ns) == [(hi, TextAfter(ns, i)), (hj, TextAfter(ns, j))]
  {
    PairWithTextTwo(ns, i, hi, j, hj);
  }

  lemma PairWithTextTwo(ns: seq<Node>, i: nat, hi: Heading, j: nat, hj: Heading)
    requires i < |ns| && j < |ns|
    ensures PairWithText(ns, [(i, hi), (j, hj)]) == [(hi, TextAfter(ns, i)), (hj, TextAfter(ns, j))]
  {
  }

  lemma HeadingDocumentsTwo(pageTitle: string, h: Heading, s: string, h': Heading, s': string)
    ensures HeadingDocuments(pageTitle, [(h, s), (h', s')]) ==
      [SearchDocument(h.level, pageTitle, h.text, s), SearchDocument(h'.level, pageTitle, h'.text, s')]
  {
  }

  lemma ExamplePreamble(ns: seq<Node>, p0: string)
    requires |ns| == 6 && ns[0] == Para([Text(p0)]) && ns[1].FancyHeading? && ns[1].level == 2
    ensures PreambleText(ns) == p0
  {
    var a := ns[0];
    TextParagraph(p0);
    assert ns[1..][0] == ns[1];
    assert StopIndex(ns) == 1;
    assert ns[..1] == [a] && [a][..0] == [];
    assert NonHeadings([a]) == [a];
    assert Texts([a]) == [p0];
  }

  lemma ExampleTextAfter(ns: seq<Node>, p1: string, p2: string, p3: string)
    requires |ns| == 6 && ns[1].FancyHeading? && ns[3].FancyHeading?
    requires ns[2] == Para([Text(p1)]) && ns[4] == Para([Text(p2)]) && ns[5] == Para([Text(p3)])
    ensures TextAfter(ns, 1) == p1
    ensures TextAfter(ns, 3) == p2 + " " + p3
  {
    TextParagraph(p1);
    TextParagraph(p2);
    TextParagraph(p3);
    TextAfterStops(ns, 1, 3);
    assert ns[2..3] == [ns[2]] && Texts([ns[2]]) == [p1];
    UntilHeadingUnique(ns[4..], 2);
    assert ns[4..][..2] == [ns[4], ns[5]];
    assert Texts([ns[4], ns[5]]) == [p2, p3];
    assert [p2, p3][1..] == [p3];
    assert Join([p2, p3], " ") == p2 + " " + p3;
    assert NodesToString([ns[4], ns[5]]) == p2 + " " + p3;
  }

  lemma IndexedHeadingsAt(ns: seq<Node>, a: Node, b: Node, c: Node, d: Node, e: Node, f: Node)
    requires ns == [a, b, c, d, e, f]
    requires !a.FancyHeading? && !c.FancyHeading? && !e.FancyHeading? && !f.FancyHeading?
    requires IsSubHeading(b) && IsSubHeading(d)
    ensures IndexedHeadingsOf(ns) == [(1, HeadingOf(b)), (3, HeadingOf(d))]
  {
    assert [a][..0] == [];
    assert IndexedHeadingsOf([a]) == [];
    assert [a, b][..1] == [a];
    assert IndexedHeadingsOf([a, b]) == [(1, HeadingOf(b))];
    assert [a, b, c][..2] == [a, b];
    assert IndexedHeadingsOf([a, b, c]) == [(1, HeadingOf(b))];
    assert [a, b, c, d][..3] == [a, b, c];
    assert IndexedHeadingsOf([a, b, c, d]) == [(1, HeadingOf(b)), (3, HeadingOf(d))];
    assert [a, b, c, d, e][..4] == [a, b, c, d];
    assert IndexedHeadingsOf([a, b, c, d, e]) == [(1, HeadingOf(b)), (3, HeadingOf(d))];
    assert ns[..5] == [a, b, c, d, e];
  }
}
