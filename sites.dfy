/** The site (src/content/site.rs): the root section, its pages and its search documents. */
module Sites {
  import opened Wrappers
  import opened Seqs
  import opened Utils
  import opened Titles
  import opened Search
  import opened Pages
  import opened Sections

  /** `SiteAttrs`: what the templates see of the site. */
  datatype SiteAttrs = SiteAttrs(title: string)

  /** `Site`: the root section. */
  datatype Site = Site(root: Section) {
    /** `Site::pages`: the pages of the root section. */
    method Pages() returns (ps: seq<Page>)
      ensures ps == PagesOf(root)
    {
      ps := root.Pages();
    }

    /** `Site::documents`: every document of every page's search index, pages in `pages()` order. */
    method Documents() returns (docs: seq<SearchDocument>)
      ensures docs == DocumentsOf(PagesOf(root))
    {
      docs := [];
      var pages := Pages();
      for i := 0 to |pages|
        invariant docs == DocumentsOf(pages[..i])
      {
        var documents := pages[i].searchIndex;
        for j := 0 to |documents|
          invariant docs == DocumentsOf(pages[..i]) + documents[..j]
        {
          docs := docs + [documents[j]];
          TakeSnoc(documents, j);
        }
        assert documents[..|documents|] == documents;
        PrefixOfNext(pages, i);
      }
      assert pages[..|pages|] == pages;
    }

    /** `Site::attrs`: the site is titled with the root section's title. */
    function Attrs(): (a: SiteAttrs)
      ensures a.title == root.title
    {
      SiteAttrs(root.title)
    }
  }

  /** The search documents of a list of pages, concatenated in page order. */
  function DocumentsOf(ps: seq<Page>): seq<SearchDocument> {
    if ps == [] then [] else DocumentsOf(ps[..|ps| - 1]) + ps[|ps| - 1].searchIndex
  }

  /** The length of each page's search index. */
  function IndexLengths(ps: seq<Page>): (ls: seq<nat>)
    ensures |ls| == |ps|
  {
    seq(|ps|, i requires 0 <= i < |ps| => |ps[i].searchIndex|)
  }

  lemma {:induction false} DocumentsAppend(a: seq<Page>, b: seq<Page>)
    ensures DocumentsOf(a + b) == DocumentsOf(a) + DocumentsOf(b)
    decreases |b|
  {
    if b == [] {
      assert a + b == a;
    } else {
      var b' := b[..|b| - 1];
      assert (a + b)[..|a + b| - 1] == a + b';
      DocumentsAppend(a, b');
    }
  }

  lemma {:induction false} SumSnoc(xs: seq<nat>, x: nat)
    ensures Sum(xs + [x]) == Sum(xs) + x
  {
    if xs == [] {
      assert [x][1..] == [];
    } else {
      assert (xs + [x])[1..] == xs[1..] + [x];
      SumSnoc(xs[1..], x);
    }
  }

  /** As many documents as the search indexes hold together. */
  lemma {:induction false} DocumentsLength(ps: seq<Page>)
    ensures |DocumentsOf(ps)| == Sum(IndexLengths(ps))
  {
    if ps != [] {
      var init := ps[..|ps| - 1];
      DocumentsLength(init);
      assert IndexLengths(ps) == IndexLengths(init) + [|ps[|ps| - 1].searchIndex|];
      SumSnoc(IndexLengths(init), |ps[|ps| - 1].searchIndex|);
    }
  }

  /**
   * Each page's search index appears unchanged and whole, after the documents
   * of the pages before it and before those of the pages after it; and a
   * document is among the site's documents exactly when it is in some page's index.
   */
  lemma {:induction false} DocumentsCopied(ps: seq<Page>, k: nat)
    requires k < |ps|
    ensures DocumentsOf(ps) == DocumentsOf(ps[..k]) + ps[k].searchIndex + DocumentsOf(ps[k + 1..])
  {
    var pre, mid, post := ps[..k], [ps[k]], ps[k + 1..];
    DocumentsAppend(pre, mid);
    DocumentsAppend(pre + mid, post);
    DocumentsOne(ps[k]);
    assert pre + mid + post == ps;
  }

  lemma DocumentsOne(p: Page)
    ensures DocumentsOf([p]) == p.searchIndex
  {
    assert [p][..0] == [];
  }

  lemma {:induction false} DocumentsMembership(ps: seq<Page>, d: SearchDocument)
    ensures d in DocumentsOf(ps) <==> exists k :: 0 <= k < |ps| && d in ps[k].searchIndex
  {
    if ps != [] {
      var init := ps[..|ps| - 1];
      DocumentsMembership(init, d);
      if d in DocumentsOf(init) {
        var k :| 0 <= k < |init| && d in init[k].searchIndex;
        assert ps[k] == init[k];
      }
      if exists k :: 0 <= k < |ps| && d in ps[k].searchIndex {
        var k :| 0 <= k < |ps| && d in ps[k].searchIndex;
        if k < |init| {
          assert init[k] == ps[k];
        }
      }
    }
  }

  /** A site built from a root directory is titled with that directory's section title. */
  lemma SiteTitle(d: Dir, config: SiteConfig, tc: TitleCase, pagesIn: PagesInDir)
    requires Nameable(d, config.titleConfig)
    requires Sections.FromPath(d, None, config, tc, pagesIn).Success?
    ensures Site(Sections.FromPath(d, None, config, tc, pagesIn).value).Attrs().title ==
      SectionTitle(d.path, d.files, config.titleConfig, tc).value
  {
    Sections.FromPathBuilds(d, None, config, tc, pagesIn);
  }
}
