/**
 * Sections (src/content/section.rs): a directory becomes a section holding
 * its pages and the sections of its sub-directories, every page carrying the
 * breadcrumb of the directories above it; and the pages of a section flatten
 * in pre-order.
 */
module Sections {
  import opened Wrappers
  import opened Utils
  import opened Titles
  import opened Pages
  import opened Seqs

  /**
   * The `Option<Vec<Section>>` of a section: no sub-sections, or some. It is a
   * datatype of its own so that recursion into the list is seen to terminate.
   */
  datatype SectionList = NoSections | SomeSections(list: seq<Section>) {
    function GetOr(default: seq<Section>): seq<Section> {
      match this
      case NoSections => default
      case SomeSections(ss) => ss
    }
  }

  /** `get_or_none` on a list of sections. */
  function SectionsOrNone(ss: seq<Section>): (r: SectionList)
    ensures r.NoSections? <==> GetOrNone(ss).None?
    ensures r.SomeSections? ==> r.list == GetOrNone(ss).value
  {
    if ss == [] then NoSections else SomeSections(ss)
  }

  /** `Section`: empty page or section lists are stored as `None`. */
  datatype Section = Section(title: string, pages: Option<seq<Page>>, sections: SectionList) {
    /** `Section::pages`: own pages in stored order, then the pages of each sub-section in order. */
    method Pages() returns (ps: seq<Page>)
      ensures ps == PagesOf(this)
      decreases this
    {
      ps := [];
      if pages.Some? {
        ps := PushAll(ps, pages.value);
      }
      assert ps == OwnPages(this);
      if sections.SomeSections? {
        var ss := sections.list;
        for i := 0 to |ss|
          invariant ps == OwnPages(this) + PagesOfAll(ss[..i])
        {
          assert ss[i] in ss;
          var sub := ss[i].Pages();
          ps := PushAll(ps, sub);
          PagesOfAllSnoc(ss[..i], ss[i]);
          TakeSnoc(ss, i);
        }
        assert ss[..|ss|] == ss;
      }
    }
  }

  /** Pushing every item of a list, in order. */
  method PushAll<T>(ps: seq<T>, items: seq<T>) returns (r: seq<T>)
    ensures r == ps + items
  {
    r := ps;
    for i := 0 to |items|
      invariant r == ps + items[..i]
    {
      r := r + [items[i]];
      TakeSnoc(items, i);
    }
    assert items[..|items|] == items;
  }

  function OwnPages(s: Section): seq<Page> {
    s.pages.GetOr([])
  }

  /** The pre-order flattening of a section's pages. */
  function PagesOf(s: Section): seq<Page>
    decreases s, 1
  {
    OwnPages(s) + match s.sections
      case NoSections => []
      case SomeSections(ss) => PagesOfAll(ss)
  }

  function PagesOfAll(ss: seq<Section>): seq<Page>
    decreases ss, 0
  {
    if ss == [] then [] else PagesOf(ss[0]) + PagesOfAll(ss[1..])
  }

  lemma {:induction false} PagesOfAllSnoc(ss: seq<Section>, s: Section)
    ensures PagesOfAll(ss + [s]) == PagesOfAll(ss) + PagesOf(s)
  {
    if ss == [] {
      assert [s][1..] == [];
    } else {
      assert (ss + [s])[1..] == ss[1..] + [s];
      PagesOfAllSnoc(ss[1..], s);
    }
  }

  function Sum(xs: seq<nat>): nat {
    if xs == [] then 0 else xs[0] + Sum(xs[1..])
  }

  /** The number of pages of each section in a list. */
  function PageCounts(ss: seq<Section>): (cs: seq<nat>)
    ensures |cs| == |ss|
  {
    seq(|ss|, i requires 0 <= i < |ss| => |PagesOf(ss[i])|)
  }

  lemma {:induction false} PagesOfAllLength(ss: seq<Section>)
    ensures |PagesOfAll(ss)| == Sum(PageCounts(ss))
  {
    if ss != [] {
      assert PageCounts(ss)[1..] == PageCounts(ss[1..]);
      PagesOfAllLength(ss[1..]);
    }
  }

  /**
   * The count of `pages()` is the own count plus the counts of the
   * sub-sections, a `None` list counting nothing; the own pages come first,
   * in stored order.
   */
  lemma PagesOfLength(s: Section)
    ensures |PagesOf(s)| == |s.pages.GetOr([])| + Sum(PageCounts(s.sections.GetOr([])))
    ensures PagesOf(s)[..|s.pages.GetOr([])|] == s.pages.GetOr([])
  {
    PagesOfAllLength(s.sections.GetOr([]));
  }

  // ---------------------------------------------------------------- building sections from a directory tree

  /** An entry of a directory listing: one whose entry or metadata read fails, a file, or a directory. */
  datatype Entry = EntryError(error: Error) | FileEntry(path: Path) | DirEntry(dir: Dir)

  /** The outcome of `read_dir`: the error reading the directory, or its entries. */
  datatype Listing = Unlistable(error: Error) | Listed(entries: seq<Entry>)

  /** A directory: its path, the files that decide its title, and its listing. */
  datatype Dir = Dir(path: Path, files: DirFiles, listing: Listing)

  /** `get_pages_in_dir`, which is not part of this model, as a parameter: a directory and breadcrumb to its pages. */
  type PagesInDir = (Path, seq<(Path, string)>) -> Result<seq<Page>, Error>

  /** Every directory of the tree has a name to fall back on when no sidecar or index title exists. */
  predicate Nameable(d: Dir, config: TitleConfig)
    decreases d, 1
  {
    (SectionNeedsName(d.files) ==> NameDefined(d.path, config))
    && match d.listing
       case Unlistable(_) => true
       case Listed(es) => NameableAll(es, config)
  }

  predicate NameableAll(es: seq<Entry>, config: TitleConfig)
    decreases es, 0
  {
    es != [] ==>
      (match es[0]
       case DirEntry(sub) => assert sub < es[0]; Nameable(sub, config)
       case _ => true)
      && NameableAll(es[1..], config)
  }

  /** The breadcrumb handed to a directory's pages and sub-directories: the parent's, then this directory. */
  function Crumbs(parent: Option<seq<(Path, string)>>, path: Path, title: string): (acc: seq<(Path, string)>)
    ensures |acc| == |parent.GetOr([])| + 1 && acc[..|acc| - 1] == parent.GetOr([]) && acc[|acc| - 1] == (path, title)
  {
    parent.GetOr([]) + [(path, title)]
  }

  /** `Section::from_path` */
  function FromPath(d: Dir, parent: Option<seq<(Path, string)>>, config: SiteConfig, tc: TitleCase, pagesIn: PagesInDir): Result<Section, Error>
    requires Nameable(d, config.titleConfig)
    decreases d, 1
  {
    match SectionTitle(d.path, d.files, config.titleConfig, tc)
    case Failure(e) => Failure(e)
    case Success(title) =>
      var acc := Crumbs(parent, d.path, title);
      match pagesIn(d.path, acc)
      case Failure(e) => Failure(e)
      case Success(pages) =>
        match d.listing
        case Unlistable(e) => Failure(e)
        case Listed(es) =>
          match SubSections(es, acc, config, tc, pagesIn)
          case Failure(e) => Failure(e)
          case Success(sections) => Success(Section(title, GetOrNone(pages), SectionsOrNone(sections)))
  }

  /** The loop over the listing: only directories recurse, and the first error ends the walk. */
  function SubSections(es: seq<Entry>, acc: seq<(Path, string)>, config: SiteConfig, tc: TitleCase, pagesIn: PagesInDir): Result<seq<Section>, Error>
    requires NameableAll(es, config.titleConfig)
    decreases es, 0
  {
    if es == [] then Success([])
    else
      match es[0]
      case EntryError(e) => Failure(e)
      case FileEntry(_) => SubSections(es[1..], acc, config, tc, pagesIn)
      case DirEntry(sub) =>
        assert sub < es[0];
        match FromPath(sub, Some(acc), config, tc, pagesIn)
        case Failure(e) => Failure(e)
        case Success(s) =>
          match SubSections(es[1..], acc, config, tc, pagesIn)
          case Failure(e) => Failure(e)
          case Success(rest) => Success([s] + rest)
  }

  /** The sections found so far in front of what the rest of the listing gives. */
  function Prepend(found: seq<Section>, rest: Result<seq<Section>, Error>): Result<seq<Section>, Error> {
    match rest
    case Failure(e) => Failure(e)
    case Success(ss) => Success(found + ss)
  }

  lemma PrependSnoc(found: seq<Section>, s: Section, r: Result<seq<Section>, Error>)
    ensures Prepend(found, Prepend([s], r)) == Prepend(found + [s], r)
  {
    if r.Success? {
      assert found + ([s] + r.value) == (found + [s]) + r.value;
    }
  }

  lemma PrependNothing(r: Result<seq<Section>, Error>)
    ensures Prepend([], r) == r
  {
    if r.Success? {
      assert [] + r.value == r.value;
    }
  }

  /** `Section::from_path` as a walk: copy the breadcrumb, push this directory, then loop over the listing. */
  method BuildSection(d: Dir, parent: Option<seq<(Path, string)>>, config: SiteConfig, tc: TitleCase, pagesIn: PagesInDir)
    returns (r: Result<Section, Error>)
    requires Nameable(d, config.titleConfig)
    ensures r == FromPath(d, parent, config, tc, pagesIn)
    decreases d
  {
    var sectionTitle := SectionTitle(d.path, d.files, config.titleConfig, tc);
    if sectionTitle.Failure? {
      return Failure(sectionTitle.error);
    }
    var title := sectionTitle.value;
    var acc: seq<(Path, string)> := [];
    if parent.Some? {
      var bc := parent.value;
      for i := 0 to |bc|
        invariant acc == bc[..i]
      {
        acc := acc + [bc[i]];
      }
      assert bc[..|bc|] == bc;
    }
    acc := acc + [(d.path, title)];
    assert acc == Crumbs(parent, d.path, title);
    var pages := pagesIn(d.path, acc);
    if pages.Failure? {
      return Failure(pages.error);
    }
    if d.listing.Unlistable? {
      return Failure(d.listing.error);
    }
    var es := d.listing.entries;
    var sections: seq<Section> := [];
    assert es[0..] == es;
    PrependNothing(SubSections(es, acc, config, tc, pagesIn));
    for i := 0 to |es|
      invariant NameableAll(es[i..], config.titleConfig)
      invariant SubSections(es, acc, config, tc, pagesIn) == Prepend(sections, SubSections(es[i..], acc, config, tc, pagesIn))
    {
      assert es[i..][1..] == es[i + 1..] && es[i..][0] == es[i];
      match es[i] {
        case EntryError(e) =>
          assert SubSections(es[i..], acc, config, tc, pagesIn) == Failure(e);
          return Failure(e);
        case FileEntry(_) =>
          assert SubSections(es[i..], acc, config, tc, pagesIn) == SubSections(es[i + 1..], acc, config, tc, pagesIn);
        case DirEntry(sub) =>
          assert sub < es[i] && es[i] in es;
          var s := BuildSection(sub, Some(acc), config, tc, pagesIn);
          if s.Failure? {
            assert SubSections(es[i..], acc, config, tc, pagesIn) == Failure(s.error);
            return Failure(s.error);
          }
          assert SubSections(es[i..], acc, config, tc, pagesIn) == Prepend([s.value], SubSections(es[i + 1..], acc, config, tc, pagesIn));
          PrependSnoc(sections, s.value, SubSections(es[i + 1..], acc, config, tc, pagesIn));
          sections := sections + [s.value];
      }
    }
    assert es[|es|..] == [] && sections + [] == sections;
    assert SubSections(es[|es|..], acc, config, tc, pagesIn) == Success([]);
    assert SubSections(es, acc, config, tc, pagesIn) == Success(sections);
    r := Success(Section(title, GetOrNone(pages.value), SectionsOrNone(sections)));
  }

  /** The directories of a listing, in order. */
  function DirsOf(es: seq<Entry>): (ds: seq<Dir>)
    ensures |ds| <= |es|
  {
    if es == [] then []
    else if es[0].DirEntry? then [es[0].dir] + DirsOf(es[1..])
    else DirsOf(es[1..])
  }

  lemma {:induction false} NameableDirs(es: seq<Entry>, config: TitleConfig)
    requires NameableAll(es, config)
    ensures forall j :: 0 <= j < |DirsOf(es)| ==> Nameable(DirsOf(es)[j], config)
  {
    if es != [] {
      NameableDirs(es[1..], config);
    }
  }

  /** The loop keeps one section per directory of the listing, in order, each built with the same breadcrumb. */
  lemma {:induction false} SubSectionsAreDirs(es: seq<Entry>, acc: seq<(Path, string)>, config: SiteConfig, tc: TitleCase, pagesIn: PagesInDir)
    requires NameableAll(es, config.titleConfig)
    requires SubSections(es, acc, config, tc, pagesIn).Success?
    ensures var ss := SubSections(es, acc, config, tc, pagesIn).value;
      |ss| == |DirsOf(es)|
      && forall j :: 0 <= j < |ss| ==>
           Nameable(DirsOf(es)[j], config.titleConfig) && FromPath(DirsOf(es)[j], Some(acc), config, tc, pagesIn) == Success(ss[j])
  {
    NameableDirs(es, config.titleConfig);
    if es != [] {
      SubSectionsAreDirs(es[1..], acc, config, tc, pagesIn);
    }
  }

  /**
   * A section built from a directory has the directory's section title; its
   * pages are those `get_pages_in_dir` gives for the parent breadcrumb followed
   * by this directory and its title; it holds one section per sub-directory,
   * in listing order, each built with that same breadcrumb; and an empty list
   * is never stored as `Some([])`.
   */
  lemma FromPathBuilds(d: Dir, parent: Option<seq<(Path, string)>>, config: SiteConfig, tc: TitleCase, pagesIn: PagesInDir)
    requires Nameable(d, config.titleConfig)
    requires FromPath(d, parent, config, tc, pagesIn).Success?
    ensures var s := FromPath(d, parent, config, tc, pagesIn).value; var acc := Crumbs(parent, d.path, s.title);
      && SectionTitle(d.path, d.files, config.titleConfig, tc) == Success(s.title)
      && pagesIn(d.path, acc).Success? && s.pages == GetOrNone(pagesIn(d.path, acc).value)
      && s.pages != Some([]) && s.sections != SomeSections([])
      && d.listing.Listed?
      && |s.sections.GetOr([])| == |DirsOf(d.listing.entries)|
      && forall j :: 0 <= j < |s.sections.GetOr([])| ==>
           Nameable(DirsOf(d.listing.entries)[j], config.titleConfig)
           && FromPath(DirsOf(d.listing.entries)[j], Some(acc), config, tc, pagesIn) == Success(s.sections.GetOr([])[j])
  {
    var s := FromPath(d, parent, config, tc, pagesIn).value;
    var acc := Crumbs(parent, d.path, s.title);
    SubSectionsAreDirs(d.listing.entries, acc, config, tc, pagesIn);
  }

  // ---------------------------------------------------------------- breadcrumbs

  /** `get_pages_in_dir` gives every page the breadcrumb it is handed, as `Page::from_path` does. */
  ghost predicate CarriesBreadcrumb(pagesIn: PagesInDir) {
    forall p: Path, bc: seq<(Path, string)> :: pagesIn(p, bc).Success? ==>
      forall k :: 0 <= k < |pagesIn(p, bc).value| ==> pagesIn(p, bc).value[k].breadcrumb == Links(bc)
  }

  /** Every page of a section has `n` links, and every page one directory further down one more. */
  predicate LinkCounts(s: Section, n: nat)
    decreases s, 1
  {
    (forall k :: 0 <= k < |s.pages.GetOr([])| ==> |s.pages.GetOr([])[k].breadcrumb| == n)
    && match s.sections
       case NoSections => true
       case SomeSections(ss) => LinkCountsAll(ss, n + 1)
  }

  predicate LinkCountsAll(ss: seq<Section>, n: nat)
    decreases ss, 0
  {
    ss != [] ==> LinkCounts(ss[0], n) && LinkCountsAll(ss[1..], n)
  }

  /** Every page's breadcrumb starts with `pre`. */
  predicate StartWith(ps: seq<Page>, pre: seq<Link>) {
    forall k :: 0 <= k < |ps| ==> |pre| <= |ps[k].breadcrumb| && ps[k].breadcrumb[..|pre|] == pre
  }

  lemma StartWithShorter(ps: seq<Page>, pre: seq<Link>, more: seq<Link>)
    requires StartWith(ps, pre + more)
    ensures StartWith(ps, pre)
  {
    forall k | 0 <= k < |ps|
      ensures ps[k].breadcrumb[..|pre|] == pre
    {
      assert ps[k].breadcrumb[..|pre|] == ps[k].breadcrumb[..|pre + more|][..|pre|];
    }
  }

  lemma {:induction false} BreadcrumbsOf(d: Dir, parent: Option<seq<(Path, string)>>, config: SiteConfig, tc: TitleCase, pagesIn: PagesInDir)
    requires Nameable(d, config.titleConfig) && CarriesBreadcrumb(pagesIn)
    requires FromPath(d, parent, config, tc, pagesIn).Success?
    ensures var s := FromPath(d, parent, config, tc, pagesIn).value;
      LinkCounts(s, |parent.GetOr([])| + 1) && StartWith(PagesOf(s), Links(Crumbs(parent, d.path, s.title)))
    decreases d, 1
  {
    var s := FromPath(d, parent, config, tc, pagesIn).value;
    var acc := Crumbs(parent, d.path, s.title);
    FromPathBuilds(d, parent, config, tc, pagesIn);
    var es := d.listing.entries;
    var ss := SubSections(es, acc, config, tc, pagesIn).value;
    BreadcrumbsOfAll(es, acc, config, tc, pagesIn);
    assert s.sections == SectionsOrNone(ss);
    assert ss == s.sections.GetOr([]);
    assert PagesOf(s) == OwnPages(s) + PagesOfAll(ss);
    var own := pagesIn(d.path, acc).value;
    assert OwnPages(s) == own;
    assert forall k :: 0 <= k < |own| ==> own[k].breadcrumb == Links(acc);
    assert StartWith(own, Links(acc)) by {
      forall k | 0 <= k < |own| ensures own[k].breadcrumb[..|Links(acc)|] == Links(acc) {
        assert own[k].breadcrumb == Links(acc);
      }
    }
    StartWithAppend(own, PagesOfAll(ss), Links(acc));
  }

  lemma {:induction false} BreadcrumbsOfAll(es: seq<Entry>, acc: seq<(Path, string)>, config: SiteConfig, tc: TitleCase, pagesIn: PagesInDir)
    requires NameableAll(es, config.titleConfig) && CarriesBreadcrumb(pagesIn)
    requires SubSections(es, acc, config, tc, pagesIn).Success?
    ensures var ss := SubSections(es, acc, config, tc, pagesIn).value;
      LinkCountsAll(ss, |acc| + 1) && StartWith(PagesOfAll(ss), Links(acc))
    decreases es, 0
  {
    if es != [] {
      var ss := SubSections(es, acc, config, tc, pagesIn).value;
      match es[0] {
        case EntryError(_) =>
        case FileEntry(_) =>
          BreadcrumbsOfAll(es[1..], acc, config, tc, pagesIn);
        case DirEntry(sub) =>
          assert sub < es[0];
          SubSectionsDirStep(es, acc, config, tc, pagesIn);
          var s := FromPath(sub, Some(acc), config, tc, pagesIn).value;
          var rest := SubSections(es[1..], acc, config, tc, pagesIn).value;
          BreadcrumbsOf(sub, Some(acc), config, tc, pagesIn);
          BreadcrumbsOfAll(es[1..], acc, config, tc, pagesIn);
          BreadcrumbsOfCons(s, rest, acc, (sub.path, s.title));
      }
    }
  }

  /** A sub-section whose breadcrumbs extend `acc` by one link, in front of siblings whose breadcrumbs start with `acc`. */
  lemma BreadcrumbsOfCons(s: Section, rest: seq<Section>, acc: seq<(Path, string)>, link: (Path, string))
    requires LinkCounts(s, |acc| + 1) && StartWith(PagesOf(s), Links(acc + [link]))
    requires LinkCountsAll(rest, |acc| + 1) && StartWith(PagesOfAll(rest), Links(acc))
    ensures LinkCountsAll([s] + rest, |acc| + 1) && StartWith(PagesOfAll([s] + rest), Links(acc))
  {
    LinksAppend(acc, [link]);
    StartWithShorter(PagesOf(s), Links(acc), Links([link]));
    assert ([s] + rest)[0] == s && ([s] + rest)[1..] == rest;
    StartWithAppend(PagesOf(s), PagesOfAll(rest), Links(acc));
  }

  /** One step of `SubSections` over a directory entry that builds. */
  lemma SubSectionsDirStep(es: seq<Entry>, acc: seq<(Path, string)>, config: SiteConfig, tc: TitleCase, pagesIn: PagesInDir)
    requires NameableAll(es, config.titleConfig) && es != [] && es[0].DirEntry?
    requires SubSections(es, acc, config, tc, pagesIn).Success?
    ensures Nameable(es[0].dir, config.titleConfig) && NameableAll(es[1..], config.titleConfig)
    ensures FromPath(es[0].dir, Some(acc), config, tc, pagesIn).Success?
    ensures SubSections(es[1..], acc, config, tc, pagesIn).Success?
    ensures SubSections(es, acc, config, tc, pagesIn).value ==
      [FromPath(es[0].dir, Some(acc), config, tc, pagesIn).value] + SubSections(es[1..], acc, config, tc, pagesIn).value
  {
  }

  lemma StartWithAppend(a: seq<Page>, b: seq<Page>, pre: seq<Link>)
    requires StartWith(a, pre) && StartWith(b, pre)
    ensures StartWith(a + b, pre)
  {
    forall k | 0 <= k < |a + b|
      ensures |pre| <= |(a + b)[k].breadcrumb| && (a + b)[k].breadcrumb[..|pre|] == pre
    {
      if k < |a| {
        assert (a + b)[k] == a[k];
      } else {
        assert (a + b)[k] == b[k - |a|];
      }
    }
  }

  /**
   * With the root directory built without a parent breadcrumb, a page in a
   * directory `d` levels down has `d + 1` links, and every page's breadcrumb
   * starts with the link to the root, titled with the root section's title.
   */
  lemma RootBreadcrumbs(d: Dir, config: SiteConfig, tc: TitleCase, pagesIn: PagesInDir)
    requires Nameable(d, config.titleConfig) && CarriesBreadcrumb(pagesIn)
    requires FromPath(d, None, config, tc, pagesIn).Success?
    ensures var s := FromPath(d, None, config, tc, pagesIn).value;
      && LinkCounts(s, 1)
      && forall k :: 0 <= k < |PagesOf(s)| ==> |PagesOf(s)[k].breadcrumb| >= 1 && PagesOf(s)[k].breadcrumb[0] == Link(d.path, s.title)
  {
    var s := FromPath(d, None, config, tc, pagesIn).value;
    BreadcrumbsOf(d, None, config, tc, pagesIn);
    assert Links(Crumbs(None, d.path, s.title)) == [Link(d.path, s.title)];
    forall k | 0 <= k < |PagesOf(s)|
      ensures PagesOf(s)[k].breadcrumb[0] == Link(d.path, s.title)
    {
      assert PagesOf(s)[k].breadcrumb[..1][0] == PagesOf(s)[k].breadcrumb[0];
    }
  }
}
