/**
 * Pages (src/content/page.rs, and the older src/page.rs): building a page
 * from its file, whether it is the site's index page, and how pages order.
 */
module Pages {
  import opened Wrappers
  import opened Ast
  import opened Utils
  import opened Titles
  import opened Headings
  import opened Toc
  import opened Search

  /** A breadcrumb link: a directory and its section title. */
  datatype Link = Link(path: Path, title: string)

  /** `SiteConfig`: the site's root directory and how inferred titles are formed. */
  datatype SiteConfig = SiteConfig(root: Path, titleConfig: TitleConfig)

  /**
   * A page file after reading it: its front-matter block (absent, or the
   * outcome of deserialising it), the whole file parsed, and the content after
   * the front matter parsed.
   */
  datatype PageSource = PageSource(front: Option<Result<FrontMatter, Error>>, whole: seq<Node>, content: seq<Node>)

  /** `Page`, without the body and HTML strings. */
  datatype Page = Page(
    path: Path,
    relativePath: Path,
    title: string,
    breadcrumb: seq<Link>,
    tableOfContents: seq<TocEntry>,
    searchIndex: seq<SearchDocument>,
    order: Option<nat>)

  /** `is_index`: the page whose path relative to the root is exactly `index.md`. */
  predicate IsIndex(p: Page) {
    p.relativePath == ["index.md"]
  }

  /** Only `index.md` at the root is the index page; the one of a sub-directory is not. */
  lemma IsIndexOnlyAtRoot(p: Page, dir: string)
    ensures p.relativePath == ["index.md"] ==> IsIndex(p)
    ensures p.relativePath == [dir, "index.md"] ==> !IsIndex(p)
  {
  }

  /** `FrontMatter::parse`: no front-matter block gives the default; a block is deserialised. */
  function ParseFront(front: Option<Result<FrontMatter, Error>>): (r: Result<FrontMatter, Error>)
    ensures front.None? ==> r == Success(DefaultFrontMatter) && r.value.title.None? && r.value.order.None?
    ensures front.Some? ==> r == front.value
  {
    match front
    case None => Success(DefaultFrontMatter)
    case Some(parsed) => parsed
  }

  /** `Path::strip_prefix` on components: the rest of `path` after `root`, when `root` is a prefix of it. */
  function StripPrefix(path: Path, root: Path): (r: Result<Path, Error>)
    ensures r.Success? <==> |root| <= |path| && path[..|root|] == root
    ensures r.Success? ==> root + r.value == path
    ensures r.Failure? ==> r.error == Prefix
  {
    if |root| <= |path| && path[..|root|] == root then Success(path[|root|..]) else Failure(Prefix)
  }

  /** The breadcrumb pairs mapped through `Link::new`. */
  function Links(pairs: seq<(Path, string)>): (ls: seq<Link>)
    ensures |ls| == |pairs|
    ensures forall i :: 0 <= i < |pairs| ==> ls[i] == Link(pairs[i].0, pairs[i].1)
  {
    seq(|pairs|, i requires 0 <= i < |pairs| => Link(pairs[i].0, pairs[i].1))
  }

  lemma LinksAppend(a: seq<(Path, string)>, b: seq<(Path, string)>)
    ensures Links(a + b) == Links(a) + Links(b)
  {
  }

  /** An order of zero is rejected. */
  predicate HasZeroOrder(front: FrontMatter) {
    front.order.Some? && front.order.value == 0
  }

  /** What `from_path` needs to infer a title: a nameable path whenever it falls through to the file name. */
  predicate TitleDefined(path: Path, src: PageSource, config: SiteConfig) {
    match ParseFront(src.front)
    case Failure(_) => true
    case Success(front) => HasZeroOrder(front) || (PageNeedsName(front, src.whole) ==> NameDefined(path, config.titleConfig))
  }

  /**
   * `Page::from_path`: read the file, parse its front matter, reject an order
   * of zero, infer the title from the whole file, make the path relative to
   * the root, and build the table of contents and the search index from the
   * content after the front matter.
   */
  function FromPath(path: Path, read: Result<PageSource, Error>, breadcrumb: seq<(Path, string)>, config: SiteConfig, tc: TitleCase): (r: Result<Page, Error>)
    requires read.Success? ==> TitleDefined(path, read.value, config)
    ensures read.Failure? ==> r == Failure(read.error)
    ensures read.Success? && ParseFront(read.value.front).Failure? ==> r == Failure(ParseFront(read.value.front).error)
    ensures read.Success? && ParseFront(read.value.front).Success? && HasZeroOrder(ParseFront(read.value.front).value) ==>
      r == Failure(ZeroOrder(path))
    ensures r.Success? ==> r.value.order != Some(0)
    ensures r.Success? ==> config.root + r.value.relativePath == path && r.value.path == path
    ensures r.Success? ==> r.value.breadcrumb == Links(breadcrumb)
  {
    match read
    case Failure(e) => Failure(e)
    case Success(src) =>
      match ParseFront(src.front)
      case Failure(e) => Failure(e)
      case Success(front) =>
        if HasZeroOrder(front) then Failure(ZeroOrder(path))
        else
          var title := InferPageTitle(front, path, src.whole, config.titleConfig, tc);
          match StripPrefix(path, config.root)
          case Failure(e) => Failure(e)
          case Success(relative) =>
            Success(Page(path, relative, title, Links(breadcrumb), Forest(HeadingsOf(src.content)),
                         SearchIndexFor(title, src.content), front.order))
  }

  /**
   * A page that is built carries the inferred title, the order of its front
   * matter, a table of contents and a search index of the content after the
   * front matter, and a search index whose first unit is titled with the page
   * title; a path outside the root fails with `Prefix` only after the order check.
   */
  lemma FromPathBuilds(path: Path, src: PageSource, breadcrumb: seq<(Path, string)>, config: SiteConfig, tc: TitleCase)
    requires TitleDefined(path, src, config)
    requires ParseFront(src.front).Success?
    ensures var front := ParseFront(src.front).value; var r := FromPath(path, Success(src), breadcrumb, config, tc);
      && (!HasZeroOrder(front) && StripPrefix(path, config.root).Failure? ==> r == Failure(Prefix))
      && (!HasZeroOrder(front) && StripPrefix(path, config.root).Success? ==>
            r.Success?
            && r.value.title == InferPageTitle(front, path, src.whole, config.titleConfig, tc)
            && r.value.order == front.order
            && r.value.tableOfContents == Forest(HeadingsOf(src.content))
            && r.value.searchIndex == SearchIndexFor(r.value.title, src.content)
            && r.value.searchIndex[0].title == r.value.title
            && |r.value.searchIndex| == 1 + |HeadingsOf(src.content)|)
  {
    var front := ParseFront(src.front).value;
    if !HasZeroOrder(front) && StripPrefix(path, config.root).Success? {
      var title := InferPageTitle(front, path, src.whole, config.titleConfig, tc);
      SearchIndexShape(title, src.content);
    }
  }

  /** An order of zero fails whatever the root: the check comes before the title and the relative path. */
  lemma ZeroOrderFirst(path: Path, src: PageSource, breadcrumb: seq<(Path, string)>, config: SiteConfig, tc: TitleCase)
    requires ParseFront(src.front).Success? && ParseFront(src.front).value.order == Some(0)
    ensures TitleDefined(path, src, config)
    ensures forall root :: FromPath(path, Success(src), breadcrumb, config.(root := root), tc) == Failure(ZeroOrder(path))
  {
  }

  /** The rank a page sorts by: 0 for the index page whatever its order, otherwise its order or 1. */
  function Rank(p: Page): (r: nat)
    ensures IsIndex(p) ==> r == 0
    ensures !IsIndex(p) && p.order.Some? ==> r == p.order.value
    ensures !IsIndex(p) && p.order.None? ==> r == 1
  {
    if IsIndex(p) then 0 else p.order.GetOr(1)
  }

  /** `Ord::cmp`: the comparison of the ranks, reversed. */
  function Cmp(a: Page, b: Page): Ordering {
    CompareNat(Rank(a), Rank(b)).Reverse()
  }

  /** `PartialOrd::partial_cmp` */
  function PartialCmp(a: Page, b: Page): Option<Ordering> {
    Some(Cmp(a, b))
  }

  /**
   * A higher rank orders first; equal ranks are `Equal` whatever the titles or
   * paths; `cmp` is antisymmetric and transitive, and `partial_cmp` always
   * agrees with it.
   */
  lemma CmpMeaning(a: Page, b: Page, c: Page)
    ensures Cmp(a, b) == Less <==> Rank(a) > Rank(b)
    ensures Cmp(a, b) == Equal <==> Rank(a) == Rank(b)
    ensures Cmp(a, b) == Greater <==> Rank(a) < Rank(b)
    ensures Cmp(a, b) == Cmp(b, a).Reverse()
    ensures Cmp(a, b) == Less && Cmp(b, c) == Less ==> Cmp(a, c) == Less
    ensures PartialCmp(a, b) == Some(Cmp(a, b))
  {
  }

  /**
   * Against any page that `from_path` builds and that is not the index page,
   * the index page compares `Greater`: in an ascending sort it comes after
   * every other page.
   */
  lemma IndexComparesGreater(index: Page, p: Page)
    requires IsIndex(index) && !IsIndex(p) && p.order != Some(0)
    ensures Cmp(index, p) == Greater && Cmp(p, index) == Less
  {
  }

  /** Two pages with explicit orders compare by those orders alone, reversed. */
  lemma ExplicitOrdersCompare(a: Page, b: Page)
    requires !IsIndex(a) && !IsIndex(b) && a.order.Some? && b.order.Some?
    ensures a.order.value < b.order.value ==> Cmp(a, b) == Greater
    ensures a.order.value == b.order.value ==> Cmp(a, b) == Equal
  {
  }

  // ---------------------------------------------------------------- the older revision

  /** The older `Page`: no table of contents, search index or order. */
  datatype LegacyPage = LegacyPage(path: Path, relativePath: Path, title: string, breadcrumb: seq<Link>)

  /** What the older `from_path` needs: a nameable path whenever the title falls through to the file name. */
  predicate LegacyTitleDefined(path: Path, src: PageSource, config: SiteConfig) {
    match ParseFront(src.front)
    case Failure(_) => true
    case Success(front) => PageNeedsName(FrontMatter(front.title, None), src.whole) ==> NameDefined(path, config.titleConfig)
  }

  /** The older `Page::from_path`: its front matter has a title only, and there is no order check. */
  function LegacyFromPath(path: Path, read: Result<PageSource, Error>, breadcrumb: seq<(Path, string)>, config: SiteConfig, tc: TitleCase): (r: Result<LegacyPage, Error>)
    requires read.Success? ==> LegacyTitleDefined(path, read.value, config)
    ensures read.Failure? ==> r == Failure(read.error)
    ensures r.Success? ==> config.root + r.value.relativePath == path && r.value.breadcrumb == Links(breadcrumb)
  {
    match read
    case Failure(e) => Failure(e)
    case Success(src) =>
      match ParseFront(src.front)
      case Failure(e) => Failure(e)
      case Success(parsed) =>
        var front := FrontMatter(parsed.title, None);
        var title := InferPageTitle(front, path, src.whole, config.titleConfig, tc);
        match StripPrefix(path, config.root)
        case Failure(e) => Failure(e)
        case Success(relative) => Success(LegacyPage(path, relative, title, Links(breadcrumb)))
  }

  /**
   * Without front matter the older revision uses the default, so the title
   * comes from the document or the name; where the current revision builds a
   * page, the older one builds the same path, title and breadcrumb; and an
   * order of zero, which the current revision rejects, the older one ignores.
   */
  lemma RevisionsAgree(path: Path, src: PageSource, breadcrumb: seq<(Path, string)>, config: SiteConfig, tc: TitleCase)
    requires TitleDefined(path, src, config) && LegacyTitleDefined(path, src, config)
    ensures src.front.None? && LegacyFromPath(path, Success(src), breadcrumb, config, tc).Success? ==>
      LegacyFromPath(path, Success(src), breadcrumb, config, tc).value.title ==
        InferPageTitle(DefaultFrontMatter, path, src.whole, config.titleConfig, tc)
    ensures FromPath(path, Success(src), breadcrumb, config, tc).Success? ==>
      var p := FromPath(path, Success(src), breadcrumb, config, tc).value;
      LegacyFromPath(path, Success(src), breadcrumb, config, tc) == Success(LegacyPage(p.path, p.relativePath, p.title, p.breadcrumb))
    ensures ParseFront(src.front).Success? && HasZeroOrder(ParseFront(src.front).value) && StripPrefix(path, config.root).Success? ==>
      FromPath(path, Success(src), breadcrumb, config, tc).Failure? && LegacyFromPath(path, Success(src), breadcrumb, config, tc).Success?
  {
  }
}
