/**
 * Title resolution (src/content/title.rs and the older src/title.rs): a
 * page's title from its front matter, its first heading or its file name,
 * and a directory's title from its `_dir.yaml`, its `index.md` or its name.
 * Reading and parsing files is not modelled: each file comes in as the
 * outcome of reading and parsing it.
 */
module Titles {
  import opened Wrappers
  import opened Ast
  import opened DocTitle
  import opened Utils

  /** The errors the content walk can end with (src/error.rs). */
  datatype Error = Io | Yaml | Prefix | ZeroOrder(path: Path)

  /** The front matter of a page: an optional title and an optional order. */
  datatype FrontMatter = FrontMatter(title: Option<string>, order: Option<nat>)

  const DefaultFrontMatter := FrontMatter(None, None)

  /** The contents of a `_dir.yaml` sidecar. */
  datatype SectionConfig = SectionConfig(title: Option<string>, order: Option<nat>)

  /**
   * The files of a directory that decide its title: `_dir.yaml` and
   * `index.md`, each absent or the outcome of reading and parsing it.
   */
  datatype DirFiles = DirFiles(sidecar: Option<Result<SectionConfig, Error>>, index: Option<Result<seq<Node>, Error>>)

  /** Whether page-title inference falls through to the file name. */
  predicate PageNeedsName(front: FrontMatter, file: seq<Node>) {
    front.title.None? && DocumentTitle(file).None?
  }

  /** `infer_page_title`: the front-matter title, else the document title, else the name from the path. */
  function InferPageTitle(front: FrontMatter, path: Path, file: seq<Node>, config: TitleConfig, tc: TitleCase): string
    requires PageNeedsName(front, file) ==> NameDefined(path, config)
  {
    match front.title
    case Some(t) => t
    case None =>
      match DocumentTitle(file)
      case Some(t) => t
      case None => NameFromPath(path, config, tc)
  }

  /** The priority of the three sources of a page title. */
  lemma PageTitlePriority(front: FrontMatter, path: Path, file: seq<Node>, config: TitleConfig, tc: TitleCase)
    requires PageNeedsName(front, file) ==> NameDefined(path, config)
    ensures front.title.Some? ==> InferPageTitle(front, path, file, config, tc) == front.title.value
    ensures front.title.None? && DocumentTitle(file).Some? ==>
      InferPageTitle(front, path, file, config, tc) == DocumentTitle(file).value
    ensures PageNeedsName(front, file) ==> InferPageTitle(front, path, file, config, tc) == NameFromPath(path, config, tc)
  {
  }

  /** `title_from_index_page`: no title without an `index.md`, else the first-heading rule on it; a read error propagates. */
  function TitleFromIndexPage(index: Option<Result<seq<Node>, Error>>): (r: Result<Option<string>, Error>)
    ensures index.None? ==> r == Success(None)
    ensures index.Some? && index.value.Failure? ==> r == Failure(index.value.error)
    ensures index.Some? && index.value.Success? ==> r == Success(DocumentTitle(index.value.value))
  {
    match index
    case None => Success(None)
    case Some(Failure(e)) => Failure(e)
    case Some(Success(doc)) => Success(DocumentTitle(doc))
  }

  /** Whether section-title resolution falls through to the directory name. */
  predicate SectionNeedsName(files: DirFiles) {
    !(files.sidecar.Some? && files.sidecar.value.Success? && files.sidecar.value.value.title.Some?)
    && !(files.sidecar.Some? && files.sidecar.value.Failure?)
    && TitleFromIndexPage(files.index) == Success(None)
  }

  /** The fallback shared by both branches of `get_section_title`: the index title, else the name. */
  function IndexOrName(path: Path, index: Option<Result<seq<Node>, Error>>, config: TitleConfig, tc: TitleCase): Result<string, Error>
    requires TitleFromIndexPage(index) == Success(None) ==> NameDefined(path, config)
  {
    match TitleFromIndexPage(index)
    case Failure(e) => Failure(e)
    case Success(Some(t)) => Success(t)
    case Success(None) => Success(NameFromPath(path, config, tc))
  }

  /** `get_section_title` */
  function SectionTitle(path: Path, files: DirFiles, config: TitleConfig, tc: TitleCase): Result<string, Error>
    requires SectionNeedsName(files) ==> NameDefined(path, config)
  {
    match files.sidecar
    case Some(Failure(e)) => Failure(e)
    case Some(Success(cfg)) =>
      if cfg.title.Some? then Success(cfg.title.value) else IndexOrName(path, files.index, config, tc)
    case None => IndexOrName(path, files.index, config, tc)
  }

  /**
   * A sidecar title wins whatever `index.md` holds; a sidecar without a title
   * behaves exactly as no sidecar at all; a sidecar or index error propagates.
   */
  lemma SectionTitlePriority(path: Path, files: DirFiles, config: TitleConfig, tc: TitleCase)
    requires SectionNeedsName(files) ==> NameDefined(path, config)
    ensures files.sidecar.Some? && files.sidecar.value.Success? && files.sidecar.value.value.title.Some? ==>
      forall index :: SectionTitle(path, files.(index := index), config, tc) == Success(files.sidecar.value.value.title.value)
    ensures files.sidecar.Some? && files.sidecar.value.Success? && files.sidecar.value.value.title.None? ==>
      SectionTitle(path, files, config, tc) == SectionTitle(path, files.(sidecar := None), config, tc)
    ensures files.sidecar.Some? && files.sidecar.value.Failure? ==>
      SectionTitle(path, files, config, tc) == Failure(files.sidecar.value.error)
    ensures (files.sidecar.None? || (files.sidecar.value.Success? && files.sidecar.value.value.title.None?)) ==>
      SectionTitle(path, files, config, tc) ==
        match TitleFromIndexPage(files.index)
        case Failure(e) => Failure(e)
        case Success(Some(t)) => Success(t)
        case Success(None) => Success(NameFromPath(path, config, tc))
  {
  }

  /** An `index.md` whose first heading is an h1 names its directory, when the sidecar gives no title. */
  lemma IndexTitleNamesSection(path: Path, doc: seq<Node>, config: TitleConfig, tc: TitleCase, t: string)
    requires DocumentTitle(doc) == Some(t)
    ensures SectionTitle(path, DirFiles(None, Some(Success(doc))), config, tc) == Success(t)
    ensures SectionTitle(path, DirFiles(Some(Success(SectionConfig(None, None))), Some(Success(doc))), config, tc) == Success(t)
  {
  }

  // ---------------------------------------------------------------- the older revision

  /**
   * The older `title_from_index_page` as written: it checks that `index.md`
   * exists but then reads the directory's own path; `dirRead` is the outcome
   * of reading the directory as a file.
   */
  function TitleFromIndexPageAsWritten(index: Option<Result<seq<Node>, Error>>, dirRead: Result<seq<Node>, Error>): (r: Result<Option<string>, Error>)
    ensures index.None? ==> r == Success(None)
    ensures index.Some? ==> r == (if dirRead.Failure? then Failure(dirRead.error) else Success(DocumentTitle(dirRead.value)))
  {
    if index.Some? then
      match dirRead
      case Failure(e) => Failure(e)
      case Success(doc) => Success(DocumentTitle(doc))
    else Success(None)
  }

  /** Whether, as written, section-title resolution falls through to the directory name. */
  predicate SectionNeedsNameAsWritten(files: DirFiles, dirRead: Result<seq<Node>, Error>) {
    !(files.sidecar.Some? && files.sidecar.value.Success? && files.sidecar.value.value.title.Some?)
    && !(files.sidecar.Some? && files.sidecar.value.Failure?)
    && TitleFromIndexPageAsWritten(files.index, dirRead) == Success(None)
  }

  /** The older fallback as written: the title from the directory read, else the name. */
  function IndexOrNameAsWritten(path: Path, index: Option<Result<seq<Node>, Error>>, dirRead: Result<seq<Node>, Error>, config: TitleConfig, tc: TitleCase): Result<string, Error>
    requires TitleFromIndexPageAsWritten(index, dirRead) == Success(None) ==> NameDefined(path, config)
  {
    match TitleFromIndexPageAsWritten(index, dirRead)
    case Failure(e) => Failure(e)
    case Success(Some(t)) => Success(t)
    case Success(None) => Success(NameFromPath(path, config, tc))
  }

  /** The older `get_section_title` as written, with the directory read in place of `index.md`. */
  function SectionTitleAsWritten(path: Path, files: DirFiles, dirRead: Result<seq<Node>, Error>, config: TitleConfig, tc: TitleCase): Result<string, Error>
    requires SectionNeedsNameAsWritten(files, dirRead) ==> NameDefined(path, config)
  {
    match files.sidecar
    case Some(Failure(e)) => Failure(e)
    case Some(Success(cfg)) =>
      if cfg.title.Some? then Success(cfg.title.value) else IndexOrNameAsWritten(path, files.index, dirRead, config, tc)
    case None => IndexOrNameAsWritten(path, files.index, dirRead, config, tc)
  }

  /**
   * Reading a directory as a file fails, so as written a directory with an
   * `index.md` and no sidecar title makes the whole section fail, where the
   * corrected reading of `index.md` gives that page's h1.
   */
  lemma AsWrittenReadsDirectory(path: Path, doc: seq<Node>, config: TitleConfig, tc: TitleCase, t: string)
    requires DocumentTitle(doc) == Some(t)
    ensures SectionTitleAsWritten(path, DirFiles(None, Some(Success(doc))), Failure(Io), config, tc) == Failure(Io)
    ensures SectionTitle(path, DirFiles(None, Some(Success(doc))), config, tc) == Success(t)
  {
  }

  /** Where the directory read and `index.md` agree, the two revisions agree. */
  lemma RevisionsAgreeOnSameContents(path: Path, files: DirFiles, config: TitleConfig, tc: TitleCase)
    requires files.index.Some?
    requires SectionNeedsName(files) ==> NameDefined(path, config)
    ensures SectionTitleAsWritten(path, files, files.index.value, config, tc) == SectionTitle(path, files, config, tc)
  {
  }
}
