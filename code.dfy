/**
 * Code blocks (src/md/markdown_it_md/code.rs and the older src/md/code.rs):
 * the info-string metadata of a fence, how a code block renders, and the core
 * rule that turns every indented block and fence into a highlighted block.
 */
module CodeBlocks {
  import opened Wrappers
  import opened Strings
  import opened Ast

  // ---------------------------------------------------------------- info strings

  /**
   * The `file` candidate of an info string as the source computes it: the
   * WHOLE string split on `=` must give exactly two parts, the left one
   * trimming to `file`; the value is the right one trimmed, quotes stripped.
   */
  function FileOf(s: string): Option<string> {
    var parts := Split(s, '=');
    if |parts| == 2 && Trim(parts[0]) == "file" then Some(TrimMatches(Trim(parts[1]), '"')) else None
  }

  /**
   * `Metadata::parse`: the first whitespace-separated word is the language;
   * `showLineNumbers` among the later words turns line numbers on; the file
   * candidate is taken as soon as there is a second word.
   */
  function MetadataOf(s: string): Metadata {
    var ws := Words(s);
    if ws == [] then Metadata(None, false, None)
    else Metadata(Some(ws[0]), "showLineNumbers" in ws[1..], if |ws| >= 2 then FileOf(s) else None)
  }

  /** `Metadata::parse` as the token loop it is. */
  method ParseMetadata(s: string) returns (metadata: Metadata)
    ensures metadata == MetadataOf(s)
  {
    metadata := Metadata(None, false, None);
    var parts := Words(s);
    var start := 0;
    if |parts| > 0 {
      metadata := metadata.(language := Some(parts[0]));
      start := 1;
    }
    for i := start to |parts|
      invariant metadata.language == if parts == [] then None else Some(parts[0])
      invariant metadata.showLineNumbers <==> "showLineNumbers" in parts[start..i]
      invariant metadata.file == if i >= 2 then FileOf(s) else None
    {
      assert parts[start..i + 1] == parts[start..i] + [parts[i]];
      if parts[i] == "showLineNumbers" {
        metadata := metadata.(showLineNumbers := true);
      }
      var file := FileOf(s);
      if file.Some? {
        metadata := metadata.(file := file);
      }
    }
    assert parts == [] || parts[start..|parts|] == parts[1..];
  }

  lemma {:induction false} WordsEmpty(s: string)
    ensures Words(s) == [] <==> forall i :: 0 <= i < |s| ==> IsWhitespace(s[i])
  {
    var t := TrimStart(s);
    TrimStartSuffix(s);
    if t != [] {
      assert s[|s| - |t|] == t[0];
    }
  }

  /**
   * An info string without a word has no language, no line numbers and no
   * file; otherwise the language is its first word, non-empty and without
   * whitespace.
   */
  lemma LanguageIsFirstWord(s: string)
    ensures MetadataOf(s).language.None? <==> forall i :: 0 <= i < |s| ==> IsWhitespace(s[i])
    ensures MetadataOf(s).language.None? ==> MetadataOf(s) == DefaultMetadata
    ensures MetadataOf(s).language.Some? ==>
      var w := MetadataOf(s).language.value; w != [] && NoWhitespace(w) && w == Words(s)[0]
  {
    WordsEmpty(s);
  }

  /** A file is only ever found when there is a second word and the whole string is `file = value`. */
  lemma FileNeedsSecondWord(s: string)
    ensures MetadataOf(s).file.Some? ==>
      |Words(s)| >= 2 && |Split(s, '=')| == 2 && Trim(Split(s, '=')[0]) == "file"
      && MetadataOf(s).file.value == TrimMatches(Trim(Split(s, '=')[1]), '"')
    ensures |Words(s)| <= 1 ==> MetadataOf(s).file.None?
  {
  }

  /**
   * A file name found is the right-hand side of the one `=`: it holds no `=`,
   * and neither starts nor ends with a quote.
   */
  lemma FileValueShape(s: string)
    ensures var f := FileOf(s); f.Some? ==>
      && '=' !in f.value && (f.value == [] || (f.value[0] != '"' && f.value[|f.value| - 1] != '"'))
      && |Split(s, '=')| == 2 && Trim(Split(s, '=')[0]) == "file"
  {
    var parts := Split(s, '=');
    if |parts| == 2 {
      TrimInside(parts[1]);
      TrimMatchesInside(Trim(parts[1]), '"');
      assert '=' !in parts[1];
    }
  }

  /**
   * As written, a language followed by `file=NAME` yields no file: the whole
   * string splits into `LANG file` and `NAME`, and `LANG file` is not `file`
   * (for instance `rust file=main.rs`).
   */
  lemma FileAfterLanguageIgnored(lang: string, name: string)
    requires lang != [] && NoWhitespace(lang) && '=' !in lang && '=' !in name
    ensures MetadataOf(lang + " file=" + name).file == None
  {
    var key := lang + " file";
    assert lang + " file=" + name == key + ['='] + name;
    assert '=' !in key;
    SplitTwo(key, name, '=');
    assert TrimStart(key) == key;
    assert TrimEnd(key) == key;
    assert |Trim(key)| > |"file"|;
  }

  /** The last candidate that is present, if any. */
  function LastSome<T>(xs: seq<Option<T>>): (r: Option<T>)
    ensures r.Some? ==> r in xs
    ensures r.None? <==> forall k :: 0 <= k < |xs| ==> xs[k].None?
  {
    if xs == [] then None
    else if xs[|xs| - 1].Some? then xs[|xs| - 1]
    else LastSome(xs[..|xs| - 1])
  }

  /** The file candidate of each word. */
  function FileCandidates(ws: seq<string>): (fs: seq<Option<string>>)
    ensures |fs| == |ws| && forall k :: 0 <= k < |ws| ==> fs[k] == FileOf(ws[k])
  {
    seq(|ws|, k requires 0 <= k < |ws| => FileOf(ws[k]))
  }

  /** `Metadata::parse` with the split done on the current word instead of the whole string. */
  function MetadataPerWord(s: string): Metadata {
    var ws := Words(s);
    if ws == [] then Metadata(None, false, None)
    else Metadata(Some(ws[0]), "showLineNumbers" in ws[1..], LastSome(FileCandidates(ws[1..])))
  }

  /** With the split per word, a file found is the candidate of some word after the language. */
  lemma PerWordFileFromWord(s: string)
    ensures var m := MetadataPerWord(s); m.file.Some? ==>
      exists k :: 1 <= k < |Words(s)| && m.file == FileOf(Words(s)[k])
  {
    var ws := Words(s);
    var m := MetadataPerWord(s);
    if m.file.Some? {
      var fs := FileCandidates(ws[1..]);
      var j :| 0 <= j < |fs| && fs[j] == m.file;
      assert ws[1..][j] == ws[j + 1];
    }
  }

  /** The last present candidate is the one after which none is present. */
  lemma {:induction false} LastSomeIsLast<T>(xs: seq<Option<T>>, k: nat)
    requires k < |xs| && xs[k].Some?
    requires forall j :: k < j < |xs| ==> xs[j].None?
    ensures LastSome(xs) == xs[k]
  {
    if k < |xs| - 1 {
      LastSomeIsLast(xs[..|xs| - 1], k);
    }
  }

  /** With the split per word, the last `file=` word after the language names the file. */
  lemma PerWordFindsFile(s: string, k: nat)
    requires 1 <= k < |Words(s)| && FileOf(Words(s)[k]).Some?
    requires forall j :: k < j < |Words(s)| ==> FileOf(Words(s)[j]).None?
    ensures MetadataPerWord(s).file == FileOf(Words(s)[k])
  {
    LastFileCandidate(Words(s), k);
  }

  lemma LastFileCandidate(ws: seq<string>, k: nat)
    requires 1 <= k < |ws| && FileOf(ws[k]).Some?
    requires forall j :: k < j < |ws| ==> FileOf(ws[j]).None?
    ensures LastSome(FileCandidates(ws[1..])) == FileOf(ws[k])
  {
    var fs := FileCandidates(ws[1..]);
    assert fs[k - 1] == FileOf(ws[1..][k - 1]) && ws[1..][k - 1] == ws[k];
    forall j | k - 1 < j < |fs| ensures fs[j].None? {
      assert fs[j] == FileOf(ws[1..][j]) && ws[1..][j] == ws[j + 1];
    }
    LastSomeIsLast(fs, k - 1);
  }

  /**
   * The corrected parse finds the file after a language, and agrees with the
   * written one on the language and on line numbers.
   */
  lemma PerWordFindsFileAfterLanguage(lang: string, name: string)
    requires lang != [] && NoWhitespace(lang) && NoWhitespace(name) && '=' !in name
    ensures MetadataPerWord(lang + " file=" + name) == Metadata(Some(lang), false, Some(TrimMatches(name, '"')))
  {
    var w := "file=" + name;
    LanguageThenFileWords(lang, name);
    assert Words(lang + " file=" + name)[1..] == [w];
    assert "showLineNumbers" != w by { assert "showLineNumbers"[4] != w[4]; }
    assert FileCandidates([w]) == [FileOf(w)];
  }

  lemma LanguageThenFileWords(lang: string, name: string)
    requires lang != [] && NoWhitespace(lang) && NoWhitespace(name) && '=' !in name
    ensures var w := "file=" + name;
      Words(lang + " file=" + name) == [lang, w] && FileOf(w) == Some(TrimMatches(name, '"'))
  {
    var w := "file=" + name;
    FileWord(name);
    assert lang + " file=" + name == lang + " " + w;
    WordsCons(lang, w);
    WordsSingle(w);
  }

  /** `file=NAME` is one word, and its own file candidate is NAME without quotes. */
  lemma FileWord(name: string)
    requires NoWhitespace(name) && '=' !in name
    ensures var w := "file=" + name; w != [] && NoWhitespace(w) && FileOf(w) == Some(TrimMatches(name, '"'))
  {
    var w := "file=" + name;
    assert w == "file" + ['='] + name;
    forall i | 0 <= i < |w| ensures !IsWhitespace(w[i]) {
      if i >= 5 { assert w[i] == name[i - 5]; }
    }
    SplitTwo("file", name, '=');
    TrimNoWhitespace(name);
    TrimNoWhitespace("file");
  }

  lemma PerWordAgrees(s: string)
    ensures MetadataPerWord(s).language == MetadataOf(s).language
    ensures MetadataPerWord(s).showLineNumbers == MetadataOf(s).showLineNumbers
  {
  }

  // ---------------------------------------------------------------- rendering

  /** The syntax highlighter: language and code to HTML, or an error message. */
  type Highlight = (string, string) -> Result<string, string>

  /** The highlighter's output, or its error message in its place. */
  function Highlighted(hl: Highlight, lang: string, content: string): string {
    match hl(lang, content)
    case Success(html) => html
    case Failure(e) => e
  }

  /**
   * `FancyCodeBlock::render`: a `pre` of class `language-<lang>` around a
   * `code` element holding the highlighted code; the language defaults to `text`.
   */
  function RenderCode(meta: Metadata, content: string, hl: Highlight): (out: Html)
    ensures var lang := if meta.language.Some? then meta.language.value else "text";
      && out.Element? && out.tag == "pre" && Attr(out.attrs, "class") == Some("language-" + lang)
      && |out.body| == 1 && out.body[0].Element? && out.body[0].tag == "code" && out.body[0].attrs == []
      && (hl(lang, content).Success? ==> out.body[0].body == [RawOut(hl(lang, content).value)])
      && (hl(lang, content).Failure? ==> out.body[0].body == [RawOut(hl(lang, content).error)])
  {
    var lang := meta.language.GetOr("text");
    Element("pre", [("class", "language-" + lang)], [Element("code", [], [RawOut(Highlighted(hl, lang, content))])])
  }

  /** The older render: the language is the raw info string, or `text` when there is none. */
  function RenderCodeRaw(meta: Option<string>, content: string, hl: Highlight): (out: Html)
    ensures var lang := if meta.Some? then meta.value else "text";
      && out.Element? && out.tag == "pre" && Attr(out.attrs, "class") == Some("language-" + lang)
      && |out.body| == 1 && out.body[0].Element? && out.body[0].tag == "code" && out.body[0].attrs == []
      && (hl(lang, content).Success? ==> out.body[0].body == [RawOut(hl(lang, content).value)])
      && (hl(lang, content).Failure? ==> out.body[0].body == [RawOut(hl(lang, content).error)])
  {
    var lang := meta.GetOr("text");
    Element("pre", [("class", "language-" + lang)], [Element("code", [], [RawOut(Highlighted(hl, lang, content))])])
  }

  /**
   * An empty fence info string: the current revision falls back to `text`,
   * the older one keeps the empty language.
   */
  lemma EmptyInfoLanguage(content: string, hl: Highlight)
    ensures Attr(RenderCode(MetadataOf(""), content, hl).attrs, "class") == Some("language-text")
    ensures Attr(RenderCodeRaw(Some(""), content, hl).attrs, "class") == Some("language-")
  {
    assert Words("") == [];
    assert "language-" + "text" == "language-text";
    assert "language-" + "" == "language-";
  }

  // ---------------------------------------------------------------- the core rule

  /** Whether a tree still holds an indented block or a fence. */
  predicate HasRawCode(n: Node)
    decreases n, 1
  {
    match n
    case CodeBlock(_) => true
    case CodeFence(_, _) => true
    case FancyHeading(_, kids) => AnyRawCode(kids)
    case SetextHeading(_, kids) => AnyRawCode(kids)
    case Para(kids) => AnyRawCode(kids)
    case Image(_, _, kids) => AnyRawCode(kids)
    case Other(kids) => AnyRawCode(kids)
    case _ => false
  }

  predicate AnyRawCode(ns: seq<Node>)
    decreases ns, 0
  {
    ns != [] && (HasRawCode(ns[0]) || AnyRawCode(ns[1..]))
  }

  /** The contents of all code blocks of a tree, before or after the rule, in document order. */
  function CodeContents(n: Node): seq<string>
    decreases n, 1
  {
    match n
    case CodeBlock(c) => [c]
    case CodeFence(_, c) => [c]
    case FancyCode(_, c) => [c]
    case FancyCodeRaw(_, c) => [c]
    case FancyHeading(_, kids) => CodeContentsAll(kids)
    case SetextHeading(_, kids) => CodeContentsAll(kids)
    case Para(kids) => CodeContentsAll(kids)
    case Image(_, _, kids) => CodeContentsAll(kids)
    case Other(kids) => CodeContentsAll(kids)
    case _ => []
  }

  function CodeContentsAll(ns: seq<Node>): seq<string>
    decreases ns, 0
  {
    if ns == [] then [] else CodeContents(ns[0]) + CodeContentsAll(ns[1..])
  }

  /**
   * `FancyCodeBlockRule::run`: every indented block becomes a highlighted block
   * with the default metadata, every fence one with its parsed info string;
   * all other nodes stay and their children are rewritten the same way.
   */
  function ApplyCodeRule(n: Node): Node
    decreases n, 1
  {
    match n
    case CodeBlock(c) => FancyCode(DefaultMetadata, c)
    case CodeFence(info, c) => FancyCode(MetadataOf(info), c)
    case FancyHeading(l, kids) => FancyHeading(l, ApplyCodeRuleAll(kids))
    case SetextHeading(l, kids) => SetextHeading(l, ApplyCodeRuleAll(kids))
    case Para(kids) => Para(ApplyCodeRuleAll(kids))
    case Image(u, t, kids) => Image(u, t, ApplyCodeRuleAll(kids))
    case Other(kids) => Other(ApplyCodeRuleAll(kids))
    case _ => n
  }

  function ApplyCodeRuleAll(ns: seq<Node>): (r: seq<Node>)
    ensures |r| == |ns|
    decreases ns, 0
  {
    if ns == [] then [] else [ApplyCodeRule(ns[0])] + ApplyCodeRuleAll(ns[1..])
  }

  /** The older rule: the raw info string is kept as the metadata; an indented block has none. */
  function ApplyCodeRuleRaw(n: Node): Node
    decreases n, 1
  {
    match n
    case CodeBlock(c) => FancyCodeRaw(None, c)
    case CodeFence(info, c) => FancyCodeRaw(Some(info), c)
    case FancyHeading(l, kids) => FancyHeading(l, ApplyCodeRuleRawAll(kids))
    case SetextHeading(l, kids) => SetextHeading(l, ApplyCodeRuleRawAll(kids))
    case Para(kids) => Para(ApplyCodeRuleRawAll(kids))
    case Image(u, t, kids) => Image(u, t, ApplyCodeRuleRawAll(kids))
    case Other(kids) => Other(ApplyCodeRuleRawAll(kids))
    case _ => n
  }

  function ApplyCodeRuleRawAll(ns: seq<Node>): (r: seq<Node>)
    ensures |r| == |ns|
    decreases ns, 0
  {
    if ns == [] then [] else [ApplyCodeRuleRaw(ns[0])] + ApplyCodeRuleRawAll(ns[1..])
  }

  /** After the rule no indented block or fence is left, and every code content is kept, in order. */
  lemma CodeRuleReplaces(n: Node)
    ensures !HasRawCode(ApplyCodeRule(n))
    ensures CodeContents(ApplyCodeRule(n)) == CodeContents(n)
    ensures !HasRawCode(ApplyCodeRuleRaw(n))
    ensures CodeContents(ApplyCodeRuleRaw(n)) == CodeContents(n)
  {
    FancyRuleReplaces(n);
    RawRuleReplaces(n);
  }

  lemma {:induction false} FancyRuleReplaces(n: Node)
    ensures !HasRawCode(ApplyCodeRule(n))
    ensures CodeContents(ApplyCodeRule(n)) == CodeContents(n)
    decreases n, 1
  {
    match n {
      case FancyHeading(_, kids) => FancyRuleReplacesAll(kids);
      case SetextHeading(_, kids) => FancyRuleReplacesAll(kids);
      case Para(kids) => FancyRuleReplacesAll(kids);
      case Image(_, _, kids) => FancyRuleReplacesAll(kids);
      case Other(kids) => FancyRuleReplacesAll(kids);
      case _ =>
    }
  }

  lemma {:induction false} FancyRuleReplacesAll(ns: seq<Node>)
    ensures !AnyRawCode(ApplyCodeRuleAll(ns))
    ensures CodeContentsAll(ApplyCodeRuleAll(ns)) == CodeContentsAll(ns)
    decreases ns, 0
  {
    if ns != [] {
      FancyRuleReplaces(ns[0]);
      FancyRuleReplacesAll(ns[1..]);
      assert ApplyCodeRuleAll(ns)[1..] == ApplyCodeRuleAll(ns[1..]);
    }
  }

  lemma {:induction false} RawRuleReplaces(n: Node)
    ensures !HasRawCode(ApplyCodeRuleRaw(n))
    ensures CodeContents(ApplyCodeRuleRaw(n)) == CodeContents(n)
    decreases n, 1
  {
    match n {
      case FancyHeading(_, kids) => RawRuleReplacesAll(kids);
      case SetextHeading(_, kids) => RawRuleReplacesAll(kids);
      case Para(kids) => RawRuleReplacesAll(kids);
      case Image(_, _, kids) => RawRuleReplacesAll(kids);
      case Other(kids) => RawRuleReplacesAll(kids);
      case _ =>
    }
  }

  lemma {:induction false} RawRuleReplacesAll(ns: seq<Node>)
    ensures !AnyRawCode(ApplyCodeRuleRawAll(ns))
    ensures CodeContentsAll(ApplyCodeRuleRawAll(ns)) == CodeContentsAll(ns)
    decreases ns, 0
  {
    if ns != [] {
      RawRuleReplaces(ns[0]);
      RawRuleReplacesAll(ns[1..]);
      assert ApplyCodeRuleRawAll(ns)[1..] == ApplyCodeRuleRawAll(ns[1..]);
    }
  }

  /** Only code nodes are touched: a tree without them comes back unchanged, so the rule is idempotent. */
  lemma {:induction false} CodeRuleOnlyCode(n: Node)
    ensures !HasRawCode(n) ==> ApplyCodeRule(n) == n && ApplyCodeRuleRaw(n) == n
    decreases n, 1
  {
    match n {
      case FancyHeading(_, kids) => CodeRuleOnlyCodeAll(kids);
      case SetextHeading(_, kids) => CodeRuleOnlyCodeAll(kids);
      case Para(kids) => CodeRuleOnlyCodeAll(kids);
      case Image(_, _, kids) => CodeRuleOnlyCodeAll(kids);
      case Other(kids) => CodeRuleOnlyCodeAll(kids);
      case _ =>
    }
  }

  lemma {:induction false} CodeRuleOnlyCodeAll(ns: seq<Node>)
    ensures !AnyRawCode(ns) ==> ApplyCodeRuleAll(ns) == ns && ApplyCodeRuleRawAll(ns) == ns
    decreases ns, 0
  {
    if ns != [] {
      CodeRuleOnlyCode(ns[0]);
      CodeRuleOnlyCodeAll(ns[1..]);
    }
  }

  lemma CodeRuleIdempotent(n: Node)
    ensures ApplyCodeRule(ApplyCodeRule(n)) == ApplyCodeRule(n)
  {
    CodeRuleReplaces(n);
    CodeRuleOnlyCode(ApplyCodeRule(n));
  }

  /** An indented block gets the default metadata; a fence keeps its content and gets its parsed info string. */
  lemma CodeRuleLeaves(c: string, info: string)
    ensures ApplyCodeRule(CodeBlock(c)) == FancyCode(Metadata(None, false, None), c)
    ensures ApplyCodeRule(CodeFence(info, c)) == FancyCode(MetadataOf(info), c)
    ensures ApplyCodeRuleRaw(CodeFence(info, c)) == FancyCodeRaw(Some(info), c)
  {
  }
}
