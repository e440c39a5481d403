/**
 * The Markdown node tree the pipeline works on. One datatype stands for the
 * parser's nodes (markdown-it's, and comrak's in the oldest revision), with
 * only the kinds the core distinguishes; everything else is `Other`.
 */
module Ast {
  import opened Wrappers

  /** Code-fence metadata parsed from an info string. */
  datatype Metadata = Metadata(language: Option<string>, showLineNumbers: bool, file: Option<string>)

  /** `Metadata::default()`: no language, no line numbers, no file name. */
  const DefaultMetadata := Metadata(None, false, None)

  datatype Node =
    | FancyHeading(level: nat, kids: seq<Node>)        // an ATX heading
    | SetextHeading(level: nat, kids: seq<Node>)       // a setext heading (text underlined with `=` or `-`)
    | Text(text: string)                               // a text run
    | Code(literal: string)                            // inline code
    | Break                                            // a soft or hard line break
    | Para(kids: seq<Node>)                            // a paragraph
    | CodeBlock(content: string)                       // an indented code block
    | CodeFence(info: string, content: string)         // a fenced code block and its info string
    | Image(url: string, title: Option<string>, kids: seq<Node>)
    | Inline(src: string)                              // unparsed inline content (InlineRoot)
    | FancyCode(meta: Metadata, content: string)       // a code block after the code rule
    | FancyCodeRaw(rawMeta: Option<string>, content: string) // the same, older revision
    | Other(kids: seq<Node>)                           // any other node

  /** Rendered output: elements with attribute lists, the node's own children, and text. */
  datatype Html =
    | Element(tag: string, attrs: seq<(string, string)>, body: seq<Html>)
    | Children(nodes: seq<Node>)
    | TextOut(text: string)                            // escaped text
    | RawOut(html: string)                             // text written as is

  /** The value of the first attribute called `name`. */
  function Attr(attrs: seq<(string, string)>, name: string): Option<string> {
    if attrs == [] then None
    else if attrs[0].0 == name then Some(attrs[0].1)
    else Attr(attrs[1..], name)
  }

  /** The children of a node; leaves have none. */
  function Kids(n: Node): seq<Node> {
    match n
    case FancyHeading(_, kids) => kids
    case SetextHeading(_, kids) => kids
    case Para(kids) => kids
    case Image(_, _, kids) => kids
    case Other(kids) => kids
    case _ => []
  }

  /** A heading as markdown-it's plugins see it: `FancyHeading`, the ATX kind only. */
  predicate IsHeading(n: Node) {
    n.FancyHeading?
  }

  /** markdown-it's `collect_text`: the text of every Text and inline-code node below `n`, in order. */
  function CollectText(n: Node): string
    decreases n, 1
  {
    match n
    case Text(t) => t
    case Code(lit) => lit
    case FancyHeading(_, kids) => CollectTexts(kids)
    case SetextHeading(_, kids) => CollectTexts(kids)
    case Para(kids) => CollectTexts(kids)
    case Image(_, _, kids) => CollectTexts(kids)
    case Other(kids) => CollectTexts(kids)
    case _ => ""
  }

  function CollectTexts(ns: seq<Node>): string
    decreases ns, 0
  {
    if ns == [] then "" else CollectText(ns[0]) + CollectTexts(ns[1..])
  }

  lemma {:induction false} CollectTextsAppend(a: seq<Node>, b: seq<Node>)
    ensures CollectTexts(a + b) == CollectTexts(a) + CollectTexts(b)
  {
    if a != [] {
      assert (a + b)[1..] == a[1..] + b;
      CollectTextsAppend(a[1..], b);
    } else {
      assert a + b == b;
    }
  }
}
