/**
 * The document title: the text of the first top-level heading, provided that
 * heading is an h1 (src/md/markdown_it_md/title.rs, src/md/title.rs, and the
 * comrak-based src/md.rs with its own text flattening).
 */
module DocTitle {
  import opened Wrappers
  import opened Seqs
  import opened Ast

  /**
   * The nodes a revision counts as headings: markdown-it's `FancyHeading` is
   * the ATX kind only, while comrak's `NodeValue::Heading` is a setext
   * heading as well.
   */
  predicate Counts(n: Node, comrak: bool) {
    IsHeading(n) || (comrak && n.SetextHeading?)
  }

  /** The position of the first top-level heading of any level, as the revision counts headings. */
  function FirstHeading(ns: seq<Node>, comrak: bool): (r: Option<nat>)
    ensures r.Some? ==> r.value < |ns| && Counts(ns[r.value], comrak)
    ensures r.Some? ==> forall k :: 0 <= k < r.value ==> !Counts(ns[k], comrak)
    ensures r.None? ==> forall k :: 0 <= k < |ns| ==> !Counts(ns[k], comrak)
  {
    if ns == [] then None
    else if Counts(ns[0], comrak) then Some(0)
    else match FirstHeading(ns[1..], comrak)
      case None => None
      case Some(i) => Some(i + 1)
  }

  lemma {:induction false} FirstHeadingIs(ns: seq<Node>, comrak: bool, i: nat)
    requires i < |ns| && Counts(ns[i], comrak) && forall k :: 0 <= k < i ==> !Counts(ns[k], comrak)
    ensures FirstHeading(ns, comrak) == Some(i)
  {
    if i > 0 {
      FirstHeadingIs(ns[1..], comrak, i - 1);
    }
  }

  /** The title: the first heading's text when that heading is an h1, otherwise nothing. */
  function DocumentTitle(ns: seq<Node>): Option<string> {
    match FirstHeading(ns, false)
    case None => None
    case Some(i) => if ns[i].level == 1 then Some(CollectText(ns[i])) else None
  }

  /** `get_document_title`: count headings and return at the first one if it is an h1. */
  method GetDocumentTitle(ns: seq<Node>) returns (title: Option<string>)
    ensures title == DocumentTitle(ns)
  {
    var numHeaders := 0;
    for i := 0 to |ns|
      invariant numHeaders == 0 <==> forall k :: 0 <= k < i ==> !IsHeading(ns[k])
      invariant numHeaders > 0 ==> DocumentTitle(ns) == None
    {
      var node := ns[i];
      if node.FancyHeading? {
        numHeaders := numHeaders + 1;
        if numHeaders == 1 {
          FirstHeadingIs(ns, false, i);
        }
        if numHeaders == 1 && node.level == 1 {
          return Some(CollectText(node));
        }
      }
    }
    return None;
  }

  /** `Some` exactly when there is a heading, the first one is an h1, and then it is that heading's text. */
  lemma TitleIff(ns: seq<Node>)
    ensures DocumentTitle(ns).Some? <==>
      exists i :: 0 <= i < |ns| && IsHeading(ns[i]) && ns[i].level == 1 && forall k :: 0 <= k < i ==> !IsHeading(ns[k])
    ensures forall i :: 0 <= i < |ns| && IsHeading(ns[i]) && ns[i].level == 1 && (forall k :: 0 <= k < i ==> !IsHeading(ns[k])) ==>
      DocumentTitle(ns) == Some(CollectText(ns[i]))
  {
    forall i | 0 <= i < |ns| && IsHeading(ns[i]) && (forall k :: 0 <= k < i ==> !IsHeading(ns[k]))
      ensures FirstHeading(ns, false) == Some(i)
    {
      FirstHeadingIs(ns, false, i);
    }
  }

  /** A first heading below level 1 hides any h1 that follows it. */
  lemma FirstH2HidesH1(ns: seq<Node>, i: nat)
    requires i < |ns| && IsHeading(ns[i]) && ns[i].level >= 2
    requires forall k :: 0 <= k < i ==> !IsHeading(ns[k])
    ensures DocumentTitle(ns) == None
  {
    FirstHeadingIs(ns, false, i);
  }

  /** Nodes that are not headings in front of the document change nothing. */
  lemma {:induction false} LeadingTextIgnored(pre: seq<Node>, ns: seq<Node>)
    requires forall k :: 0 <= k < |pre| ==> !IsHeading(pre[k])
    ensures DocumentTitle(pre + ns) == DocumentTitle(ns)
  {
    if pre != [] {
      assert (pre + ns)[1..] == pre[1..] + ns;
      LeadingTextIgnored(pre[1..], ns);
      match FirstHeading(ns, false) {
        case None =>
        case Some(i) => assert (pre + ns)[|pre| + i] == ns[i];
      }
    } else {
      assert pre + ns == ns;
    }
  }

  // ---------------------------------------------------------------- the comrak revision

  /** `get_header_text`: text and code literals verbatim, a line break as one space, anything else through its children. */
  function HeaderText(n: Node): string
    decreases n, 1
  {
    match n
    case Text(t) => t
    case Code(lit) => lit
    case Break => " "
    case FancyHeading(_, kids) => HeaderTexts(kids)
    case SetextHeading(_, kids) => HeaderTexts(kids)
    case Para(kids) => HeaderTexts(kids)
    case Image(_, _, kids) => HeaderTexts(kids)
    case Other(kids) => HeaderTexts(kids)
    case _ => ""
  }

  function HeaderTexts(ns: seq<Node>): string
    decreases ns, 0
  {
    if ns == [] then "" else HeaderText(ns[0]) + HeaderTexts(ns[1..])
  }

  lemma {:induction false} HeaderTextsSnoc(ns: seq<Node>, n: Node)
    ensures HeaderTexts(ns + [n]) == HeaderTexts(ns) + HeaderText(n)
  {
    if ns == [] {
      assert [n][1..] == [];
    } else {
      assert (ns + [n])[1..] == ns[1..] + [n];
      HeaderTextsSnoc(ns[1..], n);
    }
  }

  /** `get_header_text` on its output buffer: it only ever appends. */
  method AppendHeaderText(n: Node, output: seq<char>) returns (out: seq<char>)
    ensures out == output + HeaderText(n)
    decreases n, 1
  {
    match n {
      case Text(t) => out := output + t;
      case Code(lit) => out := output + lit;
      case Break => out := output + [' '];
      case FancyHeading(_, kids) => out := AppendHeaderTexts(kids, output);
      case SetextHeading(_, kids) => out := AppendHeaderTexts(kids, output);
      case Para(kids) => out := AppendHeaderTexts(kids, output);
      case Image(_, _, kids) => out := AppendHeaderTexts(kids, output);
      case Other(kids) => out := AppendHeaderTexts(kids, output);
      case _ => out := output;
    }
  }

  /** The recursion of `get_header_text` over a node's children, in order. */
  method AppendHeaderTexts(kids: seq<Node>, output: seq<char>) returns (out: seq<char>)
    ensures out == output + HeaderTexts(kids)
    decreases kids, 0
  {
    out := output;
    for i := 0 to |kids|
      invariant out == output + HeaderTexts(kids[..i])
    {
      out := AppendHeaderText(kids[i], out);
      HeaderTextsSnoc(kids[..i], kids[i]);
      TakeSnoc(kids, i);
    }
    assert kids[..|kids|] == kids;
  }

  /** The comrak revision's title: the same first-heading rule, counting setext headings too, with `get_header_text`. */
  function ComrakTitle(ns: seq<Node>): Option<string> {
    match FirstHeading(ns, true)
    case None => None
    case Some(i) => if ns[i].level == 1 then Some(HeaderText(ns[i])) else None
  }

  /** `get_document_title` of the comrak revision. */
  method GetDocumentTitleComrak(ns: seq<Node>) returns (title: Option<string>)
    ensures title == ComrakTitle(ns)
  {
    var numHeaders := 0;
    for i := 0 to |ns|
      invariant numHeaders == 0 <==> forall k :: 0 <= k < i ==> !Counts(ns[k], true)
      invariant numHeaders > 0 ==> ComrakTitle(ns) == None
    {
      var node := ns[i];
      if node.FancyHeading? || node.SetextHeading? {
        numHeaders := numHeaders + 1;
        if numHeaders == 1 {
          FirstHeadingIs(ns, true, i);
        }
        if node.level == 1 && numHeaders == 1 {
          var text := AppendHeaderText(node, []);
          assert text == HeaderText(node);
          return Some(text);
        }
      }
    }
    return None;
  }

  /** With no setext heading at the top level, both revisions stop at the same heading, so they find a title on the same documents. */
  lemma {:induction false} RevisionsAgreeOnPresence(ns: seq<Node>)
    requires forall k :: 0 <= k < |ns| ==> !ns[k].SetextHeading?
    ensures FirstHeading(ns, true) == FirstHeading(ns, false)
    ensures ComrakTitle(ns).Some? <==> DocumentTitle(ns).Some?
  {
    if ns != [] {
      RevisionsAgreeOnPresence(ns[1..]);
    }
  }

  /** `Title` underlined with `=`: comrak takes it as the title, markdown-it sees no heading at all. */
  lemma SetextTitleOnlyComrak(t: string)
    ensures ComrakTitle([SetextHeading(1, [Text(t)])]) == Some(t)
    ensures DocumentTitle([SetextHeading(1, [Text(t)])]) == None
  {
    assert HeaderTexts([Text(t)]) == t by {
      assert [Text(t)][1..] == [];
    }
  }

  /** `Intro` underlined with `-`, then `# H`: comrak stops at the h2 and finds no title; markdown-it skips it and takes `H`. */
  lemma SetextH2HidesH1OnlyComrak(intro: string, h: string)
    ensures ComrakTitle([SetextHeading(2, [Text(intro)]), FancyHeading(1, [Text(h)])]) == None
    ensures DocumentTitle([SetextHeading(2, [Text(intro)]), FancyHeading(1, [Text(h)])]) == Some(h)
  {
    var ns := [SetextHeading(2, [Text(intro)]), FancyHeading(1, [Text(h)])];
    FirstHeadingIs(ns, false, 1);
    assert CollectTexts([Text(h)]) == h by {
      assert [Text(h)][1..] == [];
    }
  }

  /**
   * `a` and `b` on two lines underlined with `=`: comrak's title joins the
   * lines with one space; markdown-it's `collect_text` would join them with
   * nothing, and markdown-it takes no title from this heading anyway.
   */
  lemma BreakFlattening(a: string, b: string)
    ensures ComrakTitle([SetextHeading(1, [Text(a), Break, Text(b)])]) == Some(a + " " + b)
    ensures CollectText(SetextHeading(1, [Text(a), Break, Text(b)])) == a + b
    ensures DocumentTitle([SetextHeading(1, [Text(a), Break, Text(b)])]) == None
  {
    var kids := [Text(a), Break, Text(b)];
    assert kids[1..] == [Break, Text(b)] && kids[1..][1..] == [Text(b)] && kids[1..][1..][1..] == [];
    assert HeaderTexts([Text(b)]) == b;
    assert HeaderTexts([Break, Text(b)]) == " " + b;
    assert HeaderTexts(kids) == a + " " + b;
    assert CollectTexts([Text(b)]) == b;
    assert CollectTexts([Break, Text(b)]) == b;
    assert CollectTexts(kids) == a + b;
  }
}
