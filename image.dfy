/**
 * Images (src/md/markdown_it_md/image.rs and the older src/md/image.rs): an
 * image becomes a figure holding a link to the image around the image itself,
 * with the image's text as its alternative text.
 */
module Images {
  import opened Wrappers
  import opened Seqs
  import opened Ast

  /** `add_image_rule`: a parsed `![…](href "title")` becomes an image node; a missing href is empty. */
  function ImageNode(href: Option<string>, title: Option<string>, kids: seq<Node>): (n: Node)
    ensures n.Image? && n.title == title && n.kids == kids
    ensures href.Some? ==> n.url == href.value
    ensures href.None? ==> n.url == ""
  {
    Image(href.GetOr(""), title, kids)
  }

  /**
   * The text runs of a tree, in walk order, without separators. A code span's
   * literal is the text child markdown-it gives it, so it is kept; breaks add nothing.
   */
  function AltText(n: Node): string
    decreases n, 1
  {
    match n
    case Text(t) => t
    case Code(lit) => lit
    case FancyHeading(_, kids) => AltTexts(kids)
    case SetextHeading(_, kids) => AltTexts(kids)
    case Para(kids) => AltTexts(kids)
    case Image(_, _, kids) => AltTexts(kids)
    case Other(kids) => AltTexts(kids)
    case _ => ""
  }

  function AltTexts(ns: seq<Node>): string
    decreases ns, 0
  {
    if ns == [] then "" else AltText(ns[0]) + AltTexts(ns[1..])
  }

  lemma {:induction false} AltTextsSnoc(ns: seq<Node>, n: Node)
    ensures AltTexts(ns + [n]) == AltTexts(ns) + AltText(n)
  {
    if ns == [] {
      assert [n][1..] == [];
    } else {
      assert (ns + [n])[1..] == ns[1..] + [n];
      AltTextsSnoc(ns[1..], n);
    }
  }

  lemma {:induction false} AltTextsAppend(a: seq<Node>, b: seq<Node>)
    ensures AltTexts(a + b) == AltTexts(a) + AltTexts(b)
  {
    if a == [] {
      assert a + b == b;
    } else {
      assert (a + b)[1..] == a[1..] + b;
      AltTextsAppend(a[1..], b);
    }
  }

  /** The walk of `FancyImage::render` that pushes every text run onto `alt`. */
  method WalkAlt(n: Node, alt: string) returns (out: string)
    ensures out == alt + AltText(n)
    decreases n, 1
  {
    match n {
      case Text(t) => out := alt + t;
      case Code(lit) => out := alt + lit;
      case FancyHeading(_, kids) => out := WalkAltAll(kids, alt);
      case SetextHeading(_, kids) => out := WalkAltAll(kids, alt);
      case Para(kids) => out := WalkAltAll(kids, alt);
      case Image(_, _, kids) => out := WalkAltAll(kids, alt);
      case Other(kids) => out := WalkAltAll(kids, alt);
      case _ => out := alt;
    }
  }

  method WalkAltAll(ns: seq<Node>, alt: string) returns (out: string)
    ensures out == alt + AltTexts(ns)
    decreases ns, 0
  {
    out := alt;
    for i := 0 to |ns|
      invariant out == alt + AltTexts(ns[..i])
    {
      out := WalkAlt(ns[i], out);
      AltTextsSnoc(ns[..i], ns[i]);
      TakeSnoc(ns, i);
    }
    assert ns[..|ns|] == ns;
  }

  /** The `img` attributes in the order they are pushed: `src`, then `title` if any, then `alt` if non-empty. */
  function ImgAttrs(url: string, title: Option<string>, alt: string): seq<(string, string)> {
    [("src", url)] + (if title.Some? then [("title", title.value)] else []) + (if alt != "" then [("alt", alt)] else [])
  }

  /** `FancyImage::render`: a figure holding a link to the image around the image. */
  method RenderImage(url: string, title: Option<string>, kids: seq<Node>) returns (out: Html)
    ensures out == Element("figure", [], [Element("a", [("href", url)], [Element("img", ImgAttrs(url, title, AltTexts(kids)), [])])])
  {
    var imgAttrs := [("src", url)];
    if title.Some? {
      imgAttrs := imgAttrs + [("title", title.value)];
    }
    var aAttrs := [("href", url)];
    var alt := WalkAlt(Image(url, title, kids), "");
    assert alt == AltTexts(kids);
    if alt != "" {
      imgAttrs := imgAttrs + [("alt", alt)];
    }
    assert imgAttrs == ImgAttrs(url, title, alt);
    out := Element("figure", [], [Element("a", aAttrs, [Element("img", imgAttrs, [])])]);
  }

  /**
   * The link goes where the image comes from; the image carries its source,
   * its title exactly when it has one, and its alternative text exactly when
   * that is non-empty, in that order.
   */
  lemma ImgAttrsMeaning(url: string, title: Option<string>, alt: string)
    ensures var attrs := ImgAttrs(url, title, alt);
      && attrs[0] == ("src", url)
      && Attr(attrs, "src") == Some(url)
      && Attr(attrs, "title") == title
      && (Attr(attrs, "alt").Some? <==> alt != "")
      && (alt != "" ==> Attr(attrs, "alt") == Some(alt) && attrs[|attrs| - 1] == ("alt", alt))
      && |attrs| == 1 + (if title.Some? then 1 else 0) + (if alt != "" then 1 else 0)
  {
    var attrs := ImgAttrs(url, title, alt);
    assert "src" != "title" && "src" != "alt" && "title" != "alt" by {
      assert "src"[0] != "alt"[0];
    }
    match title {
      case Some(t) =>
        if alt != "" {
          assert attrs == [("src", url), ("title", t), ("alt", alt)];
          assert attrs[1..] == [("title", t), ("alt", alt)] && attrs[1..][1..] == [("alt", alt)];
          assert Attr(attrs[1..], "alt") == Attr(attrs[1..][1..], "alt") == Some(alt);
        } else {
          assert attrs == [("src", url), ("title", t)];
          assert attrs[1..] == [("title", t)] && attrs[1..][1..] == [];
          assert Attr(attrs[1..], "alt") == Attr(attrs[1..][1..], "alt") == None;
        }
      case None =>
        if alt != "" {
          assert attrs == [("src", url), ("alt", alt)];
          assert attrs[1..] == [("alt", alt)] && attrs[1..][1..] == [];
          assert Attr(attrs[1..], "title") == Attr(attrs[1..][1..], "title") == None;
        } else {
          assert attrs == [("src", url)];
          assert attrs[1..] == [];
        }
    }
  }

  /** Alternative text concatenates nested runs and the text of code spans, without separators. */
  lemma AltTextExample(a: string, b: string, c: string)
    ensures AltTexts([Text(a), Other([Text(b)]), Code(c)]) == a + b + c
  {
    var ns := [Text(a), Other([Text(b)]), Code(c)];
    assert ns[1..] == [Other([Text(b)]), Code(c)] && ns[1..][1..] == [Code(c)] && ns[1..][1..][1..] == [];
    assert [Text(b)][1..] == [];
    assert AltTexts([Text(b)]) == b;
    assert AltText(Other([Text(b)])) == b;
    assert [Code(c)][1..] == [];
    assert AltTexts([Code(c)]) == c;
    assert AltTexts(ns[1..]) == b + c;
  }

  /** `![](URL)`: a figure whose link and image both point at URL, with no title and no alternative text. */
  lemma BareImage(url: string)
    ensures ImgAttrs(ImageNode(Some(url), None, []).url, None, AltTexts([])) == [("src", url)]
  {
  }

  /** `![TEXT](URL "TITLE")`: source, title and alternative text, in that order. */
  lemma TitledImage(url: string, text: string, title: string)
    requires text != ""
    ensures ImgAttrs(url, Some(title), AltTexts([Text(text)])) == [("src", url), ("title", title), ("alt", text)]
  {
    assert [Text(text)][1..] == [];
    assert AltTexts([Text(text)]) == text;
  }
}
