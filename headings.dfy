/**
 * Headings of a document (src/md/markdown_it_md/headings.rs and the older
 * src/md/headings.rs): how a heading node renders, and the three passes over
 * the top-level nodes that collect the headings of level 2 and deeper.
 */
module Headings {
  import opened Wrappers
  import opened Seqs
  import opened Strings
  import opened Slug
  import opened Ast
  import opened MdParse

  /** A heading as the table of contents and the search index see it. */
  datatype Heading = Heading(level: nat, text: string, slug: string)

  /** `Heading::new`: the slug is computed from the text. */
  function NewHeading(level: nat, text: string): Heading {
    Heading(level, text, Slugify(text))
  }

  /** A top-level node the heading passes keep: a heading below level 1. */
  predicate IsSubHeading(n: Node) {
    n.FancyHeading? && n.level > 1
  }

  function HeadingOf(n: Node): Heading
    requires n.FancyHeading?
  {
    NewHeading(n.level, CollectText(n))
  }

  // ---------------------------------------------------------------- rendering

  /** `h1` … `h6`. */
  function Tag(level: nat): string
    requires 1 <= level <= 6
  {
    ['h', ('0' as int + level) as char]
  }

  function HeadingAttrs(slug: string): seq<(string, string)> {
    [("id", slug), ("x-data", "{ open: false }"), ("@mouseover", "open = true"), ("@mouseout", "open = false")]
  }

  function AnchorAttrs(slug: string): seq<(string, string)> {
    [("href", "#" + slug), ("x-show", "open"), ("x-transition.duration.200ms", ""),
     ("class", "ml-2 text-primary not-prose")]
  }

  /**
   * `FancyHeading::render`: nothing for level 1; otherwise an `h2`…`h6` element
   * with the slug as id, holding the content followed by a `#` anchor to itself.
   */
  function Render(level: nat, kids: seq<Node>): (out: seq<Html>)
    requires 1 <= level <= 6
    ensures level == 1 <==> out == []
    ensures level > 1 ==>
      var slug := Slugify(CollectTexts(kids));
      && |out| == 1 && out[0].Element? && out[0].tag == Tag(level)
      && Attr(out[0].attrs, "id") == Some(slug)
      && |out[0].body| == 2 && out[0].body[0] == Children(kids)
      && out[0].body[1].Element? && out[0].body[1].tag == "a"
      && Attr(out[0].body[1].attrs, "href") == Some("#" + slug)
      && out[0].body[1].body == [TextOut("#")]
  {
    if level == 1 then []
    else
      var slug := Slugify(CollectTexts(kids));
      [Element(Tag(level), HeadingAttrs(slug), [Children(kids), Element("a", AnchorAttrs(slug), [TextOut("#")])])]
  }

  /**
   * The older `FancyHeading::render`: every level from 1 to 6, class
   * `heading`, and the anchor wraps the whole content.
   */
  function RenderLegacy(level: nat, kids: seq<Node>): (out: seq<Html>)
    requires 1 <= level <= 6
    ensures
      var slug := Slugify(CollectTexts(kids));
      && |out| == 1 && out[0].Element? && out[0].tag == Tag(level)
      && Attr(out[0].attrs, "id") == Some(slug) && Attr(out[0].attrs, "class") == Some("heading")
      && out[0].body == [Element("a", [("href", "#" + slug)], [Children(kids)])]
  {
    var slug := Slugify(CollectTexts(kids));
    [Element(Tag(level), [("id", slug), ("class", "heading")], [Element("a", [("href", "#" + slug)], [Children(kids)])])]
  }

  /** In both revisions the anchor points at the heading's own id, and that id is a well-formed slug. */
  lemma AnchorTargetsHeading(level: nat, kids: seq<Node>)
    requires 2 <= level <= 6
    ensures var h := Render(level, kids)[0];
      && Attr(h.attrs, "id").Some? && WellFormed(Attr(h.attrs, "id").value)
      && Attr(h.body[1].attrs, "href") == Some("#" + Attr(h.attrs, "id").value)
    ensures var h := RenderLegacy(level, kids)[0];
      Attr(h.body[0].attrs, "href") == Some("#" + Attr(h.attrs, "id").value)
  {
  }

  // ---------------------------------------------------------------- Headings

  /** The headings below level 1 among the top-level nodes, in document order. */
  function HeadingsOf(ns: seq<Node>): (hs: seq<Heading>)
    ensures |hs| <= |ns|
    ensures forall k :: 0 <= k < |hs| ==> hs[k].level > 1 && hs[k].slug == Slugify(hs[k].text)
  {
    if ns == [] then []
    else
      var init := HeadingsOf(ns[..|ns| - 1]);
      var n := ns[|ns| - 1];
      if IsSubHeading(n) then init + [HeadingOf(n)] else init
  }

  /** The `Headings` iterator. */
  method CollectHeadings(ns: seq<Node>) returns (hs: seq<Heading>)
    ensures hs == HeadingsOf(ns)
  {
    hs := [];
    for i := 0 to |ns|
      invariant hs == HeadingsOf(ns[..i])
    {
      PrefixOfNext(ns, i);
      var node := ns[i];
      if node.FancyHeading? {
        if node.level > 1 {
          hs := hs + [HeadingOf(node)];
        }
      }
    }
    assert ns[..|ns|] == ns;
  }

  lemma {:induction false} HeadingsOfAppend(a: seq<Node>, b: seq<Node>)
    ensures HeadingsOf(a + b) == HeadingsOf(a) + HeadingsOf(b)
    decreases |b|
  {
    if b == [] {
      assert a + b == a;
    } else {
      assert (a + b)[..|a + b| - 1] == a + b[..|b| - 1];
      HeadingsOfAppend(a, b[..|b| - 1]);
    }
  }

  /** A level-1 heading or any other node contributes nothing; a deeper heading contributes itself. */
  lemma HeadingsOfOne(n: Node)
    ensures HeadingsOf([n]) == if IsSubHeading(n) then [HeadingOf(n)] else []
  {
    assert [n][..0] == [];
  }

  // ---------------------------------------------------------------- HeadingsWithIdx

  /** The headings below level 1 with their positions among the top-level nodes. */
  function IndexedHeadingsOf(ns: seq<Node>): (ix: seq<(nat, Heading)>)
    ensures forall k :: 0 <= k < |ix| ==>
      ix[k].0 < |ns| && IsSubHeading(ns[ix[k].0]) && ix[k].1 == HeadingOf(ns[ix[k].0])
  {
    if ns == [] then []
    else
      var init := IndexedHeadingsOf(ns[..|ns| - 1]);
      var n := ns[|ns| - 1];
      if IsSubHeading(n) then init + [(|ns| - 1, HeadingOf(n))] else init
  }

  /** Whether the positions of an indexed list strictly increase. */
  predicate PositionsIncrease(ix: seq<(nat, Heading)>) {
    forall k, l :: 0 <= k < l < |ix| ==> ix[k].0 < ix[l].0
  }

  /** The positions are listed in document order. */
  lemma {:induction false} IndexedHeadingsIncreasing(ns: seq<Node>)
    ensures PositionsIncrease(IndexedHeadingsOf(ns))
  {
    if ns != [] {
      var pre := ns[..|ns| - 1];
      IndexedHeadingsIncreasing(pre);
      var ix := IndexedHeadingsOf(pre);
      var full := IndexedHeadingsOf(ns);
      var n := ns[|ns| - 1];
      if IsSubHeading(n) {
        assert full == ix + [(|ns| - 1, HeadingOf(n))];
        forall k, l | 0 <= k < l < |full| ensures full[k].0 < full[l].0 {
          assert full[k] == ix[k];
          assert ix[k].0 < |pre|;
          if l < |ix| {
            assert full[l] == ix[l];
          } else {
            assert full[l].0 == |pre|;
          }
        }
      } else {
        assert full == ix;
      }
    }
  }

  /** The `HeadingsWithIdx` iterator. */
  method HeadingsWithIdx(ns: seq<Node>) returns (ix: seq<(nat, Heading)>)
    ensures ix == IndexedHeadingsOf(ns)
  {
    ix := [];
    for i := 0 to |ns|
      invariant ix == IndexedHeadingsOf(ns[..i])
    {
      PrefixOfNext(ns, i);
      var node := ns[i];
      if node.FancyHeading? {
        if node.level > 1 {
          ix := ix + [(i, HeadingOf(node))];
        }
      }
    }
    assert ns[..|ns|] == ns;
  }

  /** Every heading below level 1 is listed with its position. */
  lemma {:induction false} IndexedHeadingsComplete(ns: seq<Node>, i: nat)
    requires i < |ns| && IsSubHeading(ns[i])
    ensures exists k :: 0 <= k < |IndexedHeadingsOf(ns)| && IndexedHeadingsOf(ns)[k].0 == i
  {
    var ix := IndexedHeadingsOf(ns);
    if i == |ns| - 1 {
      assert ix[|ix| - 1].0 == i;
    } else {
      var init := ns[..|ns| - 1];
      IndexedHeadingsComplete(init, i);
      var k :| 0 <= k < |IndexedHeadingsOf(init)| && IndexedHeadingsOf(init)[k].0 == i;
      assert ix[k] == IndexedHeadingsOf(init)[k];
    }
  }

  function Seconds<A, B>(ps: seq<(A, B)>): (bs: seq<B>)
    ensures |bs| == |ps| && forall k :: 0 <= k < |ps| ==> bs[k] == ps[k].1
  {
    if ps == [] then [] else [ps[0].1] + Seconds(ps[1..])
  }

  /** Dropping the positions gives exactly the `Headings` sequence. */
  lemma {:induction false} IndexedHeadingsProject(ns: seq<Node>)
    ensures Seconds(IndexedHeadingsOf(ns)) == HeadingsOf(ns)
  {
    if ns != [] {
      IndexedHeadingsProject(ns[..|ns| - 1]);
    }
  }

  // ---------------------------------------------------------------- HeadingsWithTextAfter

  /** The longest prefix of `ms` without a heading of any level. */
  function UntilHeading(ms: seq<Node>): (r: seq<Node>)
    ensures |r| <= |ms| && r == ms[..|r|]
    ensures forall k :: 0 <= k < |r| ==> !IsHeading(r[k])
    ensures |r| == |ms| || IsHeading(ms[|r|])
  {
    if ms == [] || IsHeading(ms[0]) then [] else [ms[0]] + UntilHeading(ms[1..])
  }

  /** The two properties that pin down `UntilHeading`. */
  lemma {:induction false} UntilHeadingUnique(ms: seq<Node>, n: nat)
    requires n <= |ms| && forall k :: 0 <= k < n ==> !IsHeading(ms[k])
    requires n == |ms| || IsHeading(ms[n])
    ensures UntilHeading(ms) == ms[..n]
  {
    if n > 0 {
      UntilHeadingUnique(ms[1..], n - 1);
      assert ms[..n] == [ms[0]] + ms[1..][..n - 1];
    }
  }

  /** The text after the heading at `i`: the following nodes up to the next heading, joined by spaces. */
  function TextAfter(ns: seq<Node>, i: nat): string
    requires i < |ns|
  {
    NodesToString(UntilHeading(ns[i + 1..]))
  }

  /** One pair per heading below level 1: the heading and the text after it. */
  function WithTextAfterOf(ns: seq<Node>): (ds: seq<(Heading, string)>)
    ensures |ds| == |IndexedHeadingsOf(ns)|
  {
    PairWithText(ns, IndexedHeadingsOf(ns))
  }

  /** Each listed heading paired with the text after its position. */
  function PairWithText(ns: seq<Node>, ix: seq<(nat, Heading)>): (ds: seq<(Heading, string)>)
    requires forall k :: 0 <= k < |ix| ==> ix[k].0 < |ns|
    ensures |ds| == |ix|
  {
    seq(|ix|, k requires 0 <= k < |ix| => (ix[k].1, TextAfter(ns, ix[k].0)))
  }

  /** The `HeadingsWithTextAfter` iterator. */
  method HeadingsWithTextAfter(ns: seq<Node>) returns (docs: seq<(Heading, string)>)
    ensures docs == WithTextAfterOf(ns)
  {
    docs := [];
    for idx := 0 to |ns|
      invariant |docs| == |IndexedHeadingsOf(ns[..idx])|
      invariant forall k :: 0 <= k < |docs| ==>
        docs[k] == (IndexedHeadingsOf(ns[..idx])[k].1, TextAfter(ns, IndexedHeadingsOf(ns[..idx])[k].0))
    {
      PrefixOfNext(ns, idx);
      var node := ns[idx];
      if node.FancyHeading? {
        if node.level > 1 {
          var heading := HeadingOf(node);
          var text := TextAfterAt(ns, idx);
          docs := docs + [(heading, text)];
        }
      }
    }
    assert ns[..|ns|] == ns;
  }

  /** The body of the iterator for one heading: the next node decides, then a scan up to the next heading. */
  method TextAfterAt(ns: seq<Node>, idx: nat) returns (text: string)
    requires idx < |ns|
    ensures text == TextAfter(ns, idx)
  {
    var next := idx + 1;
    if next < |ns| {
      if IsHeading(ns[next]) {
        NoTextAfter(ns, idx);
        text := "";
      } else {
        var n := next;
        var nodes: seq<Node> := [];
        while n < |ns|
          invariant next <= n <= |ns| && nodes == ns[next..n]
          invariant forall k :: next <= k < n ==> !IsHeading(ns[k])
        {
          if IsHeading(ns[n]) {
            break;
          } else {
            assert ns[next..n + 1] == ns[next..n] + [ns[n]];
            nodes := nodes + [ns[n]];
          }
          n := n + 1;
        }
        TextAfterStops(ns, idx, n);
        text := NodesToString(nodes);
      }
    } else {
      NoTextAfter(ns, idx);
      text := "";
    }
  }

  /** The headings paired with text are exactly the `Headings` sequence. */
  lemma WithTextAfterHeadings(ns: seq<Node>)
    ensures |WithTextAfterOf(ns)| == |HeadingsOf(ns)|
    ensures forall k :: 0 <= k < |HeadingsOf(ns)| ==> WithTextAfterOf(ns)[k].0 == HeadingsOf(ns)[k]
  {
    IndexedHeadingsProject(ns);
  }

  /** A heading followed directly by another heading, or last in the document, has no text after it. */
  lemma NoTextAfter(ns: seq<Node>, i: nat)
    requires i < |ns| && (i + 1 == |ns| || IsHeading(ns[i + 1]))
    ensures TextAfter(ns, i) == ""
  {
    UntilHeadingUnique(ns[i + 1..], 0);
  }

  /** The text after a heading stops at the next heading, whatever its level, or at the end of the document. */
  lemma TextAfterStops(ns: seq<Node>, i: nat, j: nat)
    requires i < j <= |ns| && (j == |ns| || IsHeading(ns[j]))
    requires forall k :: i < k < j ==> !IsHeading(ns[k])
    ensures TextAfter(ns, i) == NodesToString(ns[i + 1..j])
  {
    var ms := ns[i + 1..];
    assert forall k :: 0 <= k < |ms| ==> ms[k] == ns[i + 1 + k];
    UntilHeadingUnique(ms, j - i - 1);
    assert ms[..j - i - 1] == ns[i + 1..j];
  }
}
