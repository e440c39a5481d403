/** `nodes_to_string` and the page preamble (src/md/parse.rs). */
module MdParse {
  import opened Strings
  import opened Seqs
  import opened Ast

  /** The text of each node, in order. */
  function Texts(ns: seq<Node>): (ts: seq<string>)
    ensures |ts| == |ns| && forall k :: 0 <= k < |ns| ==> ts[k] == CollectText(ns[k])
  {
    if ns == [] then [] else [CollectText(ns[0])] + Texts(ns[1..])
  }

  /** `nodes_to_string`: the texts of the nodes joined by single spaces. */
  function NodesToString(ns: seq<Node>): string {
    Join(Texts(ns), " ")
  }

  function SumLengths(ts: seq<string>): nat {
    if ts == [] then 0 else |ts[0]| + SumLengths(ts[1..])
  }

  /** Exactly one separator between consecutive parts, none at the ends. */
  lemma {:induction false} JoinLength(parts: seq<string>, sep: string)
    ensures |Join(parts, sep)| == SumLengths(parts) + if parts == [] then 0 else (|parts| - 1) * |sep|
  {
    if |parts| > 1 {
      JoinLength(parts[1..], sep);
    } else if |parts| == 1 {
      assert parts[1..] == [];
    }
  }

  /** Adding a node appends one space and its text; the empty list gives "". */
  lemma NodesToStringSnoc(ns: seq<Node>, n: Node)
    ensures NodesToString([]) == ""
    ensures NodesToString(ns + [n]) == if ns == [] then CollectText(n) else NodesToString(ns) + " " + CollectText(n)
    ensures |NodesToString(ns + [n])| == SumLengths(Texts(ns + [n])) + |ns|
  {
    assert Texts(ns + [n]) == Texts(ns) + [CollectText(n)];
    JoinSnoc(Texts(ns), CollectText(n), " ");
    JoinLength(Texts(ns + [n]), " ");
  }

  /** The nodes of `ns` that are not headings, in order. */
  function NonHeadings(ns: seq<Node>): (r: seq<Node>)
    ensures |r| <= |ns|
    ensures forall k :: 0 <= k < |r| ==> !IsHeading(r[k])
  {
    if ns == [] then []
    else
      var init := NonHeadings(ns[..|ns| - 1]);
      if IsHeading(ns[|ns| - 1]) then init else init + [ns[|ns| - 1]]
  }

  lemma {:induction false} NonHeadingsAppend(a: seq<Node>, b: seq<Node>)
    ensures NonHeadings(a + b) == NonHeadings(a) + NonHeadings(b)
    decreases |b|
  {
    if b == [] {
      assert a + b == a;
    } else {
      var b' := b[..|b| - 1];
      assert (a + b)[..|a + b| - 1] == a + b';
      NonHeadingsAppend(a, b');
    }
  }

  /** The position of the first heading whose level is not 1, or the length when there is none. */
  function StopIndex(ns: seq<Node>): (i: nat)
    ensures i <= |ns|
    ensures i < |ns| ==> IsHeading(ns[i]) && ns[i].level != 1
  {
    if ns == [] then 0
    else if IsHeading(ns[0]) && ns[0].level != 1 then 0
    else 1 + StopIndex(ns[1..])
  }

  /** No heading of level other than 1 comes before the stop index. */
  lemma {:induction false} StopIndexFirst(ns: seq<Node>, k: nat)
    requires k < StopIndex(ns)
    ensures !(IsHeading(ns[k]) && ns[k].level != 1)
  {
    if k > 0 {
      StopIndexFirst(ns[1..], k - 1);
    }
  }

  /** The preamble text: every non-heading node before the first heading of level other than 1. */
  function PreambleText(ns: seq<Node>): string {
    NodesToString(PreambleNodes(ns))
  }

  function PreambleNodes(ns: seq<Node>): seq<Node> {
    NonHeadings(ns[..StopIndex(ns)])
  }

  /** `preamble`: level-1 headings are skipped, any other heading ends the preamble. */
  method Preamble(children: seq<Node>) returns (s: string)
    ensures s == PreambleText(children)
  {
    var nodes: seq<Node> := [];
    var i := 0;
    while i < |children|
      invariant i <= StopIndex(children)
      invariant nodes == NonHeadings(children[..i])
    {
      var node := children[i];
      if IsHeading(node) {
        if node.level == 1 {
          PrefixOfNext(children, i);
          i := i + 1;
          continue;
        } else {
          if i < StopIndex(children) {
            StopIndexFirst(children, i);
          }
          break;
        }
      } else {
        PrefixOfNext(children, i);
        nodes := nodes + [node];
      }
      i := i + 1;
    }
    assert i == StopIndex(children);
    s := NodesToString(nodes);
  }

  /** Nothing after the first heading of level other than 1 reaches the preamble. */
  lemma PreambleIgnoresSuffix(ns: seq<Node>, tail: seq<Node>)
    requires StopIndex(ns) < |ns|
    ensures PreambleNodes(ns + tail) == PreambleNodes(ns)
  {
    StopIndexAppend(ns, tail);
    assert (ns + tail)[..StopIndex(ns)] == ns[..StopIndex(ns)];
  }

  lemma {:induction false} StopIndexAppend(ns: seq<Node>, tail: seq<Node>)
    requires StopIndex(ns) < |ns|
    ensures StopIndex(ns + tail) == StopIndex(ns)
  {
    if !(IsHeading(ns[0]) && ns[0].level != 1) {
      assert (ns + tail)[1..] == ns[1..] + tail;
      StopIndexAppend(ns[1..], tail);
    }
  }

  /** A leading level-1 heading neither stops the preamble nor contributes to it. */
  lemma PreambleSkipsH1(h: Node, b: seq<Node>)
    requires IsHeading(h) && h.level == 1
    ensures PreambleNodes([h] + b) == PreambleNodes(b)
    ensures PreambleText([h] + b) == PreambleText(b)
  {
    var j := StopIndex(b);
    StopIndexSkip(h, b);
    PrefixOfConcat([h], b, j);
    NonHeadingsAppend([h], b[..j]);
    assert NonHeadings([h]) == [] by { assert [h][..0] == []; }
    assert [] + NonHeadings(b[..j]) == NonHeadings(b[..j]);
  }

  lemma PrefixOfConcat<T>(x: seq<T>, y: seq<T>, n: nat)
    requires n <= |y|
    ensures (x + y)[..|x| + n] == x + y[..n]
  {
  }

  lemma {:induction false} StopIndexShift(a: seq<Node>, b: seq<Node>)
    requires StopIndex(a) == |a|
    ensures StopIndex(a + b) == |a| + StopIndex(b)
  {
    if a == [] {
      assert a + b == b;
    } else {
      assert (a + b)[1..] == a[1..] + b;
      StopIndexShift(a[1..], b);
    }
  }

  lemma StopIndexSkip(h: Node, b: seq<Node>)
    requires IsHeading(h) && h.level == 1
    ensures StopIndex([h] + b) == 1 + StopIndex(b)
  {
    assert ([h] + b)[1..] == b;
  }

  /** Without headings, the preamble is the whole node list. */
  lemma PreambleWithoutHeadings(ns: seq<Node>)
    requires forall k :: 0 <= k < |ns| ==> !IsHeading(ns[k])
    ensures PreambleNodes(ns) == ns
  {
    StopIndexNoHeadings(ns);
    assert ns[..|ns|] == ns;
    NonHeadingsNoHeadings(ns);
  }

  lemma {:induction false} StopIndexNoHeadings(ns: seq<Node>)
    requires forall k :: 0 <= k < |ns| ==> !IsHeading(ns[k])
    ensures StopIndex(ns) == |ns|
  {
    if ns != [] {
      StopIndexNoHeadings(ns[1..]);
    }
  }

  lemma {:induction false} NonHeadingsNoHeadings(ns: seq<Node>)
    requires forall k :: 0 <= k < |ns| ==> !IsHeading(ns[k])
    ensures NonHeadings(ns) == ns
  {
    if ns != [] {
      NonHeadingsNoHeadings(ns[..|ns| - 1]);
    }
  }

  lemma TextParagraph(t: string)
    ensures CollectText(Para([Text(t)])) == t
  {
    assert [Text(t)][1..] == [];
    assert CollectTexts([Text(t)]) == CollectText(Text(t)) + CollectTexts([]);
  }

  /**
   * A page made of an h1 and two one-line paragraphs, like the setup page of
   * the medium test site, has the two paragraphs joined by a space as its preamble.
   */
  lemma TitledPagePreamble(kids: seq<Node>, t1: string, t2: string)
    ensures PreambleText([FancyHeading(1, kids), Para([Text(t1)]), Para([Text(t2)])]) == t1 + " " + t2
  {
    var h1 := FancyHeading(1, kids);
    var p1, p2 := Para([Text(t1)]), Para([Text(t2)]);
    PreambleSkipsH1(h1, [p1, p2]);
    assert [h1] + [p1, p2] == [h1, p1, p2];
    PreambleWithoutHeadings([p1, p2]);
    TextParagraph(t1);
    TextParagraph(t2);
    assert Texts([p1, p2]) == [t1, t2];
    assert Join([t1, t2], " ") == t1 + " " + t2 by {
      assert [t1, t2][1..] == [t2];
    }
  }
}
