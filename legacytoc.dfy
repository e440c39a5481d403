/**
 * The oldest table of contents (src/toc.rs): one recursive pass per level.
 * Each heading of the wanted level gets, as its sub-table, the table for the
 * next level computed over every node from that heading to the end of the
 * document.
 */
module LegacyToc {
  import opened Slug
  import opened Ast
  import opened Headings

  datatype Contents = Contents(entries: seq<(Heading, Contents)>)

  /** The deepest heading level among `nodes`, 0 when there is none. */
  function MaxLevel(nodes: seq<Node>): (m: nat)
    ensures forall k :: 0 <= k < |nodes| && nodes[k].FancyHeading? ==> nodes[k].level <= m
  {
    if nodes == [] then 0
    else
      var rest := MaxLevel(nodes[1..]);
      if nodes[0].FancyHeading? && nodes[0].level > rest then nodes[0].level else rest
  }

  lemma {:induction false} MaxLevelSuffix(nodes: seq<Node>, i: nat)
    requires i <= |nodes|
    ensures MaxLevel(nodes[i..]) <= MaxLevel(nodes)
  {
    if i > 0 {
      assert nodes[1..][i - 1..] == nodes[i..];
      MaxLevelSuffix(nodes[1..], i - 1);
    }
  }

  predicate AtLevel(n: Node, level: nat) {
    n.FancyHeading? && n.level == level
  }

  /**
   * The entries `toc_for_level` has pushed after looking at the first `i`
   * nodes: one per heading of exactly `level`, whose sub-table is the one for
   * `level + 1` over the nodes from that heading on.
   */
  function EntriesUpTo(nodes: seq<Node>, level: nat, i: nat): seq<(Heading, Contents)>
    requires i <= |nodes|
    decreases MaxLevel(nodes) + 1 - level, i
  {
    if i == 0 then []
    else
      var init := EntriesUpTo(nodes, level, i - 1);
      var node := nodes[i - 1];
      if AtLevel(node, level) then
        MaxLevelSuffix(nodes, i - 1);
        var sub := nodes[i - 1..];
        init + [(NewHeading(level, CollectText(node)), Contents(EntriesUpTo(sub, level + 1, |sub|)))]
      else init
  }

  /** `toc_for_level` */
  function TocForLevel(nodes: seq<Node>, level: nat): Contents {
    Contents(EntriesUpTo(nodes, level, |nodes|))
  }

  /** The number of headings of exactly `level` among `nodes`. */
  function CountAt(nodes: seq<Node>, level: nat): nat {
    if nodes == [] then 0
    else CountAt(nodes[..|nodes| - 1], level) + if AtLevel(nodes[|nodes| - 1], level) then 1 else 0
  }

  /** Whether a list of positions strictly increases. */
  predicate Increasing(js: seq<nat>) {
    forall k, l :: 0 <= k < l < |js| ==> js[k] < js[l]
  }

  /** The positions, among the first `i` nodes, of the headings of exactly `level`: all of them, in order. */
  function IndicesAt(nodes: seq<Node>, level: nat, i: nat): (js: seq<nat>)
    requires i <= |nodes|
    ensures Increasing(js)
    ensures forall k :: 0 <= k < |js| ==> js[k] < i && AtLevel(nodes[js[k]], level)
    ensures forall j :: 0 <= j < i && AtLevel(nodes[j], level) ==> j in js
  {
    if i == 0 then []
    else IndicesAt(nodes, level, i - 1) + if AtLevel(nodes[i - 1], level) then [i - 1] else []
  }

  /**
   * The entries after `i` nodes are exactly the headings of `level` among
   * them, in order; each is titled and slugged from its node, and its
   * sub-table is `toc_for_level` at `level + 1` over the nodes from that
   * heading to the end.
   */
  lemma {:induction false} EntriesMatchHeadings(nodes: seq<Node>, level: nat, i: nat)
    requires i <= |nodes|
    ensures |EntriesUpTo(nodes, level, i)| == CountAt(nodes[..i], level) == |IndicesAt(nodes, level, i)|
    ensures forall k :: 0 <= k < |EntriesUpTo(nodes, level, i)| ==>
      var j := IndicesAt(nodes, level, i)[k];
      && EntriesUpTo(nodes, level, i)[k] == (HeadingOf(nodes[j]), TocForLevel(nodes[j..], level + 1))
      && EntriesUpTo(nodes, level, i)[k].0.level == level
      && EntriesUpTo(nodes, level, i)[k].0.slug == Slugify(EntriesUpTo(nodes, level, i)[k].0.text)
  {
    if i > 0 {
      EntriesMatchHeadings(nodes, level, i - 1);
      assert nodes[..i][..i - 1] == nodes[..i - 1];
      var es, js := EntriesUpTo(nodes, level, i), IndicesAt(nodes, level, i);
      var es', js' := EntriesUpTo(nodes, level, i - 1), IndicesAt(nodes, level, i - 1);
      forall k | 0 <= k < |es|
        ensures es[k] == (HeadingOf(nodes[js[k]]), TocForLevel(nodes[js[k]..], level + 1))
      {
        if k < |es'| {
          assert es[k] == es'[k] && js[k] == js'[k];
        } else {
          assert js[k] == i - 1;
        }
      }
    }
  }

  /** `toc_for_level` as the loop the source runs, recursing for each heading it keeps. */
  method BuildTocForLevel(nodes: seq<Node>, level: nat) returns (toc: Contents)
    ensures toc == TocForLevel(nodes, level)
    decreases MaxLevel(nodes) + 1 - level
  {
    var entries: seq<(Heading, Contents)> := [];
    for idx := 0 to |nodes|
      invariant entries == EntriesUpTo(nodes, level, idx)
    {
      var node := nodes[idx];
      if AtLevel(node, level) {
        var text := CollectText(node);
        MaxLevelSuffix(nodes, idx);
        var sub := BuildTocForLevel(nodes[idx..], level + 1);
        entries := entries + [(NewHeading(level, text), sub)];
      }
    }
    toc := Contents(entries);
  }

  /** `TableOfContents::new`: the table for `level` over the document's top-level nodes. */
  method New(document: seq<Node>, level: nat) returns (toc: Contents)
    ensures toc == TocForLevel(document, level)
  {
    toc := BuildTocForLevel(document, level);
  }

  /** Entries, once pushed, stay: the entries after `i` nodes start those after `j >= i`. */
  lemma {:induction false} EntriesPrefix(nodes: seq<Node>, level: nat, i: nat, j: nat)
    requires i <= j <= |nodes|
    ensures EntriesUpTo(nodes, level, i) <= EntriesUpTo(nodes, level, j)
    decreases j
  {
    if i < j {
      EntriesPrefix(nodes, level, i, j - 1);
    }
  }

  /** Entries of a table for `level` are all at `level`, their sub-tables at `level + 1`, and so on down. */
  predicate Leveled(es: seq<(Heading, Contents)>, level: nat)
    decreases es, 0
  {
    forall k :: 0 <= k < |es| ==> EntryLeveled(es[k], level)
  }

  predicate EntryLeveled(e: (Heading, Contents), level: nat)
    decreases e, 1
  {
    e.0.level == level && Leveled(e.1.entries, level + 1)
  }

  /**
   * Every entry sits exactly one level below its parent, so a heading that
   * skips a level (an h4 right under an h2) never appears.
   */
  lemma {:induction false} TocLeveled(nodes: seq<Node>, level: nat, i: nat)
    requires i <= |nodes|
    ensures Leveled(EntriesUpTo(nodes, level, i), level)
    decreases MaxLevel(nodes) + 1 - level, i
  {
    if i > 0 {
      TocLeveled(nodes, level, i - 1);
      var node := nodes[i - 1];
      if AtLevel(node, level) {
        MaxLevelSuffix(nodes, i - 1);
        var sub := nodes[i - 1..];
        TocLeveled(sub, level + 1, |sub|);
      }
    }
  }

  /** A call for a level deeper than every heading finds nothing: this is why the recursion stops. */
  lemma {:induction false} DeeperThanAllIsEmpty(nodes: seq<Node>, level: nat, i: nat)
    requires i <= |nodes| && level > MaxLevel(nodes)
    ensures EntriesUpTo(nodes, level, i) == []
  {
    if i > 0 {
      DeeperThanAllIsEmpty(nodes, level, i - 1);
    }
  }

  /**
   * The unit test's headings, h2 h3 h4 h2 h2 (the paragraphs between them
   * add nothing): three top-level entries, the first holding h3 and under it h4.
   */
  lemma TestDocument(ns: seq<Node>)
    requires |ns| == 5 && forall k :: 0 <= k < 5 ==> ns[k].FancyHeading?
    requires ns[0].level == 2 && ns[1].level == 3 && ns[2].level == 4 && ns[3].level == 2 && ns[4].level == 2
    ensures TocForLevel(ns, 2).entries ==
      [(HeadingOf(ns[0]), Contents([(HeadingOf(ns[1]), Contents([(HeadingOf(ns[2]), Contents([]))]))])),
       (HeadingOf(ns[3]), Contents([])),
       (HeadingOf(ns[4]), Contents([]))]
  {
    assert ns[0..] == ns;
    var d, e := ns[3..], ns[4..];
    TestDocumentFirst(ns);
    LevelsBelow(d, 2);
    DeeperThanAllIsEmpty(d, 3, |d|);
    LevelsBelow(e, 2);
    DeeperThanAllIsEmpty(e, 3, |e|);
    assert EntriesUpTo(ns, 2, 1) == [(HeadingOf(ns[0]), Contents(EntriesUpTo(ns, 3, |ns|)))];
    NoneAtLevel(ns, 2, 1, 3);
    assert EntriesUpTo(ns, 2, 4) == EntriesUpTo(ns, 2, 3) + [(HeadingOf(ns[3]), Contents([]))];
    assert EntriesUpTo(ns, 2, 5) == EntriesUpTo(ns, 2, 4) + [(HeadingOf(ns[4]), Contents([]))];
  }

  /** The first entry's sub-table in the unit test: h3 with h4 under it. */
  lemma TestDocumentFirst(ns: seq<Node>)
    requires |ns| == 5 && forall k :: 0 <= k < 5 ==> ns[k].FancyHeading?
    requires ns[0].level == 2 && ns[1].level == 3 && ns[2].level == 4 && ns[3].level == 2 && ns[4].level == 2
    ensures EntriesUpTo(ns, 3, |ns|) == [(HeadingOf(ns[1]), Contents([(HeadingOf(ns[2]), Contents([]))]))]
  {
    var b, c := ns[1..], ns[2..];
    assert b[1..] == c && b[0..] == b && c[0..] == c;
    LevelsBelow(c, 4);
    DeeperThanAllIsEmpty(c, 5, |c|);
    assert EntriesUpTo(c, 4, 1) == [(HeadingOf(ns[2]), Contents([]))];
    NoneAtLevel(c, 4, 1, |c|);
    EntriesShift(b, 4, |c|);
    assert EntriesUpTo(b, 3, 1) == [(HeadingOf(ns[1]), Contents(EntriesUpTo(b, 4, |b|)))];
    NoneAtLevel(b, 3, 1, |b|);
    EntriesShift(ns, 3, |b|);
  }

  lemma {:induction false} LevelsBelow(nodes: seq<Node>, bound: nat)
    requires forall k :: 0 <= k < |nodes| && nodes[k].FancyHeading? ==> nodes[k].level <= bound
    ensures MaxLevel(nodes) <= bound
  {
    if nodes != [] {
      LevelsBelow(nodes[1..], bound);
    }
  }

  /** Nodes that are not headings of the wanted level add no entry. */
  lemma {:induction false} NoneAtLevel(nodes: seq<Node>, level: nat, i: nat, j: nat)
    requires i <= j <= |nodes|
    requires forall k :: i <= k < j ==> !AtLevel(nodes[k], level)
    ensures EntriesUpTo(nodes, level, j) == EntriesUpTo(nodes, level, i)
    decreases j
  {
    if i < j {
      NoneAtLevel(nodes, level, i, j - 1);
    }
  }

  /** A first node that is not at the wanted level can be dropped. */
  lemma {:induction false} EntriesShift(nodes: seq<Node>, level: nat, i: nat)
    requires 0 < |nodes| && i < |nodes| && !AtLevel(nodes[0], level)
    ensures EntriesUpTo(nodes, level, i + 1) == EntriesUpTo(nodes[1..], level, i)
  {
    if i > 0 {
      EntriesShift(nodes, level, i - 1);
      assert nodes[1..][i - 1..] == nodes[i..];
      assert nodes[1..][i - 1] == nodes[i];
    }
  }

  // ---------------------------------------------------------------- the repeated-heading finding

  /** Every heading listed in a table, in pre-order. */
  function Listed(es: seq<(Heading, Contents)>): seq<Heading>
    decreases es, 0
  {
    if es == [] then [] else ListedEntry(es[0]) + Listed(es[1..])
  }

  function ListedEntry(e: (Heading, Contents)): seq<Heading>
    decreases e, 1
  {
    [e.0] + Listed(e.1.entries)
  }

  /** The number of heading nodes of any level. */
  function CountHeadings(nodes: seq<Node>): nat {
    if nodes == [] then 0 else (if nodes[0].FancyHeading? then 1 else 0) + CountHeadings(nodes[1..])
  }

  /**
   * As written, the sub-table of a heading runs to the end of the document:
   * for h2 A, h3 B, h2 C, h3 D the entry for A lists both B and D, and D is
   * listed again under C.
   */
  lemma RepeatedHeading(ns: seq<Node>)
    requires |ns| == 4 && forall k :: 0 <= k < 4 ==> ns[k].FancyHeading?
    requires ns[0].level == 2 && ns[1].level == 3 && ns[2].level == 2 && ns[3].level == 3
    ensures var t := TocForLevel(ns, 2).entries;
      && |t| == 2 && |t[0].1.entries| == 2 && |t[1].1.entries| == 1
      && t[0].1.entries[1].0 == HeadingOf(ns[3]) == t[1].1.entries[0].0
  {
    var t := EntriesUpTo(ns, 2, 4);
    assert ns[0..] == ns;
    var a := EntriesUpTo(ns, 3, 4);
    assert EntriesUpTo(ns, 3, 3) == EntriesUpTo(ns, 3, 2) == EntriesUpTo(ns, 3, 1) + [(HeadingOf(ns[1]), Contents(EntriesUpTo(ns[1..], 4, 3)))];
    assert EntriesUpTo(ns, 3, 1) == [];
    assert a == EntriesUpTo(ns, 3, 3) + [(HeadingOf(ns[3]), Contents(EntriesUpTo(ns[3..], 4, 1)))];
    var cd := ns[2..];
    assert cd[0] == ns[2] && cd[1] == ns[3] && cd[1..] == ns[3..];
    assert EntriesUpTo(cd, 3, 1) == [];
    assert EntriesUpTo(cd, 3, 2) == [(HeadingOf(ns[3]), Contents(EntriesUpTo(cd[1..], 4, 1)))];
    assert EntriesUpTo(ns, 2, 1) == [(HeadingOf(ns[0]), Contents(a))];
    assert EntriesUpTo(ns, 2, 2) == EntriesUpTo(ns, 2, 1);
    assert EntriesUpTo(ns, 2, 3) == EntriesUpTo(ns, 2, 2) + [(HeadingOf(ns[2]), Contents(EntriesUpTo(cd, 3, 2)))];
    assert EntriesUpTo(ns, 2, 4) == EntriesUpTo(ns, 2, 3);
  }

  /** The length of the section after a heading of `level`: up to the next heading of `level` or shallower. */
  function SectionLength(nodes: seq<Node>, level: nat): (n: nat)
    ensures n <= |nodes|
    ensures forall k :: 0 <= k < n ==> !(nodes[k].FancyHeading? && nodes[k].level <= level)
    ensures n < |nodes| ==> nodes[n].FancyHeading? && nodes[n].level <= level
  {
    if nodes == [] || (nodes[0].FancyHeading? && nodes[0].level <= level) then 0
    else 1 + SectionLength(nodes[1..], level)
  }

  /**
   * The table as evidently intended: each heading of `level` gets the table
   * for `level + 1` over its own section only.
   */
  function SectionedEntries(nodes: seq<Node>, level: nat): seq<(Heading, Contents)>
    decreases |nodes|
  {
    if nodes == [] then []
    else if AtLevel(nodes[0], level) then
      var rest := nodes[1..];
      var n := SectionLength(rest, level);
      [(HeadingOf(nodes[0]), Contents(SectionedEntries(rest[..n], level + 1)))] + SectionedEntries(rest[n..], level)
    else SectionedEntries(nodes[1..], level)
  }

  lemma {:induction false} CountHeadingsAppend(a: seq<Node>, b: seq<Node>)
    ensures CountHeadings(a + b) == CountHeadings(a) + CountHeadings(b)
  {
    if a == [] {
      assert a + b == b;
    } else {
      assert (a + b)[1..] == a[1..] + b;
      CountHeadingsAppend(a[1..], b);
    }
  }

  /** `ps` with `d` added to every position. */
  function Shift(ps: seq<nat>, d: nat): (qs: seq<nat>)
    ensures |qs| == |ps| && forall k :: 0 <= k < |ps| ==> qs[k] == ps[k] + d
  {
    seq(|ps|, k requires 0 <= k < |ps| => ps[k] + d)
  }

  /** Every position of `ps` lies in `[lo, hi)`. */
  predicate Within(ps: seq<nat>, lo: nat, hi: nat) {
    forall k :: 0 <= k < |ps| ==> lo <= ps[k] < hi
  }

  /** `ls[k]` is the heading at document position `ps[k]`, for every `k`. */
  predicate ListsAt(ls: seq<Heading>, ps: seq<nat>, nodes: seq<Node>) {
    && |ls| == |ps|
    && forall k :: 0 <= k < |ps| ==> ps[k] < |nodes| && nodes[ps[k]].FancyHeading? && ls[k] == HeadingOf(nodes[ps[k]])
  }

  /** Two increasing runs, the first wholly below `m` and the second not, make one. */
  lemma IncreasingJoin(x: seq<nat>, y: seq<nat>, m: nat, lo: nat, hi: nat)
    requires lo <= m <= hi && Increasing(x) && Increasing(y) && Within(x, lo, m) && Within(y, m, hi)
    ensures Increasing(x + y) && Within(x + y, lo, hi)
  {
    forall k, l | 0 <= k < l < |x + y| ensures (x + y)[k] < (x + y)[l] {
      if l < |x| {
        assert (x + y)[k] == x[k] && (x + y)[l] == x[l];
      } else if k < |x| {
        assert (x + y)[k] == x[k] && (x + y)[l] == y[l - |x|];
      } else {
        assert (x + y)[k] == y[k - |x|] && (x + y)[l] == y[l - |x|];
      }
    }
    forall k | 0 <= k < |x + y| ensures lo <= (x + y)[k] < hi {
      if k >= |x| {
        assert (x + y)[k] == y[k - |x|];
      }
    }
  }

  lemma ListsAtJoin(l1: seq<Heading>, p1: seq<nat>, l2: seq<Heading>, p2: seq<nat>, nodes: seq<Node>)
    requires ListsAt(l1, p1, nodes) && ListsAt(l2, p2, nodes)
    ensures ListsAt(l1 + l2, p1 + p2, nodes)
  {
    forall k | 0 <= k < |p1 + p2|
      ensures (p1 + p2)[k] < |nodes| && nodes[(p1 + p2)[k]].FancyHeading? && (l1 + l2)[k] == HeadingOf(nodes[(p1 + p2)[k]])
    {
      if k >= |p1| {
        assert (p1 + p2)[k] == p2[k - |p1|] && (l1 + l2)[k] == l2[k - |p1|];
      }
    }
  }

  /** Positions into the slice `nodes[d..hi]`, moved up by `d`, are positions into `nodes`. */
  lemma ListsAtShift(ls: seq<Heading>, ps: seq<nat>, nodes: seq<Node>, d: nat, hi: nat)
    requires d <= hi <= |nodes| && ListsAt(ls, ps, nodes[d..hi]) && Increasing(ps)
    ensures ListsAt(ls, Shift(ps, d), nodes) && Increasing(Shift(ps, d)) && Within(Shift(ps, d), d, hi)
  {
    var qs := Shift(ps, d);
    forall k | 0 <= k < |qs| ensures qs[k] < hi && nodes[qs[k]].FancyHeading? && ls[k] == HeadingOf(nodes[qs[k]]) {
      assert nodes[d..hi][ps[k]] == nodes[qs[k]];
    }
  }

  /**
   * The document positions of the headings the sectioned table lists, in the
   * order it lists them.
   */
  function SectionedPositions(nodes: seq<Node>, level: nat): seq<nat>
    decreases |nodes|
  {
    if nodes == [] then []
    else if AtLevel(nodes[0], level) then
      var rest := nodes[1..];
      var n := SectionLength(rest, level);
      [0] + Shift(SectionedPositions(rest[..n], level + 1), 1) + Shift(SectionedPositions(rest[n..], level), 1 + n)
    else Shift(SectionedPositions(nodes[1..], level), 1)
  }

  lemma ListedCons(e: (Heading, Contents), tail: seq<(Heading, Contents)>)
    ensures Listed([e] + tail) == [e.0] + Listed(e.1.entries) + Listed(tail)
  {
    assert ([e] + tail)[0] == e && ([e] + tail)[1..] == tail;
  }

  /** A heading at position 0, then its section's listing, then the listing after that section. */
  lemma ListsAtSection(h: Heading, l1: seq<Heading>, p1: seq<nat>, l2: seq<Heading>, p2: seq<nat>, nodes: seq<Node>, n: nat)
    requires 1 + n <= |nodes| && nodes[0].FancyHeading? && h == HeadingOf(nodes[0])
    requires ListsAt(l1, p1, nodes[1..1 + n]) && Increasing(p1)
    requires ListsAt(l2, p2, nodes[1 + n..|nodes|]) && Increasing(p2)
    ensures var ps := [0] + Shift(p1, 1) + Shift(p2, 1 + n);
      ListsAt([h] + l1 + l2, ps, nodes) && Increasing(ps)
  {
    ListsAtShift(l1, p1, nodes, 1, 1 + n);
    ListsAtShift(l2, p2, nodes, 1 + n, |nodes|);
    assert ListsAt([h], [0], nodes);
    ListsAtJoin([h], [0], l1, Shift(p1, 1), nodes);
    ListsAtJoin([h] + l1, [0] + Shift(p1, 1), l2, Shift(p2, 1 + n), nodes);
    IncreasingJoin([0], Shift(p1, 1), 1, 0, 1 + n);
    IncreasingJoin([0] + Shift(p1, 1), Shift(p2, 1 + n), 1 + n, 0, |nodes|);
  }

  /**
   * The sectioned table lists, in pre-order, exactly the headings at
   * `SectionedPositions`, and those strictly increase.
   */
  lemma {:induction false} SectionedListsPositions(nodes: seq<Node>, level: nat)
    ensures var ps := SectionedPositions(nodes, level);
      ListsAt(Listed(SectionedEntries(nodes, level)), ps, nodes) && Increasing(ps)
    decreases |nodes|
  {
    if nodes != [] {
      var rest := nodes[1..];
      if AtLevel(nodes[0], level) {
        var n := SectionLength(rest, level);
        var sub, tail := SectionedEntries(rest[..n], level + 1), SectionedEntries(rest[n..], level);
        SectionedListsPositions(rest[..n], level + 1);
        SectionedListsPositions(rest[n..], level);
        assert rest[..n] == nodes[1..1 + n] && rest[n..] == nodes[1 + n..|nodes|];
        ListsAtSection(HeadingOf(nodes[0]), Listed(sub), SectionedPositions(rest[..n], level + 1),
          Listed(tail), SectionedPositions(rest[n..], level), nodes, n);
        ListedCons((HeadingOf(nodes[0]), Contents(sub)), tail);
      } else {
        SectionedListsPositions(rest, level);
        assert rest == nodes[1..|nodes|];
        ListsAtShift(Listed(SectionedEntries(rest, level)), SectionedPositions(rest, level), nodes, 1, |nodes|);
      }
    }
  }

  /**
   * With sections, no heading is listed twice: the table lists, in pre-order,
   * the headings at strictly increasing positions of the document, so at most
   * as many headings as the document has.
   */
  lemma {:induction false} SectionedListsEachOnce(nodes: seq<Node>, level: nat)
    ensures var ls, ps := Listed(SectionedEntries(nodes, level)), SectionedPositions(nodes, level);
      && |ls| == |ps| && Increasing(ps)
      && forall k :: 0 <= k < |ls| ==> ps[k] < |nodes| && nodes[ps[k]].FancyHeading? && ls[k] == HeadingOf(nodes[ps[k]])
    ensures |Listed(SectionedEntries(nodes, level))| <= CountHeadings(nodes)
    decreases |nodes|
  {
    SectionedListsPositions(nodes, level);
    SectionedCount(nodes, level);
  }

  lemma {:induction false} SectionedCount(nodes: seq<Node>, level: nat)
    ensures |Listed(SectionedEntries(nodes, level))| <= CountHeadings(nodes)
    decreases |nodes|
  {
    if nodes != [] {
      var rest := nodes[1..];
      if AtLevel(nodes[0], level) {
        var n := SectionLength(rest, level);
        var sub := SectionedEntries(rest[..n], level + 1);
        var tail := SectionedEntries(rest[n..], level);
        var e := (HeadingOf(nodes[0]), Contents(sub));
        assert SectionedEntries(nodes, level) == [e] + tail;
        SectionedCount(rest[..n], level + 1);
        SectionedCount(rest[n..], level);
        ListedCons(e, tail);
        assert |Listed([e] + tail)| == 1 + |Listed(sub)| + |Listed(tail)|;
        assert rest[..n] + rest[n..] == rest;
        CountHeadingsAppend(rest[..n], rest[n..]);
        assert CountHeadings(nodes) == 1 + CountHeadings(rest);
      } else {
        SectionedCount(rest, level);
      }
    }
  }

  /** With sections, the example above gives A with B under it and C with D under it. */
  lemma SectionedExample(ns: seq<Node>)
    requires |ns| == 4 && forall k :: 0 <= k < 4 ==> ns[k].FancyHeading?
    requires ns[0].level == 2 && ns[1].level == 3 && ns[2].level == 2 && ns[3].level == 3
    ensures SectionedEntries(ns, 2) ==
      [(HeadingOf(ns[0]), Contents([(HeadingOf(ns[1]), Contents([]))])),
       (HeadingOf(ns[2]), Contents([(HeadingOf(ns[3]), Contents([]))]))]
  {
    var rest := ns[1..];
    assert SectionLength(rest, 2) == 1 by {
      assert rest[1..][0] == ns[2];
    }
    assert rest[..1] == [ns[1]] && rest[1..] == ns[2..];
    assert [ns[1]][1..] == [];
    var cd := ns[2..];
    assert cd[0] == ns[2] && cd[1..] == [ns[3]];
    assert SectionLength([ns[3]], 2) == 1 by {
      assert [ns[3]][1..] == [];
    }
    assert [ns[3]][..1] == [ns[3]] && [ns[3]][1..] == [];
    SectionedSingle(ns[1], 3);
    SectionedSingle(ns[3], 3);
    assert SectionedEntries(cd, 2) == [(HeadingOf(ns[2]), Contents([(HeadingOf(ns[3]), Contents([]))]))];
  }

  lemma SectionedSingle(n: Node, level: nat)
    requires AtLevel(n, level)
    ensures SectionedEntries([n], level) == [(HeadingOf(n), Contents([]))]
  {
    assert [n][1..] == [];
  }
}
