/**
 * The table of contents (src/md/markdown_it_md/toc.rs, and the same builder
 * over a tuple struct in src/md/toc.rs): a stack fold in the style of rustdoc
 * that turns the flat sequence of headings into a tree.
 *
 * `Forest` is an independent top-down definition of the intended tree; the
 * builder class is proved to produce it.
 */
module Toc {
  import opened Slug
  import opened Ast
  import opened Headings
  import opened Seqs

  datatype TocEntry = TocEntry(level: nat, text: string, slug: string, children: seq<TocEntry>)

  /** `TocEntry::new` with no children. */
  function Leaf(h: Heading): TocEntry {
    TocEntry(h.level, h.text, h.slug, [])
  }

  function HeadingOfEntry(e: TocEntry): Heading {
    Heading(e.level, e.text, e.slug)
  }

  // ---------------------------------------------------------------- the intended tree

  /** The length of the longest prefix of `hs` whose levels are all deeper than `level`. */
  function RunDeeper(hs: seq<Heading>, level: nat): (n: nat)
    ensures n <= |hs|
  {
    if hs == [] || hs[0].level <= level then 0 else 1 + RunDeeper(hs[1..], level)
  }

  /** The run is deeper than `level` throughout, and what ends it is not. */
  lemma {:induction false} RunDeeperBounds(hs: seq<Heading>, level: nat)
    ensures var n := RunDeeper(hs, level);
      && (forall k :: 0 <= k < n ==> hs[k].level > level)
      && (n < |hs| ==> hs[n].level <= level)
  {
    if hs != [] && hs[0].level > level {
      RunDeeperBounds(hs[1..], level);
    }
  }

  /**
   * The tree the headings describe: each heading owns, as children, the run
   * of deeper headings that directly follows it.
   */
  function Forest(hs: seq<Heading>): seq<TocEntry>
    decreases |hs|
  {
    if hs == [] then []
    else
      var rest := hs[1..];
      var n := RunDeeper(rest, hs[0].level);
      [TocEntry(hs[0].level, hs[0].text, hs[0].slug, Forest(rest[..n]))] + Forest(rest[n..])
  }

  /** The pre-order listing of a forest. */
  function Preorder(f: seq<TocEntry>): seq<Heading>
    decreases f, 0
  {
    if f == [] then [] else PreorderEntry(f[0]) + Preorder(f[1..])
  }

  function PreorderEntry(e: TocEntry): seq<Heading>
    decreases e, 1
  {
    [HeadingOfEntry(e)] + Preorder(e.children)
  }

  lemma {:induction false} PreorderAppend(a: seq<TocEntry>, b: seq<TocEntry>)
    ensures Preorder(a + b) == Preorder(a) + Preorder(b)
  {
    if a != [] {
      assert (a + b)[1..] == a[1..] + b;
      PreorderAppend(a[1..], b);
    } else {
      assert a + b == b;
    }
  }

  /** Reading the tree in pre-order gives the headings back: nothing lost, duplicated or reordered. */
  lemma {:induction false} PreorderForest(hs: seq<Heading>)
    ensures Preorder(Forest(hs)) == hs
    decreases |hs|
  {
    if hs != [] {
      var rest := hs[1..];
      var n := RunDeeper(rest, hs[0].level);
      ForestUnfold(hs);
      PreorderForest(rest[..n]);
      PreorderForest(rest[n..]);
      PreorderCombine(hs[0], Forest(rest[..n]), Forest(rest[n..]), rest[..n], rest[n..]);
      assert [hs[0]] + rest[..n] + rest[n..] == hs;
    }
  }

  /** The pre-order of an entry followed by a forest. */
  lemma PreorderCombine(h: Heading, c: seq<TocEntry>, f: seq<TocEntry>, a: seq<Heading>, b: seq<Heading>)
    requires Preorder(c) == a && Preorder(f) == b
    ensures Preorder([TocEntry(h.level, h.text, h.slug, c)] + f) == [h] + a + b
  {
    var e := TocEntry(h.level, h.text, h.slug, c);
    PreorderAppend([e], f);
    PreorderOne(e);
  }

  /** One unfolding of `Forest` on a non-empty input. */
  lemma ForestUnfold(hs: seq<Heading>)
    requires hs != []
    ensures var rest := hs[1..]; var n := RunDeeper(rest, hs[0].level);
      Forest(hs) == [TocEntry(hs[0].level, hs[0].text, hs[0].slug, Forest(rest[..n]))] + Forest(rest[n..])
  {
  }

  lemma PreorderOne(e: TocEntry)
    ensures Preorder([e]) == [HeadingOfEntry(e)] + Preorder(e.children)
  {
    assert [e][1..] == [];
  }

  /** Every top-level entry is deeper than `level`. */
  predicate AllDeeper(f: seq<TocEntry>, level: nat) {
    forall k :: 0 <= k < |f| ==> f[k].level > level
  }

  /** Each child is strictly deeper than its parent, all the way down. */
  predicate ChildrenDeeper(f: seq<TocEntry>)
    decreases f, 0
  {
    forall k :: 0 <= k < |f| ==> EntryChildrenDeeper(f[k])
  }

  predicate EntryChildrenDeeper(e: TocEntry)
    decreases e, 1
  {
    AllDeeper(e.children, e.level) && ChildrenDeeper(e.children)
  }

  lemma {:induction false} ForestDeeper(hs: seq<Heading>, level: nat)
    requires forall k :: 0 <= k < |hs| ==> hs[k].level > level
    ensures AllDeeper(Forest(hs), level)
    decreases |hs|
  {
    if hs != [] {
      var rest := hs[1..];
      var n := RunDeeper(rest, hs[0].level);
      ForestDeeper(rest[n..], level);
    }
  }

  /** Children are strictly deeper than their parents. */
  lemma {:induction false} ForestChildrenDeeper(hs: seq<Heading>)
    ensures ChildrenDeeper(Forest(hs))
    decreases |hs|
  {
    if hs != [] {
      var rest := hs[1..];
      var n := RunDeeper(rest, hs[0].level);
      RunDeeperBounds(rest, hs[0].level);
      ForestDeeper(rest[..n], hs[0].level);
      ForestChildrenDeeper(rest[..n]);
      ForestChildrenDeeper(rest[n..]);
      var f := Forest(hs);
      assert f[1..] == Forest(rest[n..]);
      forall k | 0 <= k < |f|
        ensures EntryChildrenDeeper(f[k])
      {
        if k > 0 {
          assert f[k] == Forest(rest[n..])[k - 1];
        }
      }
    }
  }

  /** Consecutive top-level entries never go deeper: a sibling's level is at most its predecessor's. */
  lemma {:induction false} SiblingsNotDeeper(hs: seq<Heading>)
    ensures forall k :: 0 < k < |Forest(hs)| ==> Forest(hs)[k].level <= Forest(hs)[k - 1].level
    decreases |hs|
  {
    if hs != [] {
      var rest := hs[1..];
      var n := RunDeeper(rest, hs[0].level);
      RunDeeperBounds(rest, hs[0].level);
      SiblingsNotDeeper(rest[n..]);
      var f, g := Forest(hs), Forest(rest[n..]);
      assert f[1..] == g;
      if g != [] {
        assert rest[n..] != [];
        assert g[0].level == rest[n].level;
      }
    }
  }

  // ---------------------------------------------------------------- appending one heading

  /** Where a new heading goes: along the rightmost path while that path is shallower than it. */
  function InsertLast(f: seq<TocEntry>, h: Heading): seq<TocEntry>
    decreases f, 0
  {
    if f == [] || f[|f| - 1].level >= h.level then f + [Leaf(h)]
    else f[..|f| - 1] + [InsertUnder(f[|f| - 1], h)]
  }

  function InsertUnder(e: TocEntry, h: Heading): TocEntry
    decreases e, 1
  {
    e.(children := InsertLast(e.children, h))
  }

  lemma InsertLastAppend(a: seq<TocEntry>, x: seq<TocEntry>, h: Heading)
    requires x != []
    ensures InsertLast(a + x, h) == a + InsertLast(x, h)
  {
    assert (a + x)[|a + x| - 1] == x[|x| - 1];
    assert (a + x)[..|a + x| - 1] == a + x[..|x| - 1];
  }

  /** Appending a heading to the input inserts it along the rightmost path of the tree. */
  lemma {:induction false} ForestSnoc(hs: seq<Heading>, h: Heading)
    ensures Forest(hs + [h]) == InsertLast(Forest(hs), h)
    decreases |hs|
  {
    if hs == [] {
      assert [h][1..] == [];
    } else {
      var rest := hs[1..];
      var n := RunDeeper(rest, hs[0].level);
      RunDeeperSnoc(rest, h, hs[0].level);
      if n < |rest| {
        ForestSnoc(rest[n..], h);
        ForestSnocSibling(hs, h);
      } else if h.level > hs[0].level {
        ForestSnoc(rest, h);
        ForestSnocChild(hs, h);
      } else {
        ForestSnocClosing(hs, h);
      }
    }
  }

  /** The new heading falls in a later sibling's subtree. */
  lemma {:induction false} ForestSnocSibling(hs: seq<Heading>, h: Heading)
    requires hs != []
    requires RunDeeper(hs[1..], hs[0].level) < |hs| - 1
    requires RunDeeper(hs[1..] + [h], hs[0].level) == RunDeeper(hs[1..], hs[0].level)
    requires var n := RunDeeper(hs[1..], hs[0].level);
      Forest(hs[1..][n..] + [h]) == InsertLast(Forest(hs[1..][n..]), h)
    ensures Forest(hs + [h]) == InsertLast(Forest(hs), h)
  {
    var hs' := hs + [h];
    var rest := hs[1..];
    var n := RunDeeper(rest, hs[0].level);
    SnocTail(hs, h);
    SnocSlices(rest, h, n);
    var e := TocEntry(hs[0].level, hs[0].text, hs[0].slug, Forest(rest[..n]));
    var f := Forest(rest[n..]);
    ForestUnfold(hs');
    ForestUnfold(hs);
    ForestUnfold(rest[n..]);
    InsertLastAppend([e], f, h);
  }

  /** The first entry's subtree runs to the end and the new heading is deeper: it joins that subtree. */
  lemma {:induction false} ForestSnocChild(hs: seq<Heading>, h: Heading)
    requires hs != [] && h.level > hs[0].level
    requires RunDeeper(hs[1..], hs[0].level) == |hs| - 1
    requires RunDeeper(hs[1..] + [h], hs[0].level) == |hs|
    requires Forest(hs[1..] + [h]) == InsertLast(Forest(hs[1..]), h)
    ensures Forest(hs + [h]) == InsertLast(Forest(hs), h)
  {
    var hs' := hs + [h];
    SnocTail(hs, h);
    ForestSingleRoot(hs);
    ForestSingleRoot(hs');
    var e := TocEntry(hs[0].level, hs[0].text, hs[0].slug, Forest(hs[1..]));
    assert InsertLast([e], h) == [InsertUnder(e, h)] by {
      assert [e][..0] == [];
    }
  }

  /** When everything after the first heading is deeper, the tree has a single root. */
  lemma {:induction false} ForestSingleRoot(hs: seq<Heading>)
    requires hs != [] && RunDeeper(hs[1..], hs[0].level) == |hs| - 1
    ensures Forest(hs) == [TocEntry(hs[0].level, hs[0].text, hs[0].slug, Forest(hs[1..]))]
  {
    var rest := hs[1..];
    assert rest[..|rest|] == rest && rest[|rest|..] == [];
  }

  /** The first entry's subtree runs to the end and the new heading is not deeper: it becomes a sibling. */
  lemma {:induction false} ForestSnocClosing(hs: seq<Heading>, h: Heading)
    requires hs != [] && h.level <= hs[0].level
    requires RunDeeper(hs[1..], hs[0].level) == |hs| - 1
    requires RunDeeper(hs[1..] + [h], hs[0].level) == |hs| - 1
    ensures Forest(hs + [h]) == InsertLast(Forest(hs), h)
  {
    var hs' := hs + [h];
    var rest := hs[1..];
    var n := |rest|;
    SnocTail(hs, h);
    SnocSlices(rest, h, n);
    assert rest[..n] == rest && rest[n..] == [];
    ForestUnfold(hs');
    ForestSingleRoot(hs);
    ForestOne([h]);
  }

  lemma {:induction false} RunDeeperSnoc(hs: seq<Heading>, h: Heading, level: nat)
    ensures RunDeeper(hs + [h], level) ==
      if RunDeeper(hs, level) < |hs| || h.level <= level then RunDeeper(hs, level) else |hs| + 1
  {
    if hs == [] {
      assert [h][1..] == [];
    } else {
      assert (hs + [h])[1..] == hs[1..] + [h];
      RunDeeperSnoc(hs[1..], h, level);
    }
  }

  // ---------------------------------------------------------------- the builder

  /**
   * Folding the chain into the top level without a level bound: each entry
   * becomes the last child of the one below it, `pending` the last child of
   * the topmost entry, and the bottom entry the last top-level entry.
   */
  function CloseWith(top: seq<TocEntry>, chain: seq<TocEntry>, pending: seq<TocEntry>): seq<TocEntry>
    decreases |chain|
  {
    if chain == [] then top + pending
    else
      var next := chain[|chain| - 1];
      CloseWith(top, chain[..|chain| - 1], [next.(children := next.children + pending)])
  }

  /** The table of contents a builder holds once everything is folded. */
  function Close(top: seq<TocEntry>, chain: seq<TocEntry>): seq<TocEntry> {
    CloseWith(top, chain, [])
  }

  /** Chain levels strictly increase from bottom to top. */
  predicate Increasing(chain: seq<TocEntry>) {
    forall k, l :: 0 <= k < l < |chain| ==> chain[k].level < chain[l].level
  }

  /** All chain levels are below `level`. */
  predicate Below(chain: seq<TocEntry>, level: nat) {
    forall k :: 0 <= k < |chain| ==> chain[k].level < level
  }

  /**
   * With every chain entry shallower than `h`, inserting `h` into the closed
   * tree is inserting it into the pending entries.
   */
  lemma {:induction false} InsertThroughChain(top: seq<TocEntry>, chain: seq<TocEntry>, pending: seq<TocEntry>, h: Heading)
    requires pending != [] && Below(chain, h.level)
    ensures InsertLast(CloseWith(top, chain, pending), h) == CloseWith(top, chain, InsertLast(pending, h))
    decreases |chain|
  {
    if chain == [] {
      InsertLastAppend(top, pending, h);
    } else {
      var next := chain[|chain| - 1];
      var below := chain[..|chain| - 1];
      var joined := next.(children := next.children + pending);
      InsertThroughChain(top, below, [joined], h);
      InsertLastAppend(next.children, pending, h);
      assert InsertLast([joined], h) == [joined.(children := next.children + InsertLast(pending, h))] by {
        assert [joined][..0] == [];
      }
    }
  }

  /**
   * Pushing a leaf for `h` onto a chain that a fold left shallower than `h`
   * inserts `h` into the closed tree.
   */
  lemma PushInserts(top: seq<TocEntry>, chain: seq<TocEntry>, h: Heading)
    requires Below(chain, h.level)
    requires chain != [] ==> var last := chain[|chain| - 1].children; last == [] || last[|last| - 1].level >= h.level
    requires chain == [] ==> top == [] || top[|top| - 1].level >= h.level
    ensures Close(top, chain + [Leaf(h)]) == InsertLast(Close(top, chain), h)
  {
    var c := chain + [Leaf(h)];
    assert c[..|c| - 1] == chain && c[|c| - 1] == Leaf(h);
    assert Leaf(h).(children := Leaf(h).children + []) == Leaf(h);
    assert Close(top, c) == CloseWith(top, chain, [Leaf(h)]);
    if chain != [] {
      var next := chain[|chain| - 1];
      var below := chain[..|chain| - 1];
      assert next.(children := next.children + []) == next;
      assert Close(top, chain) == CloseWith(top, below, [next]);
      assert Below(below, h.level);
      InsertThroughChain(top, below, [next], h);
      assert InsertLast(next.children, h) == next.children + [Leaf(h)];
      assert InsertLast([next], h) == [next.(children := next.children + [Leaf(h)])] by {
        assert [next][|[next]| - 1] == next && next.level < h.level;
        assert [next][..0] == [];
      }
    }
  }

  /** No chain entry is an h1. */
  predicate NoH1(chain: seq<TocEntry>) {
    forall k :: 0 <= k < |chain| ==> chain[k].level >= 2
  }

  lemma IncreasingSnoc(c: seq<TocEntry>, e: TocEntry)
    requires Increasing(c) && Below(c, e.level)
    ensures Increasing(c + [e])
  {
  }

  lemma CloseSnoc(top: seq<TocEntry>, c: seq<TocEntry>, e: TocEntry)
    ensures Close(top, c + [e]) == CloseWith(top, c, [e])
  {
    assert (c + [e])[..|c|] == c;
    assert e.(children := e.children + []) == e;
  }

  /**
   * `fold_until` on values: pop chain entries while their level is at least
   * `level`; `pending` holds the entry popped before, which becomes the last
   * child of the next one popped. The first entry below `level` is pushed
   * back with its new child; if the chain empties, the last popped entry
   * goes to the top level.
   */
  function Fold(top: seq<TocEntry>, chain: seq<TocEntry>, pending: seq<TocEntry>, level: nat): (seq<TocEntry>, seq<TocEntry>)
    decreases |chain|
  {
    if chain == [] then (top + pending, [])
    else
      var next := chain[|chain| - 1];
      var joined := next.(children := next.children + pending);
      if next.level < level then (top, chain[..|chain| - 1] + [joined])
      else Fold(top, chain[..|chain| - 1], [joined], level)
  }

  /** Folding never changes the tree the builder describes. */
  lemma {:induction false} FoldCloses(top: seq<TocEntry>, chain: seq<TocEntry>, pending: seq<TocEntry>, level: nat)
    ensures Close(Fold(top, chain, pending, level).0, Fold(top, chain, pending, level).1) == CloseWith(top, chain, pending)
    decreases |chain|
  {
    if chain != [] {
      var next := chain[|chain| - 1];
      var joined := next.(children := next.children + pending);
      if next.level < level {
        CloseSnoc(top, chain[..|chain| - 1], joined);
      } else {
        FoldCloses(top, chain[..|chain| - 1], [joined], level);
      }
    }
  }

  /** What is left of the chain is a prefix of it by level, still climbing, and wholly below `level`. */
  lemma {:induction false} FoldShape(top: seq<TocEntry>, chain: seq<TocEntry>, pending: seq<TocEntry>, level: nat)
    requires Increasing(chain)
    ensures var c := Fold(top, chain, pending, level).1;
      && Increasing(c) && Below(c, level) && |c| <= |chain|
      && forall k :: 0 <= k < |c| ==> c[k].level == chain[k].level
    decreases |chain|
  {
    if chain != [] {
      var next := chain[|chain| - 1];
      var below := chain[..|chain| - 1];
      var joined := next.(children := next.children + pending);
      assert Below(below, next.level);
      if next.level < level {
        IncreasingSnoc(below, joined);
      } else {
        FoldShape(top, below, [joined], level);
      }
    }
  }

  /** The state a fold starts from: the chain climbs, and `pending` is deeper than what remains. */
  predicate FoldReady(top: seq<TocEntry>, chain: seq<TocEntry>, pending: seq<TocEntry>, level: nat) {
    && Increasing(chain)
    && (pending == [] ==> (chain != [] ==> chain[|chain| - 1].children == []) && (chain == [] ==> top == []))
    && (pending != [] ==> |pending| == 1 && pending[0].level >= level
                          && (chain != [] ==> chain[|chain| - 1].level < pending[0].level))
  }

  /**
   * After a fold, the last thing on the rightmost path is at least `level`
   * deep, or there is nothing there: where the next heading goes.
   */
  lemma {:induction false} FoldSettled(top: seq<TocEntry>, chain: seq<TocEntry>, pending: seq<TocEntry>, level: nat)
    requires FoldReady(top, chain, pending, level)
    ensures var (t, c) := Fold(top, chain, pending, level);
      && (c != [] ==> var last := c[|c| - 1].children; last == [] || last[|last| - 1].level >= level)
      && (c == [] ==> t == [] || t[|t| - 1].level >= level)
    decreases |chain|
  {
    if chain != [] {
      var next := chain[|chain| - 1];
      var below := chain[..|chain| - 1];
      var joined := next.(children := next.children + pending);
      if next.level < level {
        assert (below + [joined])[|below|] == joined;
      } else {
        assert below != [] ==> below[|below| - 1] == chain[|below| - 1];
        FoldSettled(top, below, [joined], level);
      }
    }
  }

  /** Folding down to a level no chain entry is below empties the chain. */
  lemma {:induction false} FoldToBottom(top: seq<TocEntry>, chain: seq<TocEntry>, pending: seq<TocEntry>, level: nat)
    requires forall k :: 0 <= k < |chain| ==> chain[k].level >= level
    ensures Fold(top, chain, pending, level).1 == []
    decreases |chain|
  {
    if chain != [] {
      var next := chain[|chain| - 1];
      FoldToBottom(top, chain[..|chain| - 1], [next.(children := next.children + pending)], level);
    }
  }

  /**
   * The builder's invariant on values: the chain climbs strictly, holds no
   * h1, and its top entry is the last pushed leaf; folding it all gives the
   * tree of the pushed headings.
   */
  ghost predicate Consistent(top: seq<TocEntry>, chain: seq<TocEntry>, pushed: seq<Heading>) {
    && Increasing(chain) && NoH1(chain)
    && (chain != [] ==> chain[|chain| - 1].children == [])
    && (chain == [] ==> top == [] && pushed == [])
    && Close(top, chain) == Forest(pushed)
  }

  /** `push` keeps the invariant, and the pushed heading joins the tree as `Forest` places it. */
  lemma PushKeeps(top: seq<TocEntry>, chain: seq<TocEntry>, pushed: seq<Heading>, h: Heading)
    requires Consistent(top, chain, pushed) && h.level >= 2
    ensures var (t, c) := Fold(top, chain, [], h.level); Consistent(t, c + [Leaf(h)], pushed + [h])
  {
    var (t, c) := Fold(top, chain, [], h.level);
    assert CloseWith(top, chain, []) == Close(top, chain);
    FoldCloses(top, chain, [], h.level);
    FoldShape(top, chain, [], h.level);
    FoldSettled(top, chain, [], h.level);
    PushInserts(t, c, h);
    ForestSnoc(pushed, h);
    IncreasingSnoc(c, Leaf(h));
    NoH1Kept(c, chain, Leaf(h));
  }

  /** A chain that keeps the levels of a prefix of one without h1, with an entry below h1 on top, has no h1. */
  lemma NoH1Kept(c: seq<TocEntry>, chain: seq<TocEntry>, e: TocEntry)
    requires NoH1(chain) && |c| <= |chain| && e.level >= 2
    requires forall k :: 0 <= k < |c| ==> c[k].level == chain[k].level
    ensures NoH1(c + [e])
  {
    forall k | 0 <= k < |c| + 1
      ensures (c + [e])[k].level >= 2
    {
      if k < |c| {
        assert (c + [e])[k] == c[k];
      }
    }
  }

  /** `into_toc` on values: folding the whole chain leaves it empty and hands over the tree. */
  lemma IntoTocGives(top: seq<TocEntry>, chain: seq<TocEntry>, pushed: seq<Heading>)
    requires Consistent(top, chain, pushed)
    ensures Fold(top, chain, [], 1) == (Forest(pushed), [])
  {
    FoldToBottom(top, chain, [], 1);
    FoldCloses(top, chain, [], 1);
    var t := Fold(top, chain, [], 1).0;
    assert Close(t, []) == t + [] == t;
    assert CloseWith(top, chain, []) == Close(top, chain);
  }

  class TocBuilder {
    var topLevel: seq<TocEntry>
    var chain: seq<TocEntry>
    /** The headings pushed so far. */
    ghost var pushed: seq<Heading>

    ghost predicate Valid()
      reads this
    {
      Consistent(topLevel, chain, pushed)
    }

    /** `TocBuilder::new` */
    constructor()
      ensures Valid() && pushed == [] && topLevel == [] && chain == []
    {
      topLevel, chain, pushed := [], [], [];
    }

    /** `fold_until` */
    method FoldUntil(level: nat)
      modifies this
      ensures (topLevel, chain) == Fold(old(topLevel), old(chain), [], level)
      ensures pushed == old(pushed)
    {
      var top, c := topLevel, chain;
      var pending: seq<TocEntry> := [];
      while true
        invariant Fold(top, c, pending, level) == Fold(topLevel, chain, [], level)
        decreases |c|
      {
        if c == [] {
          top := top + pending;
          break;
        }
        var next := c[|c| - 1];
        c := c[..|c| - 1];
        next := next.(children := next.children + pending);
        if next.level < level {
          c := c + [next];
          break;
        }
        pending := [next];
      }
      topLevel, chain := top, c;
    }

    /** `push`: fold down to the new level, then put a leaf for the heading on the chain. */
    method Push(level: nat, text: string)
      requires Valid() && level >= 2
      modifies this
      ensures topLevel == Fold(old(topLevel), old(chain), [], level).0
      ensures chain == Fold(old(topLevel), old(chain), [], level).1 + [Leaf(NewHeading(level, text))]
      ensures Valid() && pushed == old(pushed) + [NewHeading(level, text)]
    {
      var h := NewHeading(level, text);
      PushKeeps(topLevel, chain, pushed, h);
      FoldUntil(level);
      chain := chain + [Leaf(h)];
      pushed := pushed + [h];
    }

    /** `into_toc`: fold everything (nothing is at level 1) and hand over the top level. */
    method IntoToc() returns (toc: seq<TocEntry>)
      requires Valid()
      modifies this
      ensures toc == Forest(old(pushed)) && chain == [] && topLevel == toc
    {
      IntoTocGives(topLevel, chain, pushed);
      FoldUntil(1);
      toc := topLevel;
    }
  }

  /** `TableOfContents::parse`: push every heading below h1, in document order, then fold. */
  method Parse(document: seq<Node>) returns (toc: seq<TocEntry>)
    ensures toc == Forest(HeadingsOf(document))
  {
    var builder := new TocBuilder();
    var hs := CollectHeadings(document);
    for i := 0 to |hs|
      invariant builder.Valid() && builder.pushed == hs[..i]
    {
      var h := hs[i];
      assert h.level > 1 && h.slug == Slugify(h.text);
      TakeSnoc(hs, i);
      builder.Push(h.level, h.text);
    }
    assert hs[..|hs|] == hs;
    toc := builder.IntoToc();
  }

  /** The tree is empty exactly when there are no headings (`TableOfContents::empty`). */
  lemma ForestEmpty(hs: seq<Heading>)
    ensures Forest(hs) == [] <==> hs == []
  {
  }

  function Entry(h: Heading, children: seq<TocEntry>): TocEntry {
    TocEntry(h.level, h.text, h.slug, children)
  }

  /**
   * The nesting of the unit test: levels 2, 3, 4, 2, 3, 2, 4 give three
   * top-level entries, the skipped level 3 in the last one notwithstanding.
   */
  lemma TestDocumentShape(hs: seq<Heading>)
    requires |hs| == 7
    requires hs[0].level == 2 && hs[1].level == 3 && hs[2].level == 4 && hs[3].level == 2
    requires hs[4].level == 3 && hs[5].level == 2 && hs[6].level == 4
    ensures Forest(hs) == [Entry(hs[0], [Entry(hs[1], [Leaf(hs[2])])]),
                           Entry(hs[3], [Leaf(hs[4])]),
                           Entry(hs[5], [Leaf(hs[6])])]
  {
    TwoLevelEntry(hs);
    TwoSiblings(hs[3..]);
  }

  /** Three ever deeper headings make one entry with one grandchild, when what follows is not deeper. */
  lemma TwoLevelEntry(hs: seq<Heading>)
    requires |hs| >= 3 && hs[0].level < hs[1].level < hs[2].level
    requires |hs| == 3 || hs[3].level <= hs[0].level
    ensures Forest(hs) == [Entry(hs[0], [Entry(hs[1], [Leaf(hs[2])])])] + Forest(hs[3..])
  {
    ForestOwns(hs, 2);
    var c := hs[1..3];
    assert c[0] == hs[1] && c[1] == hs[2];
    OneChild(c);
    assert Forest(c) == [Entry(hs[1], [Leaf(hs[2])])];
  }

  /** Two headings, the second deeper: one entry with one child. */
  lemma OneChild(hs: seq<Heading>)
    requires |hs| == 2 && hs[0].level < hs[1].level
    ensures Forest(hs) == [Entry(hs[0], [Leaf(hs[1])])]
  {
    ForestOwns(hs, 1);
    ForestOne(hs[1..2]);
    assert hs[2..] == [];
    ForestEmpty([]);
  }

  /** Levels 2, 3, 2, 4: two entries with one child each. */
  lemma TwoSiblings(hs: seq<Heading>)
    requires |hs| == 4 && hs[0].level == 2 && hs[1].level == 3 && hs[2].level == 2 && hs[3].level == 4
    ensures Forest(hs) == [Entry(hs[0], [Leaf(hs[1])]), Entry(hs[2], [Leaf(hs[3])])]
  {
    var last := hs[2..];
    OneChild(last);
    assert last[0] == hs[2] && last[1] == hs[3];
    ForestOwns(hs, 1);
    ForestOne(hs[1..2]);
  }

  /** The first heading owns the next `n`, which are deeper, and what follows them is not. */
  lemma ForestOwns(hs: seq<Heading>, n: nat)
    requires n < |hs|
    requires forall k :: 1 <= k <= n ==> hs[k].level > hs[0].level
    requires n + 1 == |hs| || hs[n + 1].level <= hs[0].level
    ensures Forest(hs) == [Entry(hs[0], Forest(hs[1..n + 1]))] + Forest(hs[n + 1..])
  {
    TailSlices(hs, n);
    RunDeeperExact(hs[1..], hs[0].level, n);
    ForestUnfold(hs);
  }

  lemma {:induction false} RunDeeperExact(hs: seq<Heading>, level: nat, n: nat)
    requires n <= |hs| && forall k :: 0 <= k < n ==> hs[k].level > level
    requires n == |hs| || hs[n].level <= level
    ensures RunDeeper(hs, level) == n
  {
    if n > 0 {
      RunDeeperExact(hs[1..], level, n - 1);
    }
  }

  lemma ForestOne(hs: seq<Heading>)
    requires |hs| == 1
    ensures Forest(hs) == [Leaf(hs[0])]
  {
    assert hs[1..] == [];
  }
}
