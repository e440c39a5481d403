/** `by_title` (src/content/sort.rs): pages ordered by title, in reverse. */
module Sort {
  import opened Wrappers
  import opened Strings
  import opened Pages

  /** `WithTitle::title` for a page: its title field. */
  function Title(p: Page): string {
    p.title
  }

  /** `by_title`: the comparison of the titles, reversed. */
  function ByTitle(a: Page, b: Page): Ordering {
    LexCompare(Title(a), Title(b)).Reverse()
  }

  /**
   * `Equal` exactly for equal titles; a smaller title compares `Greater`;
   * swapping the arguments reverses the result; the order is transitive; and
   * only the titles matter.
   */
  lemma ByTitleMeaning(a: Page, b: Page, c: Page)
    ensures ByTitle(a, b) == Equal <==> a.title == b.title
    ensures LexCompare(a.title, b.title) == Less <==> ByTitle(a, b) == Greater
    ensures ByTitle(a, b) == ByTitle(b, a).Reverse()
    ensures ByTitle(a, b) == Greater && ByTitle(b, c) == Greater ==> ByTitle(a, c) == Greater
    ensures forall a': Page, b': Page :: a'.title == a.title && b'.title == b.title ==> ByTitle(a', b') == ByTitle(a, b)
  {
    LexCompareEqual(a.title, b.title);
    LexCompareAntisymmetric(a.title, b.title);
    if ByTitle(a, b) == Greater && ByTitle(b, c) == Greater {
      LexCompareTransitive(a.title, b.title, c.title);
    }
  }

  /** A title that is a strict prefix of another sorts after it. */
  lemma PrefixTitleAfter(a: Page, b: Page)
    requires |a.title| < |b.title| && a.title == b.title[..|a.title|]
    ensures ByTitle(a, b) == Greater
  {
    LexCompareStrictPrefix(a.title, b.title);
  }
}
