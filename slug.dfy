/**
 * A model of `slug::slugify` on ASCII input: ASCII letters are lower-cased,
 * ASCII letters and digits are kept, and every run of other characters becomes
 * one `-`; no `-` leads and a trailing `-` is dropped.
 */
module Slug {

  predicate IsSlugChar(c: char) {
    'a' <= c <= 'z' || '0' <= c <= '9' || c == '-'
  }

  predicate IsAlnum(c: char) {
    'a' <= c <= 'z' || 'A' <= c <= 'Z' || '0' <= c <= '9'
  }

  function Lower(c: char): (l: char)
    requires IsAlnum(c)
    ensures IsSlugChar(l) && l != '-'
  {
    if 'A' <= c <= 'Z' then (c as int + 32) as char else c
  }

  /** A well-formed slug: only slug characters, no `-` at either end and no `--`. */
  predicate WellFormed(s: string) {
    && (forall i :: 0 <= i < |s| ==> IsSlugChar(s[i]))
    && (s != [] ==> s[0] != '-' && s[|s| - 1] != '-')
    && (forall i :: 0 <= i < |s| - 1 ==> !(s[i] == '-' && s[i + 1] == '-'))
  }

  /** The characters pushed for `s`, given whether the last pushed character was a dash
    * (initially true, which suppresses a leading dash). */
  function Pushed(s: string, prevIsDash: bool): (r: string)
    ensures forall i :: 0 <= i < |r| ==> IsSlugChar(r[i])
    ensures prevIsDash && r != [] ==> r[0] != '-'
    ensures forall i :: 0 <= i < |r| - 1 ==> !(r[i] == '-' && r[i + 1] == '-')
  {
    if s == [] then []
    else if IsAlnum(s[0]) then
      var rest := Pushed(s[1..], false);
      [Lower(s[0])] + rest
    else if prevIsDash then Pushed(s[1..], true)
    else
      var rest := Pushed(s[1..], true);
      ['-'] + rest
  }

  function Slugify(s: string): (slug: string)
    ensures WellFormed(slug)
  {
    var pushed := Pushed(s, true);
    if pushed != [] && pushed[|pushed| - 1] == '-' then pushed[..|pushed| - 1] else pushed
  }

  lemma {:induction false} PushedWellFormed(s: string, p: bool)
    requires forall i :: 0 <= i < |s| ==> IsSlugChar(s[i])
    requires forall i :: 0 <= i < |s| - 1 ==> !(s[i] == '-' && s[i + 1] == '-')
    requires p && s != [] ==> s[0] != '-'
    ensures Pushed(s, p) == s
  {
    if s != [] {
      if s[0] == '-' {
        assert |s| > 1 ==> s[1] != '-';
      }
      PushedWellFormed(s[1..], s[0] == '-');
    }
  }

  /** A slug is its own slug: slugify is idempotent. */
  lemma SlugifyIdempotent(s: string)
    ensures Slugify(Slugify(s)) == Slugify(s)
  {
    PushedWellFormed(Slugify(s), true);
  }
}
