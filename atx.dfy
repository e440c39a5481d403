/**
 * The ATX heading block rule (`FancyHeadingsRule::run`) of both revisions.
 *
 * The rule sees the current line from its first non-space character on,
 * together with that line's indentation in columns. Positions are character
 * indices into the line; every marker the scanner looks at is ASCII.
 */
module AtxHeading {
  import opened Wrappers
  import opened Ast

  predicate IsBlank(c: char) {
    c == ' ' || c == '\t'
  }

  /** The number of leading `#` characters. */
  function HashRun(s: string): (n: nat)
    ensures n <= |s|
  {
    if s == [] || s[0] != '#' then 0 else 1 + HashRun(s[1..])
  }

  /** The run is all `#`, and what ends it is not. */
  lemma {:induction false} HashRunBounds(s: string)
    ensures forall k :: 0 <= k < HashRun(s) ==> s[k] == '#'
    ensures HashRun(s) < |s| ==> s[HashRun(s)] != '#'
  {
    if s != [] && s[0] == '#' {
      HashRunBounds(s[1..]);
    }
  }

  /** The number of trailing spaces and tabs. */
  function TrailingBlanks(s: string): (n: nat)
    ensures n <= |s|
  {
    if s == [] || !IsBlank(s[|s| - 1]) then 0 else 1 + TrailingBlanks(s[..|s| - 1])
  }

  /** The trailing run is all blanks, and what precedes it is not a blank. */
  lemma {:induction false} TrailingBlanksBounds(s: string)
    ensures forall k :: |s| - TrailingBlanks(s) <= k < |s| ==> IsBlank(s[k])
    ensures TrailingBlanks(s) < |s| ==> !IsBlank(s[|s| - TrailingBlanks(s) - 1])
  {
    if s != [] && IsBlank(s[|s| - 1]) {
      TrailingBlanksBounds(s[..|s| - 1]);
    }
  }

  /** The number of trailing `#` characters. */
  function TrailingHashes(s: string): (n: nat)
    ensures n <= |s|
  {
    if s == [] || s[|s| - 1] != '#' then 0 else 1 + TrailingHashes(s[..|s| - 1])
  }

  /** The trailing run is all `#`, and what precedes it is not. */
  lemma {:induction false} TrailingHashesBounds(s: string)
    ensures forall k :: |s| - TrailingHashes(s) <= k < |s| ==> s[k] == '#'
    ensures TrailingHashes(s) < |s| ==> s[|s| - TrailingHashes(s) - 1] != '#'
  {
    if s != [] && s[|s| - 1] == '#' {
      TrailingHashesBounds(s[..|s| - 1]);
    }
  }

  /** Where a closing run starts in `rest`: trailing blanks, then trailing `#`, are cut off. */
  function ClosingCut(rest: string): (b: nat)
    ensures b <= |rest|
  {
    var a := |rest| - TrailingBlanks(rest);
    a - TrailingHashes(rest[..a])
  }

  /** Only blanks and `#` lie after the cut. */
  lemma ClosingCutBounds(rest: string)
    ensures forall k :: ClosingCut(rest) <= k < |rest| ==> IsBlank(rest[k]) || rest[k] == '#'
  {
    var a := |rest| - TrailingBlanks(rest);
    TrailingBlanksBounds(rest);
    TrailingHashesBounds(rest[..a]);
    forall k | ClosingCut(rest) <= k < a ensures rest[k] == '#' {
      assert rest[k] == rest[..a][k];
    }
  }

  lemma {:induction false} TrailingBlanksAppend(x: string, y: string)
    ensures TrailingBlanks(y) < |y| ==> TrailingBlanks(x + y) == TrailingBlanks(y)
    ensures TrailingBlanks(y) == |y| ==> TrailingBlanks(x + y) == |y| + TrailingBlanks(x)
    decreases |y|
  {
    if y == [] {
      assert x + y == x;
    } else if IsBlank(y[|y| - 1]) {
      assert (x + y)[..|x + y| - 1] == x + y[..|y| - 1];
      TrailingBlanksAppend(x, y[..|y| - 1]);
    }
  }

  lemma {:induction false} TrailingHashesAppend(x: string, y: string)
    ensures TrailingHashes(y) < |y| ==> TrailingHashes(x + y) == TrailingHashes(y)
    ensures TrailingHashes(y) == |y| ==> TrailingHashes(x + y) == |y| + TrailingHashes(x)
    decreases |y|
  {
    if y == [] {
      assert x + y == x;
    } else if y[|y| - 1] == '#' {
      assert (x + y)[..|x + y| - 1] == x + y[..|y| - 1];
      TrailingHashesAppend(x, y[..|y| - 1]);
    }
  }

  /**
   * Cutting the closing run of a whole line that has a blank before `rest`:
   * a cut inside `rest` is the same cut shifted, and a `rest` made only of the
   * closing run is cut at or before its start.
   */
  lemma ClosingCutAfterBlank(x: string, rest: string)
    requires x != [] && IsBlank(x[|x| - 1])
    ensures ClosingCut(rest) > 0 ==> ClosingCut(x + rest) == |x| + ClosingCut(rest)
    ensures ClosingCut(rest) == 0 ==> ClosingCut(x + rest) <= |x|
  {
    var line := x + rest;
    TrailingBlanksAppend(x, rest);
    var a := |rest| - TrailingBlanks(rest);
    if a > 0 {
      assert line[..|x| + a] == x + rest[..a];
      TrailingHashesAppend(x, rest[..a]);
      assert TrailingHashes(x) == 0;
    }
  }

  /** What the scanner finds on a heading line: the level and the content span `[textPos, textMax)`. */
  datatype AtxMatch = AtxMatch(level: nat, textPos: nat, textMax: nat)

  /**
   * The scanner's result, stated declaratively: at most 3 columns of indent,
   * a run of at most six `#`, then a space, a tab or the end of the line.
   * A closing run — trailing blanks, then trailing `#` — is cut only when a
   * blank precedes it; the span then ends after that blank.
   */
  function Scan(indent: nat, line: string): (r: Option<AtxMatch>)
    ensures r.Some? ==> r.value.level == r.value.textPos <= 6 && r.value.textPos <= r.value.textMax <= |line|
  {
    var h := HashRun(line);
    if indent >= 4 || h > 6 then None else ScanAfterHashes(line, h)
  }

  /** The rest of the scan, once the run of `h` hashes is known. */
  function ScanAfterHashes(line: string, h: nat): (r: Option<AtxMatch>)
    requires h <= |line|
    ensures r.Some? ==> r.value.level == r.value.textPos == h <= r.value.textMax <= |line|
  {
    if h == |line| then Some(AtxMatch(h, h, h))
    else if !IsBlank(line[h]) then None
    else
      var rest := line[h + 1..];
      var b := ClosingCut(rest);
      var textMax := if b == 0 then h else if IsBlank(rest[b - 1]) then h + 1 + b else |line|;
      Some(AtxMatch(h, h, textMax))
  }

  /**
   * What the scanner accepts: at most 3 columns of indent, at most six `#`,
   * then a blank or the end of the line; the level is the number of `#`.
   */
  lemma ScanAccepts(indent: nat, line: string)
    ensures Scan(indent, line).Some? <==>
      indent < 4 && HashRun(line) <= 6 && (HashRun(line) == |line| || IsBlank(line[HashRun(line)]))
    ensures Scan(indent, line).Some? ==> Scan(indent, line).value.level == Scan(indent, line).value.textPos == HashRun(line) <= 6
  {
  }

  /**
   * Where the content span lies: from the blank after the `#` run to at most
   * the end of the line; when it ends before the line does, it ends on a blank
   * and only blanks and `#` follow.
   */
  lemma ScanSpan(indent: nat, line: string)
    requires Scan(indent, line).Some?
    ensures var m := Scan(indent, line).value;
      && m.textPos <= m.textMax <= |line|
      && (m.textPos < |line| ==> IsBlank(line[m.textPos]))
      && (m.textPos < m.textMax < |line| ==>
            IsBlank(line[m.textMax - 1]) && forall k :: m.textMax <= k < |line| ==> IsBlank(line[k]) || line[k] == '#')
    ensures var m := Scan(indent, line).value; var p := ClosingCut(line);
      && (p <= m.textPos + 1 ==> m.textMax == m.textPos)
      && (p > m.textPos + 1 && IsBlank(line[p - 1]) ==> m.textMax == p)
      && (p > m.textPos + 1 && !IsBlank(line[p - 1]) ==> m.textMax == |line|)
  {
    ScanSpanTail(indent, line);
    ScanSpanCut(indent, line);
  }

  /** When the span stops short of the end, it ends on a blank and only blanks and `#` follow. */
  lemma ScanSpanTail(indent: nat, line: string)
    requires Scan(indent, line).Some?
    ensures var m := Scan(indent, line).value;
      && (m.textPos < |line| ==> IsBlank(line[m.textPos]))
      && (m.textPos < m.textMax < |line| ==>
            IsBlank(line[m.textMax - 1]) && forall k :: m.textMax <= k < |line| ==> IsBlank(line[k]) || line[k] == '#')
  {
    var h := HashRun(line);
    if h < |line| {
      var rest := line[h + 1..];
      var b := ClosingCut(rest);
      var textMax := if b == 0 then h else if IsBlank(rest[b - 1]) then h + 1 + b else |line|;
      assert Scan(indent, line) == Some(AtxMatch(h, h, textMax));
      ClosingCutBounds(rest);
      if h < textMax < |line| {
        assert textMax == h + 1 + b && line[textMax - 1] == rest[b - 1];
        forall k | textMax <= k < |line| ensures IsBlank(line[k]) || line[k] == '#' {
          assert line[k] == rest[k - h - 1];
        }
      }
    }
  }

  /** The span's end from the cut of the whole line: empty, at the cut, or the whole rest. */
  lemma ScanSpanCut(indent: nat, line: string)
    requires Scan(indent, line).Some?
    ensures var m := Scan(indent, line).value; var p := ClosingCut(line);
      && (p <= m.textPos + 1 ==> m.textMax == m.textPos)
      && (p > m.textPos + 1 && IsBlank(line[p - 1]) ==> m.textMax == p)
      && (p > m.textPos + 1 && !IsBlank(line[p - 1]) ==> m.textMax == |line|)
  {
    var h := HashRun(line);
    var m := Scan(indent, line).value;
    var p := ClosingCut(line);
    assert m == ScanAfterHashes(line, h).value;
    if h < |line| {
      var rest := line[h + 1..];
      var b := ClosingCut(rest);
      assert line[..h + 1] + rest == line;
      ClosingCutAfterBlank(line[..h + 1], rest);
      if b == 0 {
        assert m.textMax == h && p <= h + 1;
      } else {
        assert p == h + 1 + b && line[p - 1] == rest[b - 1];
        assert m.textMax == if IsBlank(rest[b - 1]) then p else |line|;
      }
    }
  }

  /** The rule's result: a heading node holding the span as unparsed inline content, consuming one line. */
  function Rule(indent: nat, line: string): (r: Option<(Node, nat)>)
    ensures r.Some? <==> Scan(indent, line).Some?
    ensures r.Some? ==> r.value.1 == 1 && r.value.0.FancyHeading? && r.value.0.level <= 6
    ensures r.Some? ==> var m := Scan(indent, line).value;
      r.value.0 == FancyHeading(m.level, [Inline(line[m.textPos..m.textMax])])
  {
    ScanAccepts(indent, line);
    match Scan(indent, line)
    case None => None
    case Some(m) => Some((FancyHeading(m.level, [Inline(line[m.textPos..m.textMax])]), 1))
  }

  /** The older revision also rejects a line whose first character is not `#`. */
  function RuleLegacy(indent: nat, line: string): (r: Option<(Node, nat)>)
    ensures r.Some? ==> r.value.0.FancyHeading? && 1 <= r.value.0.level <= 6
  {
    if line == [] || line[0] != '#' then None else Rule(indent, line)
  }

  /**
   * `FancyHeadingsRule::run` as a scanning loop: count `#` forwards, then a
   * backward pass over what follows the separator.
   */
  method Run(indent: nat, line: string) returns (r: Option<(Node, nat)>)
    ensures r == Rule(indent, line)
  {
    if indent >= 4 {
      return None;
    }
    var m := ScanLine(indent, line);
    match m {
      case None => r := None;
      case Some(m) => r := Some((FancyHeading(m.level, [Inline(line[m.textPos..m.textMax])]), 1));
    }
  }

  /** `FancyHeadingsRule::run` of the older revision, with its leading-`#` check. */
  method RunLegacy(indent: nat, line: string) returns (r: Option<(Node, nat)>)
    ensures r == RuleLegacy(indent, line)
  {
    if indent >= 4 {
      return None;
    }
    if line == [] || line[0] != '#' {
      return None;
    }
    var m := ScanLine(indent, line);
    match m {
      case None => r := None;
      case Some(m) => r := Some((FancyHeading(m.level, [Inline(line[m.textPos..m.textMax])]), 1));
    }
  }

  /** The two scanning loops the rule runs. */
  method ScanLine(indent: nat, line: string) returns (r: Option<AtxMatch>)
    requires indent < 4
    ensures r == Scan(indent, line)
  {
    var level := 0;
    var i := 0;
    while i < |line| && line[i] == '#'
      invariant i <= |line| && level == i <= 6
      invariant forall k :: 0 <= k < i ==> line[k] == '#'
    {
      level := level + 1;
      if level > 6 {
        assert HashRun(line) > 6 by { HashRunAtLeast(line, level); }
        return None;
      }
      i := i + 1;
    }
    assert level == HashRun(line) by { HashRunExact(line, level); }
    assert Scan(indent, line) == ScanAfterHashes(line, level);
    var textPos, front;
    if i == |line| {
      textPos, front := level, |line|;
    } else if IsBlank(line[i]) {
      textPos, front := i, i + 1;
    } else {
      return None;
    }
    var back := CutClosing(line, front);
    var textMax;
    if back > front {
      textMax := if IsBlank(line[back - 1]) then back else |line|;
    } else {
      textMax := textPos;
    }
    r := Some(AtxMatch(level, textPos, textMax));
  }

  /** The backward pass: skip trailing blanks, then trailing `#`, but never past `front`. */
  method CutClosing(line: string, front: nat) returns (back: nat)
    requires front <= |line|
    ensures back == front + ClosingCut(line[front..])
  {
    ghost var rest := line[front..];
    ghost var a := |rest| - TrailingBlanks(rest);
    ghost var b := a - TrailingHashes(rest[..a]);
    TrailingBlanksBounds(rest);
    TrailingHashesBounds(rest[..a]);
    back := |line|;
    while back > front && IsBlank(line[back - 1])
      invariant front + a <= back <= |line|
    {
      back := back - 1;
    }
    assert back == front + a;
    while back > front && line[back - 1] == '#'
      invariant front + b <= back <= front + a
    {
      back := back - 1;
    }
  }

  lemma {:induction false} HashRunAtLeast(s: string, n: nat)
    requires n <= |s| && forall k :: 0 <= k < n ==> s[k] == '#'
    ensures HashRun(s) >= n
  {
    if n > 0 {
      HashRunAtLeast(s[1..], n - 1);
    }
  }

  lemma HashRunExact(s: string, n: nat)
    requires n <= |s| && forall k :: 0 <= k < n ==> s[k] == '#'
    requires n == |s| || s[n] != '#'
    ensures HashRun(s) == n
  {
    HashRunAtLeast(s, n);
    HashRunBounds(s);
  }

  /** The older rule accepts exactly what the newer one does, on lines that start with `#`. */
  lemma LegacyAgrees(indent: nat, line: string)
    ensures RuleLegacy(indent, line) == if line != [] && line[0] == '#' then Rule(indent, line) else None
    ensures RuleLegacy(indent, line).Some? <==> line != [] && line[0] == '#' && Rule(indent, line).Some?
  {
  }

  /** Without a leading `#` check, the empty line is a heading of level 0 with empty content. */
  lemma EmptyLineIsLevelZero()
    ensures Scan(0, "") == Some(AtxMatch(0, 0, 0))
    ensures RuleLegacy(0, "") == None
  {
  }

  /** `####### This won't show up` is not a heading. */
  lemma SevenHashesRejected(line: string)
    requires |line| >= 7 && forall k :: 0 <= k < 7 ==> line[k] == '#'
    ensures forall indent: nat :: Scan(indent, line).None?
  {
    HashRunAtLeast(line, 7);
    forall indent: nat ensures Scan(indent, line).None? {
      ScanAccepts(indent, line);
    }
  }

  /** `##` and `## ##` have empty content, and `#foo` is no heading. */
  lemma ClosingRunExamples()
    ensures Scan(0, "##") == Some(AtxMatch(2, 2, 2))
    ensures Scan(0, "## ##") == Some(AtxMatch(2, 2, 2))
    ensures Scan(0, "#foo") == None
  {
    var line := "## ##";
    assert HashRun(line) == 2;
    assert line[3..] == "##";
    assert "##"[..1] == "#" && "#"[..0] == "";
    assert TrailingBlanks("##") == 0 && "##"[..2] == "##";
    assert TrailingHashes("##") == 2;
    assert ClosingCut("##") == 0;
  }

  /** `## foo ##`: the closing run is cut after the blank that precedes it, so the content is " foo ". */
  lemma ClosedHeadingExample()
    ensures Scan(0, "## foo ##") == Some(AtxMatch(2, 2, 7))
  {
    var line, rest := "## foo ##", "foo ##";
    assert HashRun(line) == 2;
    assert line[3..] == rest;
    assert TrailingBlanks(rest) == 0;
    assert rest[..6] == rest;
    assert TrailingHashes(rest) == 2 by {
      assert rest[..5] == "foo #" && rest[..4] == "foo ";
    }
  }

  /** `## foo##`: a closing run not preceded by a blank is kept, the content runs to the end of the line. */
  lemma UnclosedHeadingExample()
    ensures Scan(0, "## foo##") == Some(AtxMatch(2, 2, 8))
  {
    var line, rest := "## foo##", "foo##";
    assert HashRun(line) == 2;
    assert line[3..] == rest;
    assert TrailingBlanks(rest) == 0;
    assert rest[..5] == rest;
    assert TrailingHashes(rest) == 2 by {
      assert rest[..4] == "foo#" && rest[..3] == "foo";
    }
  }

  /** `# foo  `: trailing blanks without a closing run stay in the content. */
  lemma TrailingBlanksKeptExample()
    ensures Scan(0, "# foo  ") == Some(AtxMatch(1, 1, 7))
  {
    var line, rest := "# foo  ", "foo  ";
    assert HashRun(line) == 1;
    assert line[2..] == rest;
    assert TrailingBlanks(rest) == 2 by {
      assert rest[..4] == "foo " && rest[..3] == "foo";
    }
    assert TrailingHashes(rest[..3]) == 0;
  }
}
