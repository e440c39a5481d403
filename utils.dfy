/**
 * Paths and the small helpers of src/utils.rs: the title a file or directory
 * name gives, first-letter capitalisation, and `get_or_none`.
 */
module Utils {
  import opened Wrappers
  import opened Strings

  /** A path as its components, root first. */
  type Path = seq<string>

  /** `TitleConfig`: whether inferred titles are title-cased or only get a capital first letter. */
  datatype TitleConfig = TitleConfig(titleCase: bool, firstLetterCapitalized: bool)

  /** `TitleConfig::default()` */
  const DefaultTitleConfig := TitleConfig(false, true)

  /** The `titlecase` crate, which is not part of this model, as a parameter. */
  type TitleCase = string -> string

  /** `Path::file_name`: the last component, unless there is none or it is `..`. */
  function FileName(p: Path): Option<string> {
    if p == [] || p[|p| - 1] == ".." then None else Some(p[|p| - 1])
  }

  /** The index of the last occurrence of `c` in `s`, if any. */
  function LastIndexOf(s: string, c: char): (r: Option<nat>)
    ensures r.Some? ==> r.value < |s| && s[r.value] == c && c !in s[r.value + 1..]
    ensures r.None? <==> c !in s
  {
    if s == [] then None
    else if s[|s| - 1] == c then Some(|s| - 1)
    else
      var r := LastIndexOf(s[..|s| - 1], c);
      assert r.Some? ==> s[r.value + 1..] == s[..|s| - 1][r.value + 1..] + [s[|s| - 1]];
      assert s == s[..|s| - 1] + [s[|s| - 1]];
      r
  }

  /**
   * `Path::file_stem`: the file name before its last `.`, or the whole name
   * when it has no `.` or its only `.` is the first character.
   */
  function FileStem(p: Path): Option<string> {
    match FileName(p)
    case None => None
    case Some(name) =>
      match LastIndexOf(name, '.')
      case None => Some(name)
      case Some(i) => if i == 0 then Some(name) else Some(name[..i])
  }

  /**
   * A stem exists exactly when a file name does; it is a prefix of the name, empty
   * only for an empty name, and cut at the last `.` unless that `.` leads the name.
   */
  lemma FileStemIsPrefix(p: Path)
    ensures FileStem(p).Some? <==> FileName(p).Some?
    ensures FileStem(p).Some? ==> var name, stem := FileName(p).value, FileStem(p).value;
      && |stem| <= |name| && stem == name[..|stem|] && (name != [] ==> stem != [])
      && (|stem| < |name| ==> name[|stem|] == '.' && '.' !in name[|stem| + 1..])
      && ((|name| <= 1 || '.' !in name[1..]) ==> stem == name)
  {
    if FileName(p).Some? {
      var name := FileName(p).value;
      var r := LastIndexOf(name, '.');
      if r.Some? && r.value > 0 && |name| > 1 {
        assert name[1..][r.value - 1] == '.';
      }
    }
  }

  /** `capitalize_first_letter`: upper-case the first byte; slicing there needs a one-byte first character. */
  function CapitalizeFirstLetter(s: string): (r: string)
    requires s != [] && s[0] as int < 0x80
    ensures |r| == |s| && r[0] == AsciiUpper(s[0]) && r[1..] == s[1..]
  {
    [AsciiUpper(s[0])] + s[1..]
  }

  /** What `name_from_path` needs: a file stem, and a one-byte first character when it capitalises. */
  predicate NameDefined(p: Path, config: TitleConfig) {
    FileStem(p).Some?
    && (!config.titleCase && config.firstLetterCapitalized ==>
          FileStem(p).value != [] && FileStem(p).value[0] as int < 0x80)
  }

  /**
   * `name_from_path`: the file stem with every `-` turned into a space, then
   * title-cased, or else with a capital first letter, or else as it is.
   */
  function NameFromPath(p: Path, config: TitleConfig, titlecase: TitleCase): string
    requires NameDefined(p, config)
  {
    var deslugged := ReplaceChar(FileStem(p).value, '-', ' ');
    if config.titleCase then titlecase(deslugged)
    else if config.firstLetterCapitalized then CapitalizeFirstLetter(deslugged)
    else deslugged
  }

  /**
   * Title-casing wins over capitalising; with neither, the name is the stem
   * with its dashes turned into spaces; no dash survives outside title-casing.
   */
  lemma NameFromPathCases(p: Path, config: TitleConfig, titlecase: TitleCase)
    requires NameDefined(p, config)
    ensures var stem := FileStem(p).value; var name := NameFromPath(p, config, titlecase);
      && (config.titleCase ==> name == titlecase(ReplaceChar(stem, '-', ' ')))
      && (!config.titleCase && config.firstLetterCapitalized ==>
            |name| == |stem| && name[0] == AsciiUpper(if stem[0] == '-' then ' ' else stem[0])
            && forall i :: 1 <= i < |stem| ==> name[i] == if stem[i] == '-' then ' ' else stem[i])
      && (!config.titleCase && !config.firstLetterCapitalized ==> name == ReplaceChar(stem, '-', ' '))
      && (!config.titleCase ==> '-' !in name)
  {
    var stem := FileStem(p).value;
    var d := ReplaceChar(stem, '-', ' ');
    if !config.titleCase && config.firstLetterCapitalized {
      var name := CapitalizeFirstLetter(d);
      forall i | 1 <= i < |stem| ensures name[i] == d[i] {
        assert name[i] == name[1..][i - 1];
      }
      assert '-' !in name by {
        forall i | 0 <= i < |name| ensures name[i] != '-' {
          if i > 0 { assert name[i] == d[i]; }
        }
      }
    } else if !config.titleCase {
      assert forall i :: 0 <= i < |d| ==> d[i] != '-';
    }
  }

  /** A Markdown file's stem is its name without `.md`. */
  lemma MarkdownStem(dir: Path, stem: string)
    requires stem != [] && '.' !in stem
    ensures FileStem(dir + [stem + ".md"]) == Some(stem)
  {
    var name := stem + ".md";
    assert (dir + [name])[|dir + [name]| - 1] == name;
    assert name[|stem|] == '.' && name[|stem| + 1..] == "md";
    assert LastIndexOf(name, '.') == Some(|stem|);
    assert name[..|stem|] == stem;
  }

  /** The stem drops exactly the last extension, and a leading dot does not start one. */
  lemma FileStemExamples(dir: Path)
    ensures FileStem(dir + ["index.md"]) == Some("index")
    ensures FileStem(dir + [".hidden"]) == Some(".hidden")
    ensures FileStem(dir + ["setup"]) == Some("setup")
    ensures FileStem([]) == None
  {
    assert (dir + ["index.md"])[|dir| ] == "index.md";
    assert (dir + [".hidden"])[|dir|] == ".hidden";
    assert (dir + ["setup"])[|dir|] == "setup";
    assert LastIndexOf("index.md", '.') == Some(5) by {
      assert "index.md"[5] == '.' && "index.md"[6..] == "md";
    }
    assert "index.md"[..5] == "index";
    assert LastIndexOf(".hidden", '.') == Some(0) by {
      assert ".hidden"[1..] == "hidden";
    }
  }

  /** `get_or_none`: nothing for an empty list, otherwise the same items. */
  function GetOrNone<T>(items: seq<T>): (r: Option<seq<T>>)
    ensures r.None? <==> items == []
    ensures r.Some? ==> r.value == items
  {
    if items == [] then None else Some(items)
  }

  /** What `get_or_none` produced flattens back to the list it was given. */
  lemma GetOrNoneRoundTrip<T>(items: seq<T>)
    ensures GetOrNone(items).GetOr([]) == items
    ensures GetOrNone(items) != Some([])
  {
  }
}
