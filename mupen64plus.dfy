// src/mupen64plus.rs: the Nintendo 64 ROM scanner for mupen64plus. The
// `roms=` line of the `[Paths]` section of `mupen64plus-qt.conf` lists ROM
// directories separated by `|`; each ROM becomes an entry launched through
// `mupen64plus --fullscreen`. File contents, existing files and existing
// directories are inputs.
module Mupen64plus {
  import opened Options
  import opened Strings
  import opened Paths
  import opened Model
  import opened Roms

  // ---------------------------------------------------------------- extensions

  const N64_EXTENSIONS: set<string> := {"z64", "n64", "v64", "zip"}

  /** `is_valid_extension`. */
  predicate IsValidExtension(p: Path)
  {
    match Extension(p)
    case None => false
    case Some(e) => ToLower(e) in N64_EXTENSIONS
  }

  /** A ROM file is accepted exactly when its extension, lowercased, is an N64 one. */
  lemma ValidExtensionOfFile(dir: Path, stem: string, ext: string)
    requires dir == [] || dir[|dir| - 1] == '/'
    requires stem != [] && '/' !in stem && ext != [] && '.' !in ext && '/' !in ext
    ensures IsValidExtension(dir + stem + "." + ext) <==> ToLower(ext) in N64_EXTENSIONS
  {
    FileInDirectory(dir, stem, ext);
  }

  /** A `.7z` archive is not a mupen64plus ROM. */
  lemma SevenZipNotMatched(dir: Path, stem: string)
    requires dir == [] || dir[|dir| - 1] == '/'
    requires stem != [] && '/' !in stem
    ensures !IsValidExtension(dir + stem + ".7z")
  {
    ValidExtensionOfFile(dir, stem, "7z");
    assert ToLower("7z") == "7z";
    assert dir + stem + "." + "7z" == dir + stem + ".7z";
  }

  // ---------------------------------------------------------------- configuration

  const ROMS_KEY := "roms="

  /** Qt's marker for an unset value. */
  const INVALID_MARKER := "@Invalid()"

  /**
   * The directories the `|`-separated pieces name, in order: each piece
   * trimmed, empty pieces skipped, `~` expanded, and only existing
   * directories kept.
   */
  function SegmentDirs(segments: seq<string>, home: Option<Path>, dirs: set<Path>): (r: seq<Path>)
    ensures |r| <= |segments|
    ensures forall i :: 0 <= i < |r| ==> r[i] in dirs
  {
    if segments == [] then []
    else
      var segment := Trim(segments[0]);
      var rest := SegmentDirs(segments[1..], home, dirs);
      if segment != [] && ExpandTilde(segment, home) in dirs then [ExpandTilde(segment, home)] + rest
      else rest
  }

  /** The directories of a `roms=` value; a value holding the Qt marker gives none. */
  function ValueDirs(value: string, home: Option<Path>, dirs: set<Path>): (r: seq<Path>)
    ensures Contains(value, INVALID_MARKER) ==> r == []
    ensures forall i :: 0 <= i < |r| ==> r[i] in dirs
  {
    if Contains(value, INVALID_MARKER) then [] else SegmentDirs(Split(value, '|'), home, dirs)
  }

  /** What one trimmed line does to the scan. */
  datatype LineEffect = Skip | EnterSection(paths: bool) | RomsLine(value: string)

  function LineEffectOf(t: string, inPaths: bool): (r: LineEffect)
    ensures r.RomsLine? ==> inPaths && StartsWith(t, ROMS_KEY) && r.value == TrimMatchesChar(t[|ROMS_KEY|..], '"')
    ensures r.EnterSection? <==> !IsComment(t) && IsHeader(t)
  {
    if IsComment(t) then Skip
    else if IsHeader(t) then EnterSection(t == "[Paths]")
    else if inPaths && StartsWith(t, ROMS_KEY) then RomsLine(TrimMatchesChar(t[|ROMS_KEY|..], '"'))
    else Skip
  }

  /**
   * What `parse_mupen64plus_qt_config` returns for the remaining lines,
   * given whether they start inside `[Paths]`: the directories of the first
   * `roms=` line there; later lines are not read.
   */
  function ConfigDirs(lines: seq<string>, inPaths: bool, home: Option<Path>, dirs: set<Path>): (r: seq<Path>)
    ensures forall i :: 0 <= i < |r| ==> r[i] in dirs
    decreases |lines|
  {
    if lines == [] then []
    else
      match LineEffectOf(Trim(lines[0]), inPaths)
      case Skip => ConfigDirs(lines[1..], inPaths, home, dirs)
      case EnterSection(p) => ConfigDirs(lines[1..], p, home, dirs)
      case RomsLine(v) => ValueDirs(v, home, dirs)
  }

  /**
   * `parse_mupen64plus_qt_config`: `content` is `None` when the file cannot
   * be read; `dirs` are the existing directories, `home` the home directory.
   */
  method ParseConfig(content: Option<string>, home: Option<Path>, dirs: set<Path>) returns (romDirs: seq<Path>)
    ensures content.None? ==> romDirs == []
    ensures content.Some? ==> romDirs == ConfigDirs(Lines(content.value), false, home, dirs)
    ensures forall i :: 0 <= i < |romDirs| ==> romDirs[i] in dirs
  {
    if content.None? {
      return [];
    }
    var lines := Lines(content.value);
    var inPaths := false;
    romDirs := [];
    var i := 0;
    while i < |lines|
      invariant 0 <= i <= |lines|
      invariant romDirs == []
      invariant ConfigDirs(lines[i..], inPaths, home, dirs) == ConfigDirs(lines, false, home, dirs)
    {
      var trimmed := Trim(lines[i]);
      ConfigDirsStep(lines, i, inPaths, home, dirs);
      if IsComment(trimmed) {
        i := i + 1;
        continue;
      }
      if IsHeader(trimmed) {
        inPaths := trimmed == "[Paths]";
        i := i + 1;
        continue;
      }
      if inPaths && StartsWith(trimmed, ROMS_KEY) {
        var value := TrimMatchesChar(trimmed[|ROMS_KEY|..], '"');
        if Contains(value, INVALID_MARKER) {
          return [];
        }
        romDirs := CollectSegmentDirs(Split(value, '|'), home, dirs);
        break;
      }
      i := i + 1;
    }
  }

  /** One line of the scan, unfolded. */
  lemma ConfigDirsStep(lines: seq<string>, i: nat, inPaths: bool, home: Option<Path>, dirs: set<Path>)
    requires i < |lines|
    ensures var e := LineEffectOf(Trim(lines[i]), inPaths);
      ConfigDirs(lines[i..], inPaths, home, dirs) ==
        if e.Skip? then ConfigDirs(lines[i + 1..], inPaths, home, dirs)
        else if e.EnterSection? then ConfigDirs(lines[i + 1..], e.paths, home, dirs)
        else ValueDirs(e.value, home, dirs)
  {
    assert lines[i..][0] == lines[i] && lines[i..][1..] == lines[i + 1..];
  }

  /** The `for segment in value.split('|')` loop of `parse_mupen64plus_qt_config`. */
  method CollectSegmentDirs(segments: seq<string>, home: Option<Path>, dirs: set<Path>) returns (found: seq<Path>)
    ensures found == SegmentDirs(segments, home, dirs)
  {
    found := [];
    var j := 0;
    while j < |segments|
      invariant 0 <= j <= |segments|
      invariant found + SegmentDirs(segments[j..], home, dirs) == SegmentDirs(segments, home, dirs)
    {
      assert segments[j..][0] == segments[j] && segments[j..][1..] == segments[j + 1..];
      var segment := Trim(segments[j]);
      if segment == [] {
        j := j + 1;
        continue;
      }
      var expanded := ExpandTilde(segment, home);
      if expanded in dirs {
        ConcatAssoc(found, [expanded], SegmentDirs(segments[j + 1..], home, dirs));
        found := found + [expanded];
      }
      j := j + 1;
    }
    assert segments[j..] == [];
    assert found + [] == found;
  }

  /** Outside `[Paths]` no line yields a directory until a `[Paths]` header. */
  lemma {:induction false} OnlyPathsSection(lines: seq<string>, home: Option<Path>, dirs: set<Path>)
    requires forall i :: 0 <= i < |lines| ==> Trim(lines[i]) != "[Paths]"
    ensures ConfigDirs(lines, false, home, dirs) == []
    decreases |lines|
  {
    if lines != [] {
      assert forall i :: 0 <= i < |lines[1..]| ==> Trim(lines[1..][i]) != "[Paths]" by {
        forall i | 0 <= i < |lines[1..]| ensures Trim(lines[1..][i]) != "[Paths]" {
          assert lines[1..][i] == lines[i + 1];
        }
      }
      OnlyPathsSection(lines[1..], home, dirs);
    }
  }

  /** The first `roms=` line in `[Paths]` decides; the lines after it are not read. */
  lemma FirstRomsLineWins(line: string, rest: seq<string>, home: Option<Path>, dirs: set<Path>)
    requires var t := Trim(line); !IsComment(t) && !IsHeader(t) && StartsWith(t, ROMS_KEY)
    ensures ConfigDirs([line] + rest, true, home, dirs) ==
      ValueDirs(TrimMatchesChar(Trim(line)[|ROMS_KEY|..], '"'), home, dirs)
  {
  }

  /** A `roms=` value holding the Qt marker empties the whole result. */
  lemma InvalidMarkerGivesNothing(line: string, rest: seq<string>, home: Option<Path>, dirs: set<Path>)
    requires var t := Trim(line); !IsComment(t) && !IsHeader(t) && StartsWith(t, ROMS_KEY)
    requires Contains(TrimMatchesChar(Trim(line)[|ROMS_KEY|..], '"'), INVALID_MARKER)
    ensures ConfigDirs([line] + rest, true, home, dirs) == []
  {
  }

  /** The pieces of two lists of segments contribute separately, in order. */
  lemma {:induction false} SegmentDirsAppend(a: seq<string>, b: seq<string>, home: Option<Path>, dirs: set<Path>)
    ensures SegmentDirs(a + b, home, dirs) == SegmentDirs(a, home, dirs) + SegmentDirs(b, home, dirs)
    decreases |a|
  {
    if a == [] {
      assert a + b == b;
    } else {
      assert (a + b)[0] == a[0] && (a + b)[1..] == a[1..] + b;
      SegmentDirsAppend(a[1..], b, home, dirs);
    }
  }

  /** An empty or blank segment contributes nothing, as between `||`. */
  lemma BlankSegmentSkipped(a: seq<string>, blank: string, b: seq<string>, home: Option<Path>, dirs: set<Path>)
    requires Trim(blank) == []
    ensures SegmentDirs(a + [blank] + b, home, dirs) == SegmentDirs(a, home, dirs) + SegmentDirs(b, home, dirs)
  {
    assert a + [blank] + b == a + ([blank] + b);
    SegmentDirsAppend(a, [blank] + b, home, dirs);
    assert ([blank] + b)[0] == blank && ([blank] + b)[1..] == b;
  }

  /** A segment naming a directory that does not exist contributes nothing. */
  lemma MissingSegmentSkipped(a: seq<string>, missing: string, b: seq<string>, home: Option<Path>, dirs: set<Path>)
    requires ExpandTilde(Trim(missing), home) !in dirs
    ensures SegmentDirs(a + [missing] + b, home, dirs) == SegmentDirs(a, home, dirs) + SegmentDirs(b, home, dirs)
  {
    assert a + [missing] + b == a + ([missing] + b);
    SegmentDirsAppend(a, [missing] + b, home, dirs);
    assert ([missing] + b)[0] == missing && ([missing] + b)[1..] == b;
  }

  /** A directory as it would be written into the configuration by hand. */
  predicate PlainDir(d: Path, dirs: set<Path>)
  {
    d != [] && Trim(d) == d && !StartsWith(d, "~") && '|' !in d && d in dirs
  }

  /** Existing, plainly written directories are all kept, in order. */
  lemma {:induction false} SegmentDirsOfPlainDirs(ds: seq<Path>, home: Option<Path>, dirs: set<Path>)
    requires forall i :: 0 <= i < |ds| ==> PlainDir(ds[i], dirs)
    ensures SegmentDirs(ds, home, dirs) == ds
  {
    if ds != [] {
      SegmentDirsOfPlainDirs(ds[1..], home, dirs);
      assert ds == [ds[0]] + ds[1..];
    }
  }

  /**
   * A `[Paths]` header followed by a `roms=` line yields that line's
   * directories, whatever follows.
   */
  lemma RomsLineAfterPathsHeader(value: string, rest: seq<string>, home: Option<Path>, dirs: set<Path>)
    requires value == [] || !IsWhitespace(value[|value| - 1])
    ensures ConfigDirs(["[Paths]"] + ([ROMS_KEY + value] + rest), false, home, dirs) ==
      ValueDirs(TrimMatchesChar(value, '"'), home, dirs)
  {
    RomsLineInPaths(value, rest, home, dirs);
    HeaderEntersSection("[Paths]", [ROMS_KEY + value] + rest, false, home, dirs);
  }

  /** Inside `[Paths]`, a `roms=` line decides, whatever follows. */
  lemma RomsLineInPaths(value: string, rest: seq<string>, home: Option<Path>, dirs: set<Path>)
    requires value == [] || !IsWhitespace(value[|value| - 1])
    ensures ConfigDirs([ROMS_KEY + value] + rest, true, home, dirs) == ValueDirs(TrimMatchesChar(value, '"'), home, dirs)
  {
    RomsLineTrimmed(value);
    RomsLineEffect(ROMS_KEY + value, value);
    TrimmedLineDecides(ROMS_KEY + value, TrimMatchesChar(value, '"'), rest, home, dirs);
  }

  /** A `roms=` line whose value does not end in whitespace is its own trim. */
  lemma RomsLineTrimmed(value: string)
    requires value == [] || !IsWhitespace(value[|value| - 1])
    ensures Trim(ROMS_KEY + value) == ROMS_KEY + value
  {
    var line := ROMS_KEY + value;
    assert line[0] == 'r' && line[|line| - 1] == (if value == [] then '=' else value[|value| - 1]);
    TrimOfEnds(line);
  }

  /** Inside `[Paths]` a `roms=` line is classified by its unquoted value. */
  lemma RomsLineEffect(line: string, value: string)
    requires line == ROMS_KEY + value
    ensures LineEffectOf(line, true) == RomsLine(TrimMatchesChar(value, '"'))
  {
    assert line[0] == 'r';
    assert line[|ROMS_KEY|..] == value;
  }

  /** A trimmed `roms=` line ends the scan with its value's directories. */
  lemma TrimmedLineDecides(line: string, value: string, rest: seq<string>, home: Option<Path>, dirs: set<Path>)
    requires Trim(line) == line && LineEffectOf(line, true) == RomsLine(value)
    ensures ConfigDirs([line] + rest, true, home, dirs) == ValueDirs(value, home, dirs)
  {
    assert ([line] + rest)[0] == line;
  }

  /** A section header switches the scan into or out of `[Paths]`. */
  lemma HeaderEntersSection(h: string, more: seq<string>, inPaths: bool, home: Option<Path>, dirs: set<Path>)
    requires h != [] && h[0] == '[' && h[|h| - 1] == ']'
    ensures ConfigDirs([h] + more, inPaths, home, dirs) == ConfigDirs(more, h == "[Paths]", home, dirs)
  {
    TrimOfEnds(h);
    assert ([h] + more)[0] == h && ([h] + more)[1..] == more;
  }

  /** The `roms=` value listing `ds`, separated by `|`, quoted or bare. */
  function ListedValue(ds: seq<Path>, quoted: bool): string
  {
    if quoted then "\"" + Strings.Join(ds, "|") + "\"" else Strings.Join(ds, "|")
  }

  /** Directories listed by hand in one of the two spellings. */
  predicate Listable(ds: seq<Path>, dirs: set<Path>)
  {
    ds != [] && (forall i :: 0 <= i < |ds| ==> PlainDir(ds[i], dirs)) &&
    ds[0][0] != '"' && ds[|ds| - 1][|ds[|ds| - 1]| - 1] != '"' &&
    !Contains(Strings.Join(ds, "|"), INVALID_MARKER)
  }

  /**
   * A configuration `[Paths]` / `roms=d1|d2|…`, with the value quoted or
   * not, yields exactly the listed directories when they exist.
   */
  lemma PathsSectionListsDirs(ds: seq<Path>, quoted: bool, rest: seq<string>, home: Option<Path>, dirs: set<Path>)
    requires Listable(ds, dirs)
    ensures ConfigDirs(["[Paths]"] + ([ROMS_KEY + ListedValue(ds, quoted)] + rest), false, home, dirs) == ds
  {
    ListedValueUnquotes(ds, quoted, dirs);
    RomsLineAfterPathsHeader(ListedValue(ds, quoted), rest, home, dirs);
    ValueDirsOfListed(ds, home, dirs);
  }

  /** The listed value does not end in whitespace, and unquoting gives the bare list. */
  lemma ListedValueUnquotes(ds: seq<Path>, quoted: bool, dirs: set<Path>)
    requires Listable(ds, dirs)
    ensures var value := ListedValue(ds, quoted);
      value != [] && !IsWhitespace(value[|value| - 1]) && TrimMatchesChar(value, '"') == Strings.Join(ds, "|")
  {
    ListedEnds(ds, dirs);
    QuotedEnds(Strings.Join(ds, "|"), quoted);
    TrimQuotes(Strings.Join(ds, "|"), quoted);
  }

  /** The bare list starts and ends like its first and last directory. */
  lemma ListedEnds(ds: seq<Path>, dirs: set<Path>)
    requires Listable(ds, dirs)
    ensures var joined := Strings.Join(ds, "|");
      joined != [] && joined[0] != '"' && joined[|joined| - 1] != '"' && !IsWhitespace(joined[|joined| - 1])
  {
    var joined := Strings.Join(ds, "|");
    var last := ds[|ds| - 1];
    assert PlainDir(ds[0], dirs) && PlainDir(last, dirs);
    JoinEnds(ds, "|");
    assert joined[0] == ds[0][0];
    assert joined[|joined| - |last|..][|last| - 1] == joined[|joined| - 1];
  }

  /** Quoting keeps the value's end free of whitespace. */
  lemma QuotedEnds(s: string, quoted: bool)
    requires s != [] && !IsWhitespace(s[|s| - 1])
    ensures var value := if quoted then "\"" + s + "\"" else s;
      value != [] && !IsWhitespace(value[|value| - 1])
  {
  }

  /** The bare list splits back into the directories, all of which are kept. */
  lemma ValueDirsOfListed(ds: seq<Path>, home: Option<Path>, dirs: set<Path>)
    requires Listable(ds, dirs)
    ensures ValueDirs(Strings.Join(ds, "|"), home, dirs) == ds
  {
    SplitJoin(ds, '|');
    SegmentDirsOfPlainDirs(ds, home, dirs);
  }

  /** A join begins with its first part and ends with its last. */
  lemma {:induction false} JoinEnds(parts: seq<string>, sep: string)
    requires parts != []
    ensures StartsWith(Strings.Join(parts, sep), parts[0])
    ensures EndsWith(Strings.Join(parts, sep), parts[|parts| - 1])
    decreases |parts|
  {
    if |parts| > 1 {
      JoinEnds(parts[1..], sep);
    }
  }

  /** Stripping the quotes from a quoted or bare value gives the bare value. */
  lemma TrimQuotes(s: string, quoted: bool)
    requires s != [] && s[0] != '"' && s[|s| - 1] != '"'
    ensures TrimMatchesChar(if quoted then "\"" + s + "\"" else s, '"') == s
  {
    if quoted {
      TrimMatchesCharAround('"', s);
    } else {
      TrimMatchesCharNone('"', s);
    }
  }

  // ---------------------------------------------------------------- entries

  /** The launch command. */
  function N64Exec(path: Path): (r: string)
    ensures StartsWith(r, "mupen64plus --fullscreen \"") && EndsWith(r, "\"" + path + "\"")
  {
    var r := "mupen64plus --fullscreen " + ("\"" + path + "\"");
    assert r == "mupen64plus --fullscreen \"" + (path + "\"");
    r
  }

  /** `process_rom`: always an entry, titled by the saturating rule and keyed `mupen64plus:<file name>`. */
  function ProcessRom(path: Path, id: Uuid, existing: set<Path>): (r: AppEntry)
    ensures r.name == Title(StemOrEmpty(path), SaturatingI32) && NoBrackets(r.name)
    ensures r.exec == N64Exec(path) && r.icon == FindCover(path, existing)
    ensures r.launchKey == Some("mupen64plus:" + FileNameOrEmpty(path)) && r.gameExecutable == None
  {
    RomEntry(path, SaturatingI32, N64Exec(path), "mupen64plus:", id, existing)
  }

  /** A ROM `<name> <tags>.<ext>` is listed as `name`, keyed by its whole file name. */
  lemma ProcessRomOfTaggedFile(dir: Path, file: string, name: string, ts: seq<Tag>, ext: string,
                               id: Uuid, existing: set<Path>)
    requires dir == [] || dir[|dir| - 1] == '/'
    requires name != [] && !IsWhitespace(name[0]) && !IsWhitespace(name[|name| - 1])
    requires NoBrackets(name) && PlainTags(ts) && '/' !in name + Tags(ts)
    requires ext != [] && '.' !in ext && '/' !in ext
    requires file == (name + Tags(ts)) + "." + ext
    ensures ProcessRom(dir + file, id, existing).name == name
    ensures ProcessRom(dir + file, id, existing).launchKey == Some("mupen64plus:" + file)
  {
    var path := dir + (name + Tags(ts)) + "." + ext;
    assert dir + file == path;
    RomEntryOfTaggedFile(dir, name, ts, ext, SaturatingI32, N64Exec(path), "mupen64plus:", id, existing);
  }
}
