// src/snes9x.rs: the SNES ROM scanner. The configuration files' `[Files]`
// section names the last ROM directory; directories from every
// configuration are sorted and deduplicated; each ROM becomes an entry
// launched through `snes9x` or `snes9x-gtk`. File contents, existing files
// and existing directories are inputs.
module Snes9x {
  import opened Options
  import opened Strings
  import opened Sorting
  import opened Paths
  import opened Model
  import opened Roms
  import PathOrder

  // ---------------------------------------------------------------- extensions

  const SNES_EXTENSIONS: set<string> := {"sfc", "smc", "fig", "swc", "bs", "st"}

  /** `is_valid_extension`. */
  predicate IsValidExtension(p: Path)
  {
    match Extension(p)
    case None => false
    case Some(e) => ToLower(e) in SNES_EXTENSIONS
  }

  /** A ROM file is accepted exactly when its extension, lowercased, is a SNES one. */
  lemma ValidExtensionOfFile(dir: Path, stem: string, ext: string)
    requires dir == [] || dir[|dir| - 1] == '/'
    requires stem != [] && '/' !in stem && ext != [] && '.' !in ext && '/' !in ext
    ensures IsValidExtension(dir + stem + "." + ext) <==> ToLower(ext) in SNES_EXTENSIONS
  {
    FileInDirectory(dir, stem, ext);
  }

  /** A file without an extension is never a ROM. */
  lemma NoExtensionNoRom(p: Path)
    requires Extension(p).None?
    ensures !IsValidExtension(p)
  {
  }

  // ---------------------------------------------------------------- configuration

  /** A key starting `lastdirectory`, in any case. */
  predicate IsDirectoryKey(t: string)
  {
    StartsWith(ToLower(t), "lastdirectory")
  }

  /**
   * The directory a `LastDirectory` line names: the text after its first
   * `=`, trimmed, then stripped of `"` and of `'`; `None` when there is no
   * `=` or nothing is left.
   */
  function DirectoryValue(trimmed: string): (r: Option<string>)
    ensures r.Some? ==> r.value != [] && r.value[0] != '\'' && r.value[|r.value| - 1] != '\''
    ensures '=' !in trimmed ==> r.None?
  {
    match FindChar(trimmed, '=')
    case None => None
    case Some(eq) =>
      var v := TrimMatchesChar(TrimMatchesChar(Trim(trimmed[eq + 1..]), '"'), '\'');
      if v == [] then None else Some(v)
  }

  /** What one trimmed line does to the scan. */
  datatype LineEffect = Skip | EnterSection(files: bool) | Found(dir: Path)

  function LineEffectOf(t: string, inFiles: bool, home: Option<Path>, dirs: set<Path>): (r: LineEffect)
    ensures r.Found? ==> r.dir in dirs
  {
    if IsComment(t) then Skip
    else if IsHeader(t) then EnterSection(t == "[Files]")
    else if inFiles && IsDirectoryKey(t) && DirectoryValue(t).Some? && ExpandTilde(DirectoryValue(t).value, home) in dirs then
      Found(ExpandTilde(DirectoryValue(t).value, home))
    else Skip
  }

  /**
   * What `parse_snes9x_config` returns for the remaining lines, given
   * whether they start inside `[Files]`: the first directory line there
   * whose expansion is an existing directory, and nothing else.
   */
  function ConfigDirs(lines: seq<string>, inFiles: bool, home: Option<Path>, dirs: set<Path>): (r: seq<Path>)
    ensures |r| <= 1
    ensures r != [] ==> r[0] in dirs
    decreases |lines|
  {
    if lines == [] then []
    else
      match LineEffectOf(Trim(lines[0]), inFiles, home, dirs)
      case Skip => ConfigDirs(lines[1..], inFiles, home, dirs)
      case EnterSection(files) => ConfigDirs(lines[1..], files, home, dirs)
      case Found(d) => [d]
  }

  /**
   * `parse_snes9x_config`: `content` is `None` when the file cannot be read;
   * `dirs` are the existing directories, `home` the home directory.
   */
  method ParseConfig(content: Option<string>, home: Option<Path>, dirs: set<Path>) returns (romDirs: seq<Path>)
    ensures content.None? ==> romDirs == []
    ensures content.Some? ==> romDirs == ConfigDirs(Lines(content.value), false, home, dirs)
    ensures |romDirs| <= 1 && (romDirs != [] ==> romDirs[0] in dirs)
  {
    if content.None? {
      return [];
    }
    var lines := Lines(content.value);
    var inFiles := false;
    romDirs := [];
    var i := 0;
    while i < |lines|
      invariant 0 <= i <= |lines|
      invariant romDirs == []
      invariant ConfigDirs(lines[i..], inFiles, home, dirs) == ConfigDirs(lines, false, home, dirs)
    {
      var trimmed := Trim(lines[i]);
      ghost var effect := LineEffectOf(trimmed, inFiles, home, dirs);
      assert ConfigDirs(lines[i..], inFiles, home, dirs) ==
        match effect
        case Skip => ConfigDirs(lines[i + 1..], inFiles, home, dirs)
        case EnterSection(files) => ConfigDirs(lines[i + 1..], files, home, dirs)
        case Found(d) => [d]
      by {
        assert lines[i..][0] == lines[i] && lines[i..][1..] == lines[i + 1..];
      }
      if IsComment(trimmed) {
        i := i + 1;
        continue;
      }
      if IsHeader(trimmed) {
        inFiles := trimmed == "[Files]";
        i := i + 1;
        continue;
      }
      if inFiles && IsDirectoryKey(trimmed) {
        var value := DirectoryValue(trimmed);
        if value.Some? {
          var expanded := ExpandTilde(value.value, home);
          if expanded in dirs {
            romDirs := [expanded];
            break;
          }
        }
      }
      i := i + 1;
    }
  }

  /** Outside `[Files]` no line yields a directory until a `[Files]` header. */
  lemma {:induction false} OnlyFilesSection(lines: seq<string>, home: Option<Path>, dirs: set<Path>)
    requires forall i :: 0 <= i < |lines| ==> Trim(lines[i]) != "[Files]"
    ensures ConfigDirs(lines, false, home, dirs) == []
    decreases |lines|
  {
    if lines != [] {
      assert forall i :: 0 <= i < |lines[1..]| ==> Trim(lines[1..][i]) != "[Files]" by {
        forall i | 0 <= i < |lines[1..]| ensures Trim(lines[1..][i]) != "[Files]" {
          assert lines[1..][i] == lines[i + 1];
        }
      }
      OnlyFilesSection(lines[1..], home, dirs);
    }
  }

  /** Comment lines are skipped wherever they are. */
  lemma CommentSkipped(c: string, rest: seq<string>, inFiles: bool, home: Option<Path>, dirs: set<Path>)
    requires IsComment(Trim(c))
    ensures ConfigDirs([c] + rest, inFiles, home, dirs) == ConfigDirs(rest, inFiles, home, dirs)
  {
    assert ([c] + rest)[1..] == rest;
  }

  /** The first usable directory line wins; later lines are not read. */
  lemma FirstDirectoryWins(line: string, rest: seq<string>, home: Option<Path>, dirs: set<Path>)
    requires var t := Trim(line);
      !IsComment(t) && !IsHeader(t) && IsDirectoryKey(t) && DirectoryValue(t).Some? &&
      ExpandTilde(DirectoryValue(t).value, home) in dirs
    ensures ConfigDirs([line] + rest, true, home, dirs) == [ExpandTilde(DirectoryValue(Trim(line)).value, home)]
  {
  }

  /** A directory line whose directory does not exist is passed over. */
  lemma MissingDirectorySkipped(line: string, rest: seq<string>, home: Option<Path>, dirs: set<Path>)
    requires var t := Trim(line);
      !IsComment(t) && !IsHeader(t) && (DirectoryValue(t).None? || ExpandTilde(DirectoryValue(t).value, home) !in dirs)
    ensures ConfigDirs([line] + rest, true, home, dirs) == ConfigDirs(rest, true, home, dirs)
  {
    assert ([line] + rest)[1..] == rest;
  }

  // ---------------------------------------------------------------- directories

  /** The configured directories of every configuration file, in order. */
  function AllConfigDirs(configs: seq<Option<string>>, home: Option<Path>, dirs: set<Path>): seq<Path>
  {
    if configs == [] then []
    else
      var here := if configs[0].None? then [] else ConfigDirs(Lines(configs[0].value), false, home, dirs);
      here + AllConfigDirs(configs[1..], home, dirs)
  }

  /** The directories of the configuration files from `i` on: those of file `i`, then the rest. */
  lemma AllConfigDirsStep(configs: seq<Option<string>>, i: nat, home: Option<Path>, dirs: set<Path>)
    requires i < |configs|
    ensures AllConfigDirs(configs[i..], home, dirs) ==
      (if configs[i].None? then [] else ConfigDirs(Lines(configs[i].value), false, home, dirs)) +
      AllConfigDirs(configs[i + 1..], home, dirs)
  {
    assert configs[i..][0] == configs[i] && configs[i..][1..] == configs[i + 1..];
  }

  /** `rom_dirs.sort(); rom_dirs.dedup();` on `PathBuf`s. */
  function SortAndDedup(found: seq<Path>): seq<Path>
  {
    DedupBy(SortBy(found, PathOrder.PathCmp), PathOrder.SamePath)
  }

  /**
   * Steps 1 and 2 of `scan_snes9x_games`: every configuration file's
   * directories appended, then sorted and deduplicated.
   */
  method CollectRomDirectories(configs: seq<Option<string>>, home: Option<Path>, dirs: set<Path>) returns (romDirs: seq<Path>)
    ensures romDirs == SortAndDedup(AllConfigDirs(configs, home, dirs))
  {
    var found: seq<Path> := [];
    var i := 0;
    while i < |configs|
      invariant 0 <= i <= |configs|
      invariant found + AllConfigDirs(configs[i..], home, dirs) == AllConfigDirs(configs, home, dirs)
    {
      var more := ParseConfig(configs[i], home, dirs);
      AllConfigDirsStep(configs, i, home, dirs);
      ConcatAssoc(found, more, AllConfigDirs(configs[i + 1..], home, dirs));
      found := found + more;
      i := i + 1;
    }
    assert configs[i..] == [];
    assert found + [] == found;
    romDirs := SortAndDedup(found);
  }

  /**
   * The directories come out in path order with no path twice, each is one
   * that was found, and every found directory is represented.
   */
  lemma SortAndDedupSpec(found: seq<Path>)
    ensures forall i, j :: 0 <= i < j < |SortAndDedup(found)| ==>
      PathOrder.PathCmp(SortAndDedup(found)[i], SortAndDedup(found)[j]) == Less
    ensures forall i, j :: 0 <= i < j < |SortAndDedup(found)| ==>
      !PathOrder.SamePath(SortAndDedup(found)[i], SortAndDedup(found)[j])
    ensures multiset(SortAndDedup(found)) <= multiset(found)
    ensures forall d :: d in found ==> exists k :: 0 <= k < |SortAndDedup(found)| && PathOrder.SamePath(d, SortAndDedup(found)[k])
  {
    var cmp := PathOrder.PathCmp;
    var same := PathOrder.SamePath;
    var sorted := SortBy(found, cmp);
    var r := DedupBy(sorted, same);
    PathOrder.PathCmpIsTotalOrder();
    SortDedupDistinct(found, cmp, same);
    SortByPermutes(found, cmp);
    DedupPermutesSubset(sorted, same);
    forall d | d in found ensures exists k :: 0 <= k < |r| && same(d, r[k]) {
      assert d in multiset(sorted);
      var i :| 0 <= i < |sorted| && sorted[i] == d;
      DedupRepresents(sorted, same, i);
      var k :| 0 <= k < |r| && (r[k] == sorted[i] || same(sorted[i], r[k]));
      assert same(d, r[k]);
    }
  }

  // ---------------------------------------------------------------- entries

  /** The launch command: `snes9x` gets `-fullscreen`, any other binary two spaces. */
  function SnesExec(binary: string, path: Path): (r: string)
    ensures EndsWith(r, "\"" + path + "\"")
    ensures StartsWith(r, binary)
    ensures binary == "snes9x" ==> StartsWith(r, "snes9x -fullscreen \"")
    ensures binary != "snes9x" ==> r == binary + "  \"" + path + "\""
  {
    var r := if binary == "snes9x" then binary + " -fullscreen \"" + path + "\"" else binary + "  \"" + path + "\"";
    assert r == (if binary == "snes9x" then binary + " -fullscreen " else binary + "  ") + ("\"" + path + "\"");
    r
  }

  /** `process_rom`: always an entry. */
  function ProcessRom(path: Path, binary: string, id: Uuid, existing: set<Path>): (r: AppEntry)
    ensures r.name == Title(StemOrEmpty(path), SaturatingI32) && NoBrackets(r.name)
    ensures r.exec == SnesExec(binary, path) && r.icon == FindCover(path, existing)
    ensures r.launchKey == Some("snes9x:" + FileNameOrEmpty(path)) && r.gameExecutable == None
  {
    RomEntry(path, SaturatingI32, SnesExec(binary, path), "snes9x:", id, existing)
  }

  /** A ROM `<name> <tags>.<ext>` is listed as `name`, keyed by its whole file name. */
  lemma ProcessRomOfTaggedFile(dir: Path, file: string, name: string, ts: seq<Tag>, ext: string, binary: string,
                               id: Uuid, existing: set<Path>)
    requires dir == [] || dir[|dir| - 1] == '/'
    requires name != [] && !IsWhitespace(name[0]) && !IsWhitespace(name[|name| - 1])
    requires NoBrackets(name) && PlainTags(ts) && '/' !in name + Tags(ts)
    requires ext != [] && '.' !in ext && '/' !in ext
    requires file == (name + Tags(ts)) + "." + ext
    ensures ProcessRom(dir + file, binary, id, existing).name == name
    ensures ProcessRom(dir + file, binary, id, existing).launchKey == Some("snes9x:" + file)
  {
    var path := dir + (name + Tags(ts)) + "." + ext;
    assert dir + file == path;
    RomEntryOfTaggedFile(dir, name, ts, ext, SaturatingI32, SnesExec(binary, path), "snes9x:", id, existing);
  }
}
