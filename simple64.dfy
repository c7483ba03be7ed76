// src/simple64.rs: the Nintendo 64 ROM scanner for simple64. `gui.conf`
// names a ROM directory and a list of recent ROMs; `mupen64plus.cfg` is
// rewritten so that its `[Video-General]` section turns fullscreen on; each
// ROM path found in the directory or the recent list becomes one entry
// launched through `simple64-gui`. File contents, directory listings and
// existing paths are inputs.
module Simple64 {
  import opened Options
  import opened Strings
  import opened Paths
  import opened Model
  import opened Roms
  import PathOrder

  // ---------------------------------------------------------------- extensions

  const SIMPLE64_EXTENSIONS: set<string> := {"z64", "n64", "v64", "zip", "7z"}

  /** `is_valid_extension`: the extension, lowercased, is one simple64 opens. */
  predicate IsValidExtension(p: Path)
  {
    match Extension(p)
    case None => false
    case Some(e) => ToLower(e) in SIMPLE64_EXTENSIONS
  }

  /** A ROM file is accepted exactly when its extension, lowercased, is a simple64 one. */
  lemma ValidExtensionOfFile(dir: Path, stem: string, ext: string)
    requires dir == [] || dir[|dir| - 1] == '/'
    requires stem != [] && '/' !in stem && ext != [] && '.' !in ext && '/' !in ext
    ensures IsValidExtension(dir + stem + "." + ext) <==> ToLower(ext) in SIMPLE64_EXTENSIONS
  {
    FileInDirectory(dir, stem, ext);
  }

  // ---------------------------------------------------------------- gui.conf

  /** What `parse_config` returns: the ROM directory and the recent ROMs. */
  datatype GuiConfig = GuiConfig(romDir: Option<Path>, recentRoms: seq<Path>)

  const NO_CONFIG := GuiConfig(None, [])

  const RECENT_SEPARATOR := ", "

  /** One line of `parse_config`: a `key=value` split at the first `=`, both sides trimmed. */
  function ConfigLine(cfg: GuiConfig, line: string, existing: set<Path>): GuiConfig
  {
    match SplitOnce(line, '=')
    case None => cfg
    case Some((k, v)) =>
      var key := Trim(k);
      var value := Trim(v);
      if key == "ROMdir" then (if value in existing then cfg.(romDir := Some(value)) else cfg)
      else if key == "RecentROMs2" then cfg.(recentRoms := cfg.recentRoms + SplitStr(value, RECENT_SEPARATOR))
      else cfg
  }

  function ConfigRun(cfg: GuiConfig, lines: seq<string>, existing: set<Path>): GuiConfig
    decreases |lines|
  {
    if lines == [] then cfg else ConfigRun(ConfigLine(cfg, lines[0], existing), lines[1..], existing)
  }

  /** `parse_config`: `content` is `None` when `gui.conf` cannot be read. */
  method ParseConfig(content: Option<string>, existing: set<Path>) returns (cfg: GuiConfig)
    ensures content.None? ==> cfg == NO_CONFIG
    ensures content.Some? ==> cfg == ConfigRun(NO_CONFIG, Lines(content.value), existing)
  {
    var romDir: Option<Path> := None;
    var recentRoms: seq<Path> := [];
    if content.Some? {
      var lines := Lines(content.value);
      var i := 0;
      while i < |lines|
        invariant 0 <= i <= |lines|
        invariant ConfigRun(GuiConfig(romDir, recentRoms), lines[i..], existing) == ConfigRun(NO_CONFIG, lines, existing)
      {
        assert lines[i..][0] == lines[i] && lines[i..][1..] == lines[i + 1..];
        match SplitOnce(lines[i], '=') {
          case None =>
          case Some((k, v)) =>
            var key := Trim(k);
            var value := Trim(v);
            if key == "ROMdir" {
              if value in existing {
                romDir := Some(value);
              }
            } else if key == "RecentROMs2" {
              recentRoms := PushAll(recentRoms, SplitStr(value, RECENT_SEPARATOR));
            }
        }
        i := i + 1;
      }
    }
    cfg := GuiConfig(romDir, recentRoms);
  }

  /** The `for part in value.split(", ")` loop: each part pushed in turn. */
  method PushAll(acc: seq<Path>, parts: seq<Path>) returns (r: seq<Path>)
    ensures r == acc + parts
  {
    r := acc;
    var j := 0;
    while j < |parts|
      invariant 0 <= j <= |parts|
      invariant r == acc + parts[..j]
    {
      assert parts[..j + 1] == parts[..j] + [parts[j]];
      r := r + [parts[j]];
      j := j + 1;
    }
    assert parts[..j] == parts;
  }

  /** The ROM directory a line names, when it names one that exists. */
  function RomDirOf(line: string, existing: set<Path>): Option<Path>
  {
    match SplitOnce(line, '=')
    case None => None
    case Some((k, v)) => if Trim(k) == "ROMdir" && Trim(v) in existing then Some(Trim(v)) else None
  }

  /** The recent ROMs a line lists. */
  function RecentOf(line: string): seq<Path>
  {
    match SplitOnce(line, '=')
    case None => []
    case Some((k, v)) => if Trim(k) == "RecentROMs2" then SplitStr(Trim(v), RECENT_SEPARATOR) else []
  }

  /** The last line naming an existing ROM directory decides it. */
  function LastRomDir(lines: seq<string>, existing: set<Path>): (r: Option<Path>)
    ensures r.Some? ==> r.value in existing
  {
    if lines == [] then None
    else
      match RomDirOf(lines[|lines| - 1], existing)
      case Some(d) => Some(d)
      case None => LastRomDir(lines[..|lines| - 1], existing)
  }

  /** Every `RecentROMs2` line's parts, in order. */
  function AllRecent(lines: seq<string>): seq<Path>
  {
    if lines == [] then [] else AllRecent(lines[..|lines| - 1]) + RecentOf(lines[|lines| - 1])
  }

  lemma ConfigLineParts(cfg: GuiConfig, line: string, existing: set<Path>)
    ensures ConfigLine(cfg, line, existing) ==
      GuiConfig(RomDirOf(line, existing).Or(cfg.romDir), cfg.recentRoms + RecentOf(line))
  {
  }

  lemma {:induction false} ConfigRunSnoc(cfg: GuiConfig, lines: seq<string>, line: string, existing: set<Path>)
    ensures ConfigRun(cfg, lines + [line], existing) == ConfigLine(ConfigRun(cfg, lines, existing), line, existing)
    decreases |lines|
  {
    if lines == [] {
      assert lines + [line] == [line];
    } else {
      assert (lines + [line])[0] == lines[0] && (lines + [line])[1..] == lines[1..] + [line];
      ConfigRunSnoc(ConfigLine(cfg, lines[0], existing), lines[1..], line, existing);
    }
  }

  /**
   * `parse_config` ignores sections: the ROM directory is the one the last
   * line naming an existing directory gives (the earlier one when none
   * does), and the recent ROMs are every `RecentROMs2` line's parts in order.
   */
  lemma {:induction false} ConfigRunSpec(cfg: GuiConfig, lines: seq<string>, existing: set<Path>)
    ensures ConfigRun(cfg, lines, existing) ==
      GuiConfig(LastRomDir(lines, existing).Or(cfg.romDir), cfg.recentRoms + AllRecent(lines))
    decreases |lines|
  {
    if lines == [] {
      assert cfg.recentRoms + [] == cfg.recentRoms;
    } else {
      var init := lines[..|lines| - 1];
      var last := lines[|lines| - 1];
      assert lines == init + [last];
      ConfigRunSnoc(cfg, init, last, existing);
      ConfigRunSpec(cfg, init, existing);
      ConfigLineParts(ConfigRun(cfg, init, existing), last, existing);
      ConcatAssoc(cfg.recentRoms, AllRecent(init), RecentOf(last));
    }
  }

  /** No `=` in a line means the line does nothing. */
  lemma LineWithoutEquals(line: string, existing: set<Path>)
    requires '=' !in line
    ensures RomDirOf(line, existing) == None && RecentOf(line) == []
  {
  }

  /** Two recent ROMs separated by `, ` come back as the two paths. */
  lemma RecentPair(a: Path, b: Path)
    requires !Contains(a, RECENT_SEPARATOR) && !Contains(b, RECENT_SEPARATOR)
    ensures SplitStr(a + RECENT_SEPARATOR + b, RECENT_SEPARATOR) == [a, b]
  {
    var s := a + RECENT_SEPARATOR + b;
    forall j | 0 <= j < |a| ensures !(RECENT_SEPARATOR <= s[j..]) {
      if j + 2 <= |a| {
        if RECENT_SEPARATOR <= s[j..] {
          assert a[j..j + 2] == s[j..j + 2];
          ContainsAt(a, RECENT_SEPARATOR, j);
        }
      } else {
        assert s[j + 1] == ',';
      }
    }
    assert s[|a|..|a| + 2] == RECENT_SEPARATOR;
    FindFirstAt(s, RECENT_SEPARATOR, |a|);
    assert s[..|a|] == a && s[|a| + 2..] == b;
  }

  // ---------------------------------------------------------------- mupen64plus.cfg

  const VIDEO_HEADER := "[Video-General]"
  const FULLSCREEN_KEY := "Fullscreen"
  const FULLSCREEN_ON := "Fullscreen = True"

  /** The rewrite loop's variables: the lines so far and the two flags. */
  datatype FsScan = FsScan(out: seq<string>, inside: bool, found: bool)

  const FS_START := FsScan([], false, false)

  /** The line a section gets at its end when it had no fullscreen line. */
  function Closing(inside: bool, found: bool): seq<string>
  {
    if inside && !found then [FULLSCREEN_ON] else []
  }

  /** One line of the rewrite: a header closes the section first, then the line is kept or replaced. */
  function FsStep(st: FsScan, line: string): FsScan
  {
    var st1 := if IsHeader(Trim(line)) then FsScan(st.out + Closing(st.inside, st.found), IsVideoHeader(line), false) else st;
    if st1.inside && IsFullscreenLine(line) then FsScan(st1.out + [FULLSCREEN_ON], true, true)
    else st1.(out := st1.out + [line])
  }

  function FsRun(st: FsScan, lines: seq<string>): FsScan
    decreases |lines|
  {
    if lines == [] then st else FsRun(FsStep(st, lines[0]), lines[1..])
  }

  /** `FsStep` once the header of `line`, if it is one, has been handled. */
  lemma FsStepAfterHeader(st: FsScan, st1: FsScan, line: string)
    requires st1 == if IsHeader(Trim(line)) then FsScan(st.out + Closing(st.inside, st.found), IsVideoHeader(line), false) else st
    ensures FsStep(st, line) ==
      if st1.inside && IsFullscreenLine(line) then FsScan(st1.out + [FULLSCREEN_ON], true, true) else st1.(out := st1.out + [line])
  {
  }

  lemma FsRunAt(st: FsScan, lines: seq<string>, i: nat)
    requires i < |lines|
    ensures FsRun(st, lines[i..]) == FsRun(FsStep(st, lines[i]), lines[i + 1..])
  {
    assert lines[i..][0] == lines[i] && lines[i..][1..] == lines[i + 1..];
  }

  /** The lines `ensure_fullscreen_config` writes back. */
  function FullscreenLines(lines: seq<string>): seq<string>
  {
    var st := FsRun(FS_START, lines);
    st.out + Closing(st.inside, st.found)
  }

  /** The text written to `mupen64plus.cfg`, or `None` when it would not change. */
  function FullscreenRewrite(content: string): (r: Option<string>)
    ensures r.Some? ==> r.value != content
  {
    var text := Strings.Join(FullscreenLines(Lines(content)), "\n");
    if text != content then Some(text) else None
  }

  /**
   * `ensure_fullscreen_config`: `content` is `None` when the file does not
   * exist or cannot be read; the result is what is written, if anything.
   */
  method EnsureFullscreenConfig(content: Option<string>) returns (written: Option<string>)
    ensures content.None? ==> written.None?
    ensures content.Some? ==> written == FullscreenRewrite(content.value)
  {
    if content.None? {
      return None;
    }
    var newLines := RewriteLines(Lines(content.value));
    var text := Strings.Join(newLines, "\n");
    if text != content.value {
      written := Some(text);
    } else {
      written := None;
    }
  }

  /** The loop of `ensure_fullscreen_config` over the file's lines. */
  method RewriteLines(lines: seq<string>) returns (newLines: seq<string>)
    ensures newLines == FullscreenLines(lines)
  {
    newLines := [];
    var inside := false;
    var found := false;
    var i := 0;
    while i < |lines|
      invariant 0 <= i <= |lines|
      invariant FsRun(FsScan(newLines, inside, found), lines[i..]) == FsRun(FS_START, lines)
    {
      FsRunAt(FsScan(newLines, inside, found), lines, i);
      var line := lines[i];
      ghost var st := FsScan(newLines, inside, found);
      var trimmed := Trim(line);
      if IsHeader(trimmed) {
        if inside && !found {
          newLines := newLines + [FULLSCREEN_ON];
        }
        inside := IsVideoHeader(line);
        found := false;
      }
      ghost var st1 := FsScan(newLines, inside, found);
      FsStepAfterHeader(st, st1, line);
      ghost var next := FsStep(st, line);
      if inside && IsFullscreenLine(line) {
        newLines := newLines + [FULLSCREEN_ON];
        found := true;
      } else {
        newLines := newLines + [line];
      }
      assert FsScan(newLines, inside, found) == next;
      i := i + 1;
    }
    assert lines[i..] == [];
    if inside && !found {
      newLines := newLines + [FULLSCREEN_ON];
    }
  }

  /** Inside `[Video-General]` a fullscreen line becomes `Fullscreen = True`; other lines stay. */
  function RewriteBody(body: seq<string>, inside: bool): (r: seq<string>)
    ensures |r| == |body|
  {
    if body == [] then []
    else [if inside && IsFullscreenLine(body[0]) then FULLSCREEN_ON else body[0]] + RewriteBody(body[1..], inside)
  }

  /** A line whose trimmed text is `[Video-General]`. */
  predicate IsVideoHeader(line: string)
  {
    Trim(line) == VIDEO_HEADER
  }

  /** A line whose trimmed text starts with `Fullscreen`. */
  predicate IsFullscreenLine(line: string)
  {
    StartsWith(Trim(line), FULLSCREEN_KEY)
  }

  /** Some line of `body` is a fullscreen line. */
  predicate AnyFullscreenLine(body: seq<string>)
  {
    exists i :: 0 <= i < |body| && IsFullscreenLine(body[i])
  }

  predicate NoHeaders(body: seq<string>)
  {
    forall i :: 0 <= i < |body| ==> !IsHeader(Trim(body[i]))
  }

  lemma {:induction false} FsRunAppend(st: FsScan, a: seq<string>, b: seq<string>)
    ensures FsRun(st, a + b) == FsRun(FsRun(st, a), b)
    decreases |a|
  {
    if a == [] {
      assert a + b == b;
    } else {
      assert (a + b)[0] == a[0] && (a + b)[1..] == a[1..] + b;
      FsRunAppend(FsStep(st, a[0]), a[1..], b);
    }
  }

  /** Lines between headers are rewritten one by one, and the flag records a fullscreen line in the video section. */
  lemma {:induction false} BodyRun(st: FsScan, body: seq<string>)
    requires NoHeaders(body)
    ensures FsRun(st, body) ==
      FsScan(st.out + RewriteBody(body, st.inside), st.inside, st.found || (st.inside && AnyFullscreenLine(body)))
    decreases |body|
  {
    if body == [] {
      assert st.out + [] == st.out;
    } else {
      var x := if st.inside && IsFullscreenLine(body[0]) then FULLSCREEN_ON else body[0];
      var next := FsStep(st, body[0]);
      assert !IsHeader(Trim(body[0]));
      assert next.out == st.out + [x] && next.inside == st.inside;
      assert next.found == (st.found || (st.inside && IsFullscreenLine(body[0])));
      assert NoHeaders(body[1..]) by {
        forall i | 0 <= i < |body[1..]| ensures !IsHeader(Trim(body[1..][i])) {
          assert body[1..][i] == body[i + 1];
        }
      }
      BodyRun(next, body[1..]);
      ConcatAssoc(st.out, [x], RewriteBody(body[1..], st.inside));
      AnyFullscreenLineSplit(body);
    }
  }

  lemma AnyFullscreenLineSplit(body: seq<string>)
    requires body != []
    ensures AnyFullscreenLine(body) <==> IsFullscreenLine(body[0]) || AnyFullscreenLine(body[1..])
  {
    if AnyFullscreenLine(body[1..]) {
      var i :| 0 <= i < |body[1..]| && IsFullscreenLine(body[1..][i]);
      assert body[1..][i] == body[i + 1];
    }
    if AnyFullscreenLine(body) && !IsFullscreenLine(body[0]) {
      var i :| 0 <= i < |body| && IsFullscreenLine(body[i]);
      assert i > 0 && body[1..][i - 1] == body[i];
    }
  }

  /** A header closes the current section, adding `Fullscreen = True` if it lacked one, and is kept. */
  lemma HeaderStep(st: FsScan, h: string)
    requires IsHeader(Trim(h))
    ensures FsStep(st, h) == FsScan(st.out + Closing(st.inside, st.found) + [h], IsVideoHeader(h), false)
  {
    var t := Trim(h);
    assert t[0] == '[' && FULLSCREEN_KEY[0] == 'F';
  }

  /**
   * A section, header and body: the previous section is closed, the header
   * kept, and the body rewritten when the header is `[Video-General]`.
   */
  lemma SectionRun(st: FsScan, h: string, body: seq<string>)
    requires IsHeader(Trim(h)) && NoHeaders(body)
    ensures var video := IsVideoHeader(h);
      FsRun(st, [h] + body) ==
        FsScan(st.out + Closing(st.inside, st.found) + [h] + RewriteBody(body, video), video, video && AnyFullscreenLine(body))
  {
    assert ([h] + body)[0] == h && ([h] + body)[1..] == body;
    HeaderStep(st, h);
    BodyRun(FsStep(st, h), body);
  }

  /** A file with only a `[Video-General]` section: its fullscreen lines are forced on, or one is added at the end. */
  lemma VideoSectionForcedOn(h: string, body: seq<string>)
    requires IsVideoHeader(h) && NoHeaders(body)
    ensures FullscreenLines([h] + body) == [h] + RewriteBody(body, true) + Closing(true, AnyFullscreenLine(body))
  {
    assert IsHeader(Trim(h)) by {
      assert VIDEO_HEADER[0] == '[' && VIDEO_HEADER[|VIDEO_HEADER| - 1] == ']';
    }
    SectionRun(FS_START, h, body);
    assert FS_START.out + Closing(false, false) + [h] == [h];
  }

  /** Every fullscreen line of `body` already reads `Fullscreen = True`. */
  predicate AlreadyOn(body: seq<string>)
  {
    forall i :: 0 <= i < |body| ==> IsFullscreenLine(body[i]) ==> body[i] == FULLSCREEN_ON
  }

  lemma AlreadyOnTail(body: seq<string>)
    requires body != [] && AlreadyOn(body)
    ensures AlreadyOn(body[1..])
  {
    forall i | 0 <= i < |body[1..]| ensures IsFullscreenLine(body[1..][i]) ==> body[1..][i] == FULLSCREEN_ON {
      assert body[1..][i] == body[i + 1];
    }
  }

  /** Fullscreen lines that already read `Fullscreen = True` are left alone, as are all others. */
  lemma {:induction false} RewriteKeepsOnLines(body: seq<string>)
    requires AlreadyOn(body)
    ensures RewriteBody(body, true) == body
    decreases |body|
  {
    if body != [] {
      AlreadyOnTail(body);
      RewriteKeepsOnLines(body[1..]);
      assert IsFullscreenLine(body[0]) ==> body[0] == FULLSCREEN_ON;
      assert body == [body[0]] + body[1..];
    }
  }

  /** Lines outside a `[Video-General]` section are never changed. */
  lemma {:induction false} OutsideRun(out: seq<string>, found: bool, lines: seq<string>)
    requires NoVideoHeader(lines)
    ensures FsRun(FsScan(out, false, found), lines).out == out + lines
    ensures !FsRun(FsScan(out, false, found), lines).inside
    decreases |lines|
  {
    if lines == [] {
      assert out + [] == out;
    } else {
      var next := FsStep(FsScan(out, false, found), lines[0]);
      NoVideoHeaderTail(lines);
      OutsideStep(out, found, lines[0]);
      OutsideRun(next.out, next.found, lines[1..]);
      ConcatAssoc(out, [lines[0]], lines[1..]);
      assert [lines[0]] + lines[1..] == lines;
    }
  }

  /** No line is a `[Video-General]` header. */
  predicate NoVideoHeader(lines: seq<string>)
  {
    forall i :: 0 <= i < |lines| ==> !IsVideoHeader(lines[i])
  }

  lemma NoVideoHeaderTail(lines: seq<string>)
    requires lines != [] && NoVideoHeader(lines)
    ensures !IsVideoHeader(lines[0]) && NoVideoHeader(lines[1..])
  {
    assert forall i :: 0 <= i < |lines[1..]| ==> lines[1..][i] == lines[i + 1];
  }

  /** Outside the section a line that is not its header is copied and the scan stays outside. */
  lemma OutsideStep(out: seq<string>, found: bool, line: string)
    requires !IsVideoHeader(line)
    ensures FsStep(FsScan(out, false, found), line).out == out + [line]
    ensures !FsStep(FsScan(out, false, found), line).inside
  {
  }

  /** A file without a `[Video-General]` section comes back line for line. */
  lemma NoVideoSectionUnchanged(lines: seq<string>)
    requires NoVideoHeader(lines)
    ensures FullscreenLines(lines) == lines
  {
    OutsideRun([], false, lines);
    var st := FsRun(FS_START, lines);
    assert st.out == lines && !st.inside;
    assert lines + [] == lines;
  }

  // ---------------------------------------------------------------- the scan

  /** A path as a `HashSet<PathBuf>` sees it: by its components. */
  function PathKey(p: Path): seq<PathOrder.Component>
  {
    PathOrder.Components(p)
  }

  /** The candidates whose path has not been seen yet, each taken once. */
  function FreshPaths(cands: seq<Path>, seen: set<seq<PathOrder.Component>>): seq<Path>
  {
    if cands == [] then []
    else if PathKey(cands[0]) in seen then FreshPaths(cands[1..], seen)
    else [cands[0]] + FreshPaths(cands[1..], seen + {PathKey(cands[0])})
  }

  /** Directory entries that are ROMs. */
  function DirCandidates(entries: seq<Path>): (r: seq<Path>)
    ensures forall i :: 0 <= i < |r| ==> IsValidExtension(r[i]) && r[i] in entries
  {
    if entries == [] then []
    else (if IsValidExtension(entries[0]) then [entries[0]] else []) + DirCandidates(entries[1..])
  }

  /** Recent ROMs that exist and are ROMs. */
  function RecentCandidates(recent: seq<Path>, existing: set<Path>): (r: seq<Path>)
    ensures forall i :: 0 <= i < |r| ==> IsValidExtension(r[i]) && r[i] in existing && r[i] in recent
  {
    if recent == [] then []
    else (if recent[0] in existing && IsValidExtension(recent[0]) then [recent[0]] else []) + RecentCandidates(recent[1..], existing)
  }

  /**
   * Steps 2 and 3 of `scan_simple64_games`: the ROM directory's entries
   * (`entries`, empty when there is no directory or it cannot be read),
   * then the recent ROMs, each path taken the first time it is seen.
   */
  method SelectRoms(entries: seq<Path>, recent: seq<Path>, existing: set<Path>) returns (picked: seq<Path>)
    ensures picked == FreshPaths(DirCandidates(entries) + RecentCandidates(recent, existing), {})
  {
    var fromDir, seen := ScanDirectory(entries, RecentCandidates(recent, existing));
    picked := ScanRecent(recent, existing, fromDir, seen);
  }

  /** The directory loop: what it picks, followed by what the rest would pick, is the whole selection. */
  method ScanDirectory(entries: seq<Path>, ghost rest: seq<Path>) returns (picked: seq<Path>, seen: set<seq<PathOrder.Component>>)
    ensures picked + FreshPaths(rest, seen) == FreshPaths(DirCandidates(entries) + rest, {})
  {
    seen := {};
    picked := [];
    var i := 0;
    while i < |entries|
      invariant 0 <= i <= |entries|
      invariant picked + FreshPaths(DirCandidates(entries[i..]) + rest, seen) == FreshPaths(DirCandidates(entries) + rest, {})
    {
      var path := entries[i];
      DirStep(entries, i, rest, seen);
      if IsValidExtension(path) && PathKey(path) !in seen {
        ConcatAssoc(picked, [path], FreshPaths(DirCandidates(entries[i + 1..]) + rest, seen + {PathKey(path)}));
        seen := seen + {PathKey(path)};
        picked := picked + [path];
      }
      i := i + 1;
    }
    assert DirCandidates(entries[i..]) + rest == rest;
  }

  /** The recent-ROM loop: it adds what `FreshPaths` picks from the recent candidates. */
  method ScanRecent(recent: seq<Path>, existing: set<Path>, picked0: seq<Path>, seen0: set<seq<PathOrder.Component>>)
    returns (picked: seq<Path>)
    ensures picked == picked0 + FreshPaths(RecentCandidates(recent, existing), seen0)
  {
    var seen := seen0;
    picked := picked0;
    var j := 0;
    while j < |recent|
      invariant 0 <= j <= |recent|
      invariant picked + FreshPaths(RecentCandidates(recent[j..], existing), seen) ==
        picked0 + FreshPaths(RecentCandidates(recent, existing), seen0)
    {
      var path := recent[j];
      RecentStep(recent, j, existing, seen);
      if path in existing && IsValidExtension(path) && PathKey(path) !in seen {
        ConcatAssoc(picked, [path], FreshPaths(RecentCandidates(recent[j + 1..], existing), seen + {PathKey(path)}));
        seen := seen + {PathKey(path)};
        picked := picked + [path];
      }
      j := j + 1;
    }
    assert RecentCandidates(recent[j..], existing) == [];
    assert picked + [] == picked;
  }

  /** One candidate in front: taken when its path is new, skipped otherwise. */
  lemma FreshPathsCons(c: Path, rest: seq<Path>, seen: set<seq<PathOrder.Component>>)
    ensures FreshPaths([c] + rest, seen) ==
      if PathKey(c) in seen then FreshPaths(rest, seen) else [c] + FreshPaths(rest, seen + {PathKey(c)})
  {
    assert ([c] + rest)[0] == c && ([c] + rest)[1..] == rest;
  }

  lemma DirStep(entries: seq<Path>, i: nat, rest: seq<Path>, seen: set<seq<PathOrder.Component>>)
    requires i < |entries|
    ensures var path := entries[i]; var later := FreshPaths(DirCandidates(entries[i + 1..]) + rest, seen);
      FreshPaths(DirCandidates(entries[i..]) + rest, seen) ==
        if IsValidExtension(path) && PathKey(path) !in seen
        then [path] + FreshPaths(DirCandidates(entries[i + 1..]) + rest, seen + {PathKey(path)})
        else later
  {
    var path := entries[i];
    var tail := DirCandidates(entries[i + 1..]) + rest;
    assert entries[i..][0] == path && entries[i..][1..] == entries[i + 1..];
    if IsValidExtension(path) {
      assert DirCandidates(entries[i..]) + rest == [path] + tail;
      FreshPathsCons(path, tail, seen);
    } else {
      assert DirCandidates(entries[i..]) + rest == tail;
    }
  }

  lemma RecentStep(recent: seq<Path>, j: nat, existing: set<Path>, seen: set<seq<PathOrder.Component>>)
    requires j < |recent|
    ensures var path := recent[j]; var later := FreshPaths(RecentCandidates(recent[j + 1..], existing), seen);
      FreshPaths(RecentCandidates(recent[j..], existing), seen) ==
        if path in existing && IsValidExtension(path) && PathKey(path) !in seen
        then [path] + FreshPaths(RecentCandidates(recent[j + 1..], existing), seen + {PathKey(path)})
        else later
  {
    var path := recent[j];
    var tail := RecentCandidates(recent[j + 1..], existing);
    assert recent[j..][0] == path && recent[j..][1..] == recent[j + 1..];
    if path in existing && IsValidExtension(path) {
      assert RecentCandidates(recent[j..], existing) == [path] + tail;
      FreshPathsCons(path, tail, seen);
    } else {
      assert RecentCandidates(recent[j..], existing) == tail;
    }
  }

  /** Some picked path is the same path as `c`. */
  predicate Represented(c: Path, picked: seq<Path>)
  {
    exists k :: 0 <= k < |picked| && PathKey(picked[k]) == PathKey(c)
  }

  /** Every picked path is a candidate that had not been seen. */
  lemma {:induction false} FreshPathsAreCandidates(cands: seq<Path>, seen: set<seq<PathOrder.Component>>)
    ensures forall i :: 0 <= i < |FreshPaths(cands, seen)| ==>
      FreshPaths(cands, seen)[i] in cands && PathKey(FreshPaths(cands, seen)[i]) !in seen
    decreases |cands|
  {
    if cands != [] {
      var c0 := cands[0];
      var seen' := if PathKey(c0) in seen then seen else seen + {PathKey(c0)};
      var tail := FreshPaths(cands[1..], seen');
      FreshPathsAreCandidates(cands[1..], seen');
      var r := FreshPaths(cands, seen);
      assert r == tail || r == [c0] + tail;
      forall i | 0 <= i < |r| ensures r[i] in cands && PathKey(r[i]) !in seen {
        if r != tail && i > 0 {
          assert r[i] == tail[i - 1];
        }
      }
    }
  }

  /** No two picked paths are the same path. */
  lemma {:induction false} FreshPathsDistinct(cands: seq<Path>, seen: set<seq<PathOrder.Component>>)
    ensures forall i, j :: 0 <= i < j < |FreshPaths(cands, seen)| ==>
      PathKey(FreshPaths(cands, seen)[i]) != PathKey(FreshPaths(cands, seen)[j])
    decreases |cands|
  {
    if cands != [] {
      var c0 := cands[0];
      if PathKey(c0) in seen {
        FreshPathsDistinct(cands[1..], seen);
      } else {
        var seen' := seen + {PathKey(c0)};
        var tail := FreshPaths(cands[1..], seen');
        FreshPathsDistinct(cands[1..], seen');
        FreshPathsAreCandidates(cands[1..], seen');
        var r := FreshPaths(cands, seen);
        assert r == [c0] + tail;
        forall i, j | 0 <= i < j < |r| ensures PathKey(r[i]) != PathKey(r[j]) {
          assert r[j] == tail[j - 1];
          if i > 0 {
            assert r[i] == tail[i - 1];
          }
        }
      }
    }
  }

  /** Every candidate not seen before is picked, or a path the same as it is. */
  lemma {:induction false} FreshPathsCover(cands: seq<Path>, seen: set<seq<PathOrder.Component>>)
    ensures forall c :: c in cands && PathKey(c) !in seen ==> Represented(c, FreshPaths(cands, seen))
    decreases |cands|
  {
    if cands != [] {
      var c0 := cands[0];
      var seen' := if PathKey(c0) in seen then seen else seen + {PathKey(c0)};
      var tail := FreshPaths(cands[1..], seen');
      FreshPathsCover(cands[1..], seen');
      var r := FreshPaths(cands, seen);
      forall c | c in cands && PathKey(c) !in seen ensures Represented(c, r) {
        if PathKey(c) == PathKey(c0) {
          assert r[0] == c0;
        } else {
          assert c in cands[1..];
          var k :| 0 <= k < |tail| && PathKey(tail[k]) == PathKey(c);
          if r == tail {
            assert PathKey(r[k]) == PathKey(c);
          } else {
            assert r == [c0] + tail && r[k + 1] == tail[k];
          }
        }
      }
    }
  }

  // ---------------------------------------------------------------- entries

  /** The launch command. */
  function Simple64Exec(path: Path): (r: string)
    ensures StartsWith(r, "simple64-gui \"") && EndsWith(r, "\"" + path + "\"")
  {
    var r := "simple64-gui " + ("\"" + path + "\"");
    assert r == "simple64-gui \"" + (path + "\"");
    r
  }

  /** `process_rom`: always an entry, titled by the guarded rule and keyed `simple64:<file name>`. */
  function ProcessRom(path: Path, id: Uuid, existing: set<Path>): (r: AppEntry)
    ensures r.name == Title(StemOrEmpty(path), StopAtZero) && NoBrackets(r.name)
    ensures r.exec == Simple64Exec(path) && r.icon == FindCover(path, existing)
    ensures r.launchKey == Some("simple64:" + FileNameOrEmpty(path)) && r.gameExecutable == None
  {
    RomEntry(path, StopAtZero, Simple64Exec(path), "simple64:", id, existing)
  }

  /** A ROM `<name> <tags>.<ext>` is listed as `name`, keyed by its whole file name. */
  lemma ProcessRomOfTaggedFile(dir: Path, file: string, name: string, ts: seq<Tag>, ext: string,
                               id: Uuid, existing: set<Path>)
    requires dir == [] || dir[|dir| - 1] == '/'
    requires name != [] && !IsWhitespace(name[0]) && !IsWhitespace(name[|name| - 1])
    requires NoBrackets(name) && PlainTags(ts) && '/' !in name + Tags(ts)
    requires ext != [] && '.' !in ext && '/' !in ext
    requires file == (name + Tags(ts)) + "." + ext
    ensures ProcessRom(dir + file, id, existing).name == name
    ensures ProcessRom(dir + file, id, existing).launchKey == Some("simple64:" + file)
  {
    var path := dir + (name + Tags(ts)) + "." + ext;
    assert dir + file == path;
    RomEntryOfTaggedFile(dir, name, ts, ext, StopAtZero, Simple64Exec(path), "simple64:", id, existing);
  }
}
