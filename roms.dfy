// What the four ROM scanners (src/snes9x.rs, src/mupen64plus.rs,
// src/simple64.rs, src/gopher64.rs) have in common: the title taken from a
// file stem by dropping bracketed text, the cover image probed next to the
// ROM, and the `~` expansion of configured directories. Each scanner spells
// these out itself; the copies are identical except for how a closing
// bracket lowers its depth counter, which is a parameter here.
module Roms {
  import opened Options
  import opened Strings
  import opened Paths
  import opened Model

  // ---------------------------------------------------------------- titles

  const I32_MIN: int := -0x8000_0000

  /** How a closing bracket lowers its depth counter. */
  datatype CloserRule =
    | SaturatingI32  // `depth.saturating_sub(1)` on an `i32`: the counter can go negative
    | StopAtZero     // `if depth > 0 { depth -= 1 }`: the counter stays at zero

  function Close(depth: int, rule: CloserRule): (r: int)
    ensures rule == StopAtZero ==> r == if depth > 0 then depth - 1 else depth
    ensures rule == SaturatingI32 && depth > I32_MIN ==> r == depth - 1
  {
    match rule
    case SaturatingI32 => if depth == I32_MIN then depth else depth - 1
    case StopAtZero => if depth > 0 then depth - 1 else depth
  }

  predicate IsBracket(c: char)
  {
    c == '(' || c == ')' || c == '[' || c == ']'
  }

  predicate NoBrackets(s: string)
  {
    forall i :: 0 <= i < |s| ==> !IsBracket(s[i])
  }

  /** The title loop's variables: the kept text and the two depth counters. */
  datatype TitleScan = TitleScan(title: string, round: int, square: int)

  const TITLE_START := TitleScan([], 0, 0)

  /** One character of the title loop. */
  function TitleStep(st: TitleScan, c: char, rule: CloserRule): TitleScan
  {
    if c == '(' then st.(round := st.round + 1)
    else if c == ')' then st.(round := Close(st.round, rule))
    else if c == '[' then st.(square := st.square + 1)
    else if c == ']' then st.(square := Close(st.square, rule))
    else if st.round == 0 && st.square == 0 then st.(title := st.title + [c])
    else st
  }

  function TitleRun(st: TitleScan, s: string, rule: CloserRule): TitleScan
    decreases |s|
  {
    if s == [] then st else TitleRun(TitleStep(st, s[0], rule), s[1..], rule)
  }

  /** `extract_title_from_filename` on a file stem. */
  function Title(stem: string, rule: CloserRule): string
  {
    Trim(TitleRun(TITLE_START, stem, rule).title)
  }

  /** The title loop, character by character, then `trim`. */
  method ExtractTitle(stem: string, rule: CloserRule) returns (title: string)
    ensures title == Title(stem, rule)
    ensures NoBrackets(title)
  {
    var kept: string := [];
    var round, square := 0, 0;
    var i := 0;
    while i < |stem|
      invariant 0 <= i <= |stem|
      invariant TitleRun(TitleScan(kept, round, square), stem[i..], rule) == TitleRun(TITLE_START, stem, rule)
    {
      var c := stem[i];
      if c == '(' {
        round := round + 1;
      } else if c == ')' {
        round := Close(round, rule);
      } else if c == '[' {
        square := square + 1;
      } else if c == ']' {
        square := Close(square, rule);
      } else if round == 0 && square == 0 {
        kept := kept + [c];
      }
      assert stem[i..][1..] == stem[i + 1..];
      i := i + 1;
    }
    assert stem[i..] == [];
    title := Trim(kept);
    TitleHasNoBrackets(stem, rule);
  }

  lemma {:induction false} TitleRunAppend(st: TitleScan, a: string, b: string, rule: CloserRule)
    ensures TitleRun(st, a + b, rule) == TitleRun(TitleRun(st, a, rule), b, rule)
    decreases |a|
  {
    if a != [] {
      assert (a + b)[0] == a[0] && (a + b)[1..] == a[1..] + b;
      TitleRunAppend(TitleStep(st, a[0], rule), a[1..], b, rule);
    } else {
      assert a + b == b;
    }
  }

  lemma {:induction false} TitleRunKeepsNoBrackets(st: TitleScan, s: string, rule: CloserRule)
    requires NoBrackets(st.title)
    ensures NoBrackets(TitleRun(st, s, rule).title)
    decreases |s|
  {
    if s != [] {
      TitleRunKeepsNoBrackets(TitleStep(st, s[0], rule), s[1..], rule);
    }
  }

  /** No bracket character ever reaches the title. */
  lemma TitleHasNoBrackets(stem: string, rule: CloserRule)
    ensures NoBrackets(Title(stem, rule))
  {
    var k := TitleRun(TITLE_START, stem, rule).title;
    TitleRunKeepsNoBrackets(TITLE_START, stem, rule);
    var t := TrimStart(k);
    var u := TrimEnd(t);
    forall i | 0 <= i < |u| ensures !IsBracket(u[i]) {
      assert u[i] == t[i];
      assert t[i] == k[|k| - |t| + i];
    }
  }

  /** Text outside every bracket is kept as it is. */
  lemma {:induction false} PlainTextKept(st: TitleScan, s: string, rule: CloserRule)
    requires st.round == 0 && st.square == 0 && NoBrackets(s)
    ensures TitleRun(st, s, rule) == st.(title := st.title + s)
    decreases |s|
  {
    if s != [] {
      assert st.title + [s[0]] + s[1..] == st.title + s;
      PlainTextKept(TitleStep(st, s[0], rule), s[1..], rule);
    }
  }

  /** Text inside an open bracket is dropped. */
  lemma {:induction false} HiddenTextDropped(st: TitleScan, s: string, rule: CloserRule)
    requires (st.round != 0 || st.square != 0) && NoBrackets(s)
    ensures TitleRun(st, s, rule) == st
    decreases |s|
  {
    if s != [] {
      HiddenTextDropped(TitleStep(st, s[0], rule), s[1..], rule);
    }
  }

  /** A bracketed tag such as `(USA)` or `[!]`. */
  datatype Tag = Round(text: string) | Square(text: string)

  function Bracketed(t: Tag): string
  {
    match t
    case Round(s) => "(" + s + ")"
    case Square(s) => "[" + s + "]"
  }

  /** A whole tag, brackets included, leaves the title and the counters as they were. */
  lemma TagDropped(st: TitleScan, t: Tag, rule: CloserRule)
    requires st.round == 0 && st.square == 0 && NoBrackets(t.text)
    ensures TitleRun(st, Bracketed(t), rule) == st
  {
    var open := if t.Round? then '(' else '[';
    var close := if t.Round? then ')' else ']';
    assert Bracketed(t) == [open] + (t.text + [close]);
    TitleRunAppend(st, [open], t.text + [close], rule);
    var inTag := TitleStep(st, open, rule);
    assert TitleRun(st, [open], rule) == inTag;
    TitleRunAppend(inTag, t.text, [close], rule);
    HiddenTextDropped(inTag, t.text, rule);
  }

  /** Tags each preceded by one space, as in `Name (USA) [!]`. */
  function Tags(ts: seq<Tag>): string
  {
    if ts == [] then [] else " " + Bracketed(ts[0]) + Tags(ts[1..])
  }

  predicate PlainTags(ts: seq<Tag>)
  {
    forall i :: 0 <= i < |ts| ==> NoBrackets(ts[i].text)
  }

  function Spaces(n: nat): string
  {
    seq(n, _ => ' ')
  }

  /** Each tag leaves only its leading space behind. */
  lemma {:induction false} TagsLeaveSpaces(st: TitleScan, ts: seq<Tag>, rule: CloserRule)
    requires st.round == 0 && st.square == 0 && PlainTags(ts)
    ensures TitleRun(st, Tags(ts), rule) == st.(title := st.title + Spaces(|ts|))
    decreases |ts|
  {
    if ts != [] {
      var after := st.(title := st.title + [' ']);
      assert Tags(ts) == [' '] + (Bracketed(ts[0]) + Tags(ts[1..]));
      TitleRunAppend(st, [' '], Bracketed(ts[0]) + Tags(ts[1..]), rule);
      assert TitleRun(st, [' '], rule) == after;
      TitleRunAppend(after, Bracketed(ts[0]), Tags(ts[1..]), rule);
      TagDropped(after, ts[0], rule);
      assert PlainTags(ts[1..]) by {
        forall i | 0 <= i < |ts[1..]| ensures NoBrackets(ts[1..][i].text) {
          assert ts[1..][i] == ts[i + 1];
        }
      }
      TagsLeaveSpaces(after, ts[1..], rule);
      assert [' '] + Spaces(|ts| - 1) == Spaces(|ts|);
      assert st.title + [' '] + Spaces(|ts| - 1) == st.title + Spaces(|ts|);
    }
  }

  lemma {:induction false} TrimEndDropsSpaces(a: string, n: nat)
    requires a != [] && !IsWhitespace(a[|a| - 1])
    ensures TrimEnd(a + Spaces(n)) == a
    decreases n
  {
    if n > 0 {
      assert (a + Spaces(n))[..|a| + n - 1] == a + Spaces(n - 1);
      TrimEndDropsSpaces(a, n - 1);
    } else {
      assert a + Spaces(n) == a;
    }
  }

  /**
   * A plain name followed by space-separated tags comes out as the name:
   * the tests' `Super Mario World (USA)`, `Chrono Trigger (USA) [!]`,
   * `Donkey Kong Country` and `Final Fantasy III (USA) (v1.1)` are instances.
   */
  lemma TitleOfNameAndTags(name: string, ts: seq<Tag>, rule: CloserRule)
    requires name != [] && !IsWhitespace(name[0]) && !IsWhitespace(name[|name| - 1])
    requires NoBrackets(name) && PlainTags(ts)
    ensures Title(name + Tags(ts), rule) == name
  {
    TitleRunAppend(TITLE_START, name, Tags(ts), rule);
    PlainTextKept(TITLE_START, name, rule);
    assert [] + name == name;
    TagsLeaveSpaces(TitleScan(name, 0, 0), ts, rule);
    var k := name + Spaces(|ts|);
    assert TrimStart(k) == k;
    TrimEndDropsSpaces(name, |ts|);
  }

  /** Under `SaturatingI32`, a negative round counter hides the text until a `(` appears. */
  lemma {:induction false} NegativeDepthHides(st: TitleScan, s: string)
    requires st.round < 0 && '(' !in s
    ensures TitleRun(st, s, SaturatingI32).title == st.title
    ensures TitleRun(st, s, SaturatingI32).round < 0
    decreases |s|
  {
    if s != [] {
      assert s[0] != '(' && '(' !in s[1..];
      NegativeDepthHides(TitleStep(st, s[0], SaturatingI32), s[1..]);
    }
  }

  /**
   * The i32 rule: an unmatched `)` at depth 0 drives the counter to -1, so
   * nothing after it is kept unless a `(` follows.
   */
  lemma UnmatchedCloserHidesRest(st: TitleScan, s: string)
    requires st.round == 0 && '(' !in s
    ensures TitleRun(st, [')'] + s, SaturatingI32).title == st.title
  {
    TitleRunAppend(st, [')'], s, SaturatingI32);
    assert TitleRun(st, [')'], SaturatingI32) == st.(round := -1);
    NegativeDepthHides(st.(round := -1), s);
  }

  /** The guarded rule: an unmatched `)` at depth 0 changes nothing. */
  lemma UnmatchedCloserIgnored(st: TitleScan, s: string)
    requires st.round == 0
    ensures TitleRun(st, [')'] + s, StopAtZero) == TitleRun(st, s, StopAtZero)
  {
    TitleRunAppend(st, [')'], s, StopAtZero);
    assert TitleRun(st, [')'], StopAtZero) == st;
  }

  /** Under the guarded rule the depth counters never go negative. */
  lemma {:induction false} StopAtZeroNeverNegative(st: TitleScan, s: string)
    requires st.round >= 0 && st.square >= 0
    ensures TitleRun(st, s, StopAtZero).round >= 0 && TitleRun(st, s, StopAtZero).square >= 0
    decreases |s|
  {
    if s != [] {
      StopAtZeroNeverNegative(TitleStep(st, s[0], StopAtZero), s[1..]);
    }
  }

  // ---------------------------------------------------------------- covers

  const COVER_EXTENSIONS: seq<string> := ["png", "jpg", "jpeg", "webp"]

  /** The first `with_extension(ext)` sibling that exists, trying `exts` in order. */
  function FirstExisting(rom: Path, exts: seq<string>, existing: set<Path>): (r: Option<Path>)
    ensures r.Some? ==> r.value in existing
  {
    if exts == [] then None
    else if WithExtension(rom, exts[0]) in existing then Some(WithExtension(rom, exts[0]))
    else FirstExisting(rom, exts[1..], existing)
  }

  /** `find_cover`; `existing` stands for the files on disk. */
  function FindCover(rom: Path, existing: set<Path>): Option<Path>
  {
    FirstExisting(rom, COVER_EXTENSIONS, existing)
  }

  /** png, then jpg, then jpeg, then webp: the first that exists wins. */
  lemma FindCoverOrder(rom: Path, existing: set<Path>)
    ensures WithExtension(rom, "png") in existing ==> FindCover(rom, existing) == Some(WithExtension(rom, "png"))
    ensures WithExtension(rom, "png") !in existing && WithExtension(rom, "jpg") in existing ==>
      FindCover(rom, existing) == Some(WithExtension(rom, "jpg"))
    ensures (WithExtension(rom, "png") !in existing && WithExtension(rom, "jpg") !in existing &&
             WithExtension(rom, "jpeg") in existing) ==>
      FindCover(rom, existing) == Some(WithExtension(rom, "jpeg"))
    ensures (WithExtension(rom, "png") !in existing && WithExtension(rom, "jpg") !in existing &&
             WithExtension(rom, "jpeg") !in existing) ==>
      FindCover(rom, existing) == if WithExtension(rom, "webp") in existing then Some(WithExtension(rom, "webp")) else None
  {
    FirstExistingStep(rom, "png", ["jpg", "jpeg", "webp"], existing);
    FirstExistingStep(rom, "jpg", ["jpeg", "webp"], existing);
    FirstExistingStep(rom, "jpeg", ["webp"], existing);
    FirstExistingStep(rom, "webp", [], existing);
  }

  lemma FirstExistingStep(rom: Path, ext: string, rest: seq<string>, existing: set<Path>)
    ensures FirstExisting(rom, [ext] + rest, existing) ==
      if WithExtension(rom, ext) in existing then Some(WithExtension(rom, ext)) else FirstExisting(rom, rest, existing)
  {
    assert ([ext] + rest)[1..] == rest;
  }

  // ---------------------------------------------------------------- directories

  /**
   * The `~` expansion of a configured directory: `home` joined with the rest
   * after its leading slashes; `home` is `None` when the home directory is
   * unknown, and the value is then used as it is.
   */
  function ExpandTilde(value: string, home: Option<Path>): (r: Path)
    ensures !StartsWith(value, "~") || home.None? ==> r == value
  {
    if StartsWith(value, "~") && home.Some? then Paths.Join(home.value, TrimStartMatches(value[1..], "/"))
    else value
  }

  /** An expanded path starting `~` lies under the home directory. */
  lemma ExpandedUnderHome(rest: string, home: Path)
    requires home != []
    ensures var r := ExpandTilde("~" + rest, Some(home));
      StartsWith(r, home) && EndsWith(r, TrimStartMatches(rest, "/"))
  {
    assert StartsWith("~" + rest, "~");
    assert ("~" + rest)[1..] == rest;
    var tail := TrimStartMatches(rest, "/");
    assert !IsAbsolute(tail);
  }

  // ---------------------------------------------------------------- configuration lines

  /** A trimmed INI line starting `;` or `#` is a comment. */
  predicate IsComment(t: string)
  {
    t != [] && (t[0] == ';' || t[0] == '#')
  }

  /** A trimmed INI line between `[` and `]` is a section header. */
  predicate IsHeader(t: string)
  {
    t != [] && t[0] == '[' && t[|t| - 1] == ']'
  }

  // ---------------------------------------------------------------- entries

  /** `path.file_stem().unwrap_or_default()`. */
  function StemOrEmpty(p: Path): string
  {
    match FileStem(p)
    case None => []
    case Some(stem) => stem
  }

  /** `path.file_name().unwrap_or_default()`. */
  function FileNameOrEmpty(p: Path): string
  {
    match FileName(p)
    case None => []
    case Some(name) => name
  }

  /**
   * The entry every `process_rom` builds: `AppEntry::new(title, exec, cover)`
   * with the launch key `<prefix><file name>`, where the prefix is the
   * emulator's name and a colon; `id` is the fresh id `AppEntry::new` draws.
   */
  function RomEntry(path: Path, rule: CloserRule, exec: string, keyPrefix: string, id: Uuid, existing: set<Path>): (r: AppEntry)
    ensures r.id == id && r.exec == exec && r.gameExecutable == None
    ensures r.name == Title(StemOrEmpty(path), rule) && NoBrackets(r.name)
    ensures r.icon == FindCover(path, existing) && (r.icon.Some? ==> r.icon.value in existing)
    ensures r.launchKey == Some(keyPrefix + FileNameOrEmpty(path))
  {
    TitleHasNoBrackets(StemOrEmpty(path), rule);
    WithLaunchKey(NewAppEntry(id, Title(StemOrEmpty(path), rule), exec, FindCover(path, existing)), keyPrefix + FileNameOrEmpty(path))
  }

  /**
   * A ROM file `<name> <tags>.<ext>` in a directory is listed under `name`,
   * and its launch key holds the whole file name.
   */
  lemma RomEntryOfTaggedFile(dir: Path, name: string, ts: seq<Tag>, ext: string, rule: CloserRule,
                             exec: string, keyPrefix: string, id: Uuid, existing: set<Path>)
    requires dir == [] || dir[|dir| - 1] == '/'
    requires name != [] && !IsWhitespace(name[0]) && !IsWhitespace(name[|name| - 1])
    requires NoBrackets(name) && PlainTags(ts) && '/' !in name + Tags(ts)
    requires ext != [] && '.' !in ext && '/' !in ext
    ensures RomEntry(dir + (name + Tags(ts)) + "." + ext, rule, exec, keyPrefix, id, existing).name == name
    ensures RomEntry(dir + (name + Tags(ts)) + "." + ext, rule, exec, keyPrefix, id, existing).launchKey ==
      Some(keyPrefix + (name + Tags(ts) + "." + ext))
  {
    var stem := name + Tags(ts);
    var p := dir + stem + "." + ext;
    assert StemOrEmpty(p) == stem && FileNameOrEmpty(p) == stem + "." + ext by {
      FileInDirectory(dir, stem, ext);
    }
    assert Title(stem, rule) == name by {
      TitleOfNameAndTags(name, ts, rule);
    }
  }
}
