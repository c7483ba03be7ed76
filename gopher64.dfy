// src/gopher64.rs: the Nintendo 64 ROM scanner for gopher64. `config.json`
// names a ROM directory; every entry of that directory with a ROM extension
// becomes one entry launched through `gopher64 --fullscreen`. The file's
// JSON, the directory listing and the existing paths are inputs.
module Gopher64 {
  import opened Options
  import opened Strings
  import opened Paths
  import opened Model
  import opened Roms
  import Json

  // ---------------------------------------------------------------- extensions

  const GOPHER64_EXTENSIONS: set<string> := {"z64", "n64", "v64", "zip", "7z"}

  /** `is_valid_extension`: the extension, ASCII-lowercased, is one gopher64 opens. */
  predicate IsValidExtension(p: Path)
  {
    match Extension(p)
    case None => false
    case Some(e) => ToLower(e) in GOPHER64_EXTENSIONS
  }

  /** A ROM file is accepted exactly when its extension, lowercased, is a gopher64 one. */
  lemma ValidExtensionOfFile(dir: Path, stem: string, ext: string)
    requires dir == [] || dir[|dir| - 1] == '/'
    requires stem != [] && '/' !in stem && ext != [] && '.' !in ext && '/' !in ext
    ensures IsValidExtension(dir + stem + "." + ext) <==> ToLower(ext) in GOPHER64_EXTENSIONS
  {
    FileInDirectory(dir, stem, ext);
  }

  // ---------------------------------------------------------------- config.json

  const ROM_DIR_KEY := "rom_dir"

  /** How many members of an object carry `key`. */
  function KeyCount(members: seq<(string, Json.Value)>, key: string): (r: nat)
    ensures r <= |members|
    ensures r == 0 <==> Json.Lookup(members, key).None?
  {
    if members == [] then 0
    else (if members[0].0 == key then 1 else 0) + KeyCount(members[1..], key)
  }

  /**
   * `GopherConfig`'s derived deserialisation of the `rom_dir` field: a
   * missing field or `null` is `Ok(None)`, a string is a path, a repeated
   * field or any other value is an error (`None` here). Other fields are
   * ignored.
   */
  function RomDirField(members: seq<(string, Json.Value)>): (r: Option<Option<Path>>)
    ensures r.Some? && r.value.Some? ==> Json.GetStr(members, ROM_DIR_KEY) == r.value
  {
    if KeyCount(members, ROM_DIR_KEY) > 1 then None
    else
      match Json.Lookup(members, ROM_DIR_KEY)
      case None => Some(None)
      case Some(v) =>
        if v.Null? then Some(None)
        else if v.Str? then Some(Some(v.s))
        else None
  }

  /**
   * The same deserialisation from the struct's sequence form, which serde
   * also accepts: exactly one element, `null` or a path string. An empty
   * array lacks the field and a longer one has trailing elements, and both
   * are errors.
   */
  function RomDirElement(items: seq<Json.Value>): (r: Option<Option<Path>>)
    ensures r.Some? <==> |items| == 1 && (items[0].Null? || items[0].Str?)
    ensures r.Some? && r.value.Some? ==> items == [Json.Str(r.value.value)]
  {
    if |items| != 1 then None
    else if items[0].Null? then Some(None)
    else if items[0].Str? then Some(Some(items[0].s))
    else None
  }

  /**
   * `serde_json::from_str::<GopherConfig>` on parsed JSON: the `rom_dir`
   * of an object or a one-element array, `None` for a decoding error.
   */
  function DecodeConfig(v: Json.Value): (r: Option<Option<Path>>)
    ensures r.Some? ==> v.Object? || v.Array?
  {
    match v
    case Object(members) => RomDirField(members)
    case Array(items) => RomDirElement(items)
    case _ => None
  }

  /**
   * `parse_config`: `json` is `None` when the file cannot be read or is not
   * JSON; the result is the configured directory when it exists.
   */
  function ParseConfig(json: Option<Json.Value>, existing: set<Path>): (r: Option<Path>)
    ensures json.None? ==> r.None?
    ensures r.Some? ==> r.value in existing
  {
    match json
    case None => None
    case Some(v) =>
      match DecodeConfig(v)
      case Some(Some(d)) => if d in existing then Some(d) else None
      case _ => None
  }

  /**
   * `parse_config` names a directory exactly when the file is a JSON object
   * whose only `rom_dir` member is a string naming an existing directory,
   * or a one-element array holding that string.
   */
  lemma ParseConfigSpec(json: Option<Json.Value>, existing: set<Path>, d: Path)
    ensures ParseConfig(json, existing) == Some(d) <==>
      json.Some? && d in existing &&
      ((json.value.Object? && KeyCount(json.value.members, ROM_DIR_KEY) == 1 &&
        Json.Lookup(json.value.members, ROM_DIR_KEY) == Some(Json.Str(d))) ||
       (json.value.Array? && json.value.items == [Json.Str(d)]))
  {
  }

  /** `["d"]` gives `d` when it exists; `[]`, `[null]` and longer arrays give nothing. */
  lemma SequenceForm(d: Path, rest: seq<Json.Value>, existing: set<Path>)
    ensures ParseConfig(Some(Json.Array([Json.Str(d)])), existing) == if d in existing then Some(d) else None
    ensures ParseConfig(Some(Json.Array([])), existing) == None
    ensures ParseConfig(Some(Json.Array([Json.Null])), existing) == None
    ensures ParseConfig(Some(Json.Array([Json.Str(d)] + [Json.Str(d)] + rest)), existing) == None
  {
  }

  /** An object without a `rom_dir` member, or with a `null` one, gives nothing. */
  lemma MissingOrNullGivesNothing(members: seq<(string, Json.Value)>, existing: set<Path>)
    requires Json.Lookup(members, ROM_DIR_KEY).None? || Json.Lookup(members, ROM_DIR_KEY) == Some(Json.Null)
    ensures ParseConfig(Some(Json.Object(members)), existing) == None
  {
  }

  /** `{"rom_dir": d}` gives `d` when it exists and nothing when it does not. */
  lemma SingleRomDir(d: Path, existing: set<Path>)
    ensures ParseConfig(Some(Json.Object([(ROM_DIR_KEY, Json.Str(d))])), existing) ==
      if d in existing then Some(d) else None
  {
    var members := [(ROM_DIR_KEY, Json.Str(d))];
    assert members[1..] == [];
    assert KeyCount(members, ROM_DIR_KEY) == 1;
  }

  /** Members beside `rom_dir` do not matter, wherever they are. */
  lemma {:induction false} OtherFieldIgnored(k: string, v: Json.Value, members: seq<(string, Json.Value)>)
    requires k != ROM_DIR_KEY
    ensures RomDirField([(k, v)] + members) == RomDirField(members)
  {
    var all := [(k, v)] + members;
    assert all[0].0 == k && all[1..] == members;
    Json.LookupStep(k, v, members, ROM_DIR_KEY);
  }

  /** A repeated `rom_dir` is an error, whatever the values. */
  lemma RepeatedRomDirRejected(a: Json.Value, b: Json.Value, members: seq<(string, Json.Value)>, existing: set<Path>)
    ensures ParseConfig(Some(Json.Object([(ROM_DIR_KEY, a), (ROM_DIR_KEY, b)] + members)), existing) == None
  {
    var all := [(ROM_DIR_KEY, a), (ROM_DIR_KEY, b)] + members;
    assert all[0].0 == ROM_DIR_KEY && all[1..][0].0 == ROM_DIR_KEY && all[1..][1..] == members;
    assert KeyCount(all, ROM_DIR_KEY) >= 2;
  }

  // ---------------------------------------------------------------- the scan

  /** The directory entries that are ROMs, in listing order. */
  function RomPaths(entries: seq<Path>): (r: seq<Path>)
    ensures |r| <= |entries|
  {
    if entries == [] then []
    else (if IsValidExtension(entries[0]) then [entries[0]] else []) + RomPaths(entries[1..])
  }

  /** A path is listed exactly when it is an entry with a ROM extension. */
  lemma {:induction false} RomPathsMembers(entries: seq<Path>, p: Path)
    ensures p in RomPaths(entries) <==> p in entries && IsValidExtension(p)
    decreases |entries|
  {
    if entries != [] {
      RomPathsMembers(entries[1..], p);
      assert entries == [entries[0]] + entries[1..];
    }
  }

  /** No deduplication: a listing without ROM-less entries comes back whole. */
  lemma {:induction false} AllRomsKept(entries: seq<Path>)
    requires AllRoms(entries)
    ensures RomPaths(entries) == entries
    decreases |entries|
  {
    if entries != [] {
      AllRomsTail(entries);
      AllRomsKept(entries[1..]);
      assert entries == [entries[0]] + entries[1..];
    }
  }

  /** Every entry has a ROM extension. */
  predicate AllRoms(entries: seq<Path>)
  {
    forall i :: 0 <= i < |entries| ==> IsValidExtension(entries[i])
  }

  lemma AllRomsTail(entries: seq<Path>)
    requires entries != [] && AllRoms(entries)
    ensures IsValidExtension(entries[0]) && AllRoms(entries[1..])
  {
    assert forall i :: 0 <= i < |entries[1..]| ==> entries[1..][i] == entries[i + 1];
  }

  /** Step 2 of `scan_gopher64_games`: the loop over the directory's entries. */
  method ScanRomDir(entries: seq<Path>) returns (picked: seq<Path>)
    ensures picked == RomPaths(entries)
  {
    picked := [];
    var i := 0;
    while i < |entries|
      invariant 0 <= i <= |entries|
      invariant picked + RomPaths(entries[i..]) == RomPaths(entries)
    {
      assert entries[i..][0] == entries[i] && entries[i..][1..] == entries[i + 1..];
      var here := if IsValidExtension(entries[i]) then [entries[i]] else [];
      ConcatAssoc(picked, here, RomPaths(entries[i + 1..]));
      if IsValidExtension(entries[i]) {
        picked := picked + [entries[i]];
      }
      i := i + 1;
    }
    assert RomPaths(entries[i..]) == [];
    assert picked + [] == picked;
  }

  // ---------------------------------------------------------------- entries

  /** The launch command. */
  function GopherExec(path: Path): (r: string)
    ensures StartsWith(r, "gopher64 --fullscreen \"") && EndsWith(r, "\"" + path + "\"")
  {
    var r := "gopher64 --fullscreen " + ("\"" + path + "\"");
    assert r == "gopher64 --fullscreen \"" + (path + "\"");
    r
  }

  /** `process_rom`: always an entry, titled by the `i32` rule and keyed `gopher64:<file name>`. */
  function ProcessRom(path: Path, id: Uuid, existing: set<Path>): (r: AppEntry)
    ensures r.name == Title(StemOrEmpty(path), SaturatingI32) && NoBrackets(r.name)
    ensures r.exec == GopherExec(path) && r.icon == FindCover(path, existing)
    ensures r.launchKey == Some("gopher64:" + FileNameOrEmpty(path)) && r.gameExecutable == None
  {
    RomEntry(path, SaturatingI32, GopherExec(path), "gopher64:", id, existing)
  }

  /** A ROM `<name> <tags>.<ext>` is listed as `name`, keyed by its whole file name. */
  lemma ProcessRomOfTaggedFile(dir: Path, file: string, name: string, ts: seq<Tag>, ext: string,
                               id: Uuid, existing: set<Path>)
    requires dir == [] || dir[|dir| - 1] == '/'
    requires name != [] && !IsWhitespace(name[0]) && !IsWhitespace(name[|name| - 1])
    requires NoBrackets(name) && PlainTags(ts) && '/' !in name + Tags(ts)
    requires ext != [] && '.' !in ext && '/' !in ext
    requires file == (name + Tags(ts)) + "." + ext
    ensures ProcessRom(dir + file, id, existing).name == name
    ensures ProcessRom(dir + file, id, existing).launchKey == Some("gopher64:" + file)
  {
    var path := dir + (name + Tags(ts)) + "." + ext;
    assert dir + file == path;
    RomEntryOfTaggedFile(dir, name, ts, ext, SaturatingI32, GopherExec(path), "gopher64:", id, existing);
  }
}
