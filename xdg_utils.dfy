// src/xdg_utils.rs: system applications found through the XDG desktop-entry
// search path. Parsing a `.desktop` file and the icon-theme lookup are done
// by libraries: an entry arrives as its parsed fields, and the theme lookup
// as a map from icon names to the files it would find.
module XdgUtils {
  import opened Options
  import opened Strings
  import opened Sorting
  import opened Paths
  import opened Model

  // ---------------------------------------------------------------- Exec

  /** A `%` field code such as `%f` or `%U`. */
  predicate IsFieldCode(token: string)
  {
    token != [] && token[0] == '%'
  }

  /** The tokens that are not field codes, in order. */
  function CommandTokens(tokens: seq<string>): (r: seq<string>)
    ensures |r| <= |tokens|
    ensures forall i :: 0 <= i < |r| ==> !IsFieldCode(r[i])
  {
    if tokens == [] then []
    else (if IsFieldCode(tokens[0]) then [] else [tokens[0]]) + CommandTokens(tokens[1..])
  }

  /** `clean_exec_code`: whitespace tokens without field codes, joined by single spaces. */
  function CleanExecCode(exec: string): string
  {
    Strings.Join(CommandTokens(Words(exec)), " ")
  }

  lemma {:induction false} CommandTokensAppend(a: seq<string>, b: seq<string>)
    ensures CommandTokens(a + b) == CommandTokens(a) + CommandTokens(b)
    decreases |a|
  {
    if a == [] {
      assert a + b == b;
    } else {
      assert (a + b)[0] == a[0] && (a + b)[1..] == a[1..] + b;
      CommandTokensAppend(a[1..], b);
      ConcatAssoc(if IsFieldCode(a[0]) then [] else [a[0]], CommandTokens(a[1..]), CommandTokens(b));
    }
  }

  lemma {:induction false} CommandTokensKeepsWords(tokens: seq<string>)
    requires forall i :: 0 <= i < |tokens| ==> tokens[i] != [] && NoWhitespace(tokens[i])
    ensures forall i :: 0 <= i < |CommandTokens(tokens)| ==>
      CommandTokens(tokens)[i] != [] && NoWhitespace(CommandTokens(tokens)[i])
    decreases |tokens|
  {
    if tokens != [] {
      CommandTokensKeepsWords(tokens[1..]);
      var r := CommandTokens(tokens);
      var rest := CommandTokens(tokens[1..]);
      forall i | 0 <= i < |r| ensures r[i] != [] && NoWhitespace(r[i]) {
        if !IsFieldCode(tokens[0]) && i > 0 {
          assert r[i] == rest[i - 1];
        }
      }
    }
  }

  lemma {:induction false} CommandTokensIdempotent(tokens: seq<string>)
    ensures CommandTokens(CommandTokens(tokens)) == CommandTokens(tokens)
    decreases |tokens|
  {
    if tokens != [] {
      CommandTokensIdempotent(tokens[1..]);
      var head := if IsFieldCode(tokens[0]) then [] else [tokens[0]];
      CommandTokensAppend(head, CommandTokens(tokens[1..]));
      if head != [] {
        assert head[1..] == [];
      }
    }
  }

  /**
   * The cleaned command's words are exactly the original words that are not
   * field codes, in order; in particular none of them is a field code.
   */
  lemma CleanExecWords(exec: string)
    ensures Words(CleanExecCode(exec)) == CommandTokens(Words(exec))
    ensures forall i :: 0 <= i < |Words(CleanExecCode(exec))| ==> !IsFieldCode(Words(CleanExecCode(exec))[i])
  {
    CommandTokensKeepsWords(Words(exec));
    WordsOfJoin(CommandTokens(Words(exec)));
  }

  /** Cleaning a cleaned command changes nothing. */
  lemma CleanExecIdempotent(exec: string)
    ensures CleanExecCode(CleanExecCode(exec)) == CleanExecCode(exec)
  {
    CleanExecWords(exec);
    CommandTokensIdempotent(Words(exec));
  }

  /**
   * A command of plain words followed by field codes loses the codes, as in
   * `vlc %U` → `vlc` and `my-app --arg %i` → `my-app --arg`.
   */
  lemma TrailingFieldCodesDropped(command: seq<string>, codes: seq<string>)
    requires forall i :: 0 <= i < |command| ==> command[i] != [] && NoWhitespace(command[i]) && !IsFieldCode(command[i])
    requires forall i :: 0 <= i < |codes| ==> NoWhitespace(codes[i]) && IsFieldCode(codes[i])
    ensures CleanExecCode(Strings.Join(command + codes, " ")) == Strings.Join(command, " ")
  {
    var all := command + codes;
    assert forall i :: 0 <= i < |all| ==> all[i] != [] && NoWhitespace(all[i]) by {
      forall i | 0 <= i < |all| ensures all[i] != [] && NoWhitespace(all[i]) {
        if i >= |command| {
          assert all[i] == codes[i - |command|];
        }
      }
    }
    WordsOfJoin(all);
    CommandTokensAppend(command, codes);
    PlainTokensKept(command);
    FieldCodesDropped(codes);
    assert command + [] == command;
  }

  lemma {:induction false} PlainTokensKept(tokens: seq<string>)
    requires forall i :: 0 <= i < |tokens| ==> !IsFieldCode(tokens[i])
    ensures CommandTokens(tokens) == tokens
    decreases |tokens|
  {
    if tokens != [] {
      PlainTokensKept(tokens[1..]);
      assert tokens == [tokens[0]] + tokens[1..];
    }
  }

  lemma {:induction false} FieldCodesDropped(tokens: seq<string>)
    requires forall i :: 0 <= i < |tokens| ==> IsFieldCode(tokens[i])
    ensures CommandTokens(tokens) == []
    decreases |tokens|
  {
    if tokens != [] {
      FieldCodesDropped(tokens[1..]);
    }
  }

  // ---------------------------------------------------------------- icons

  const ICON_EXTENSIONS: set<string> := {"png", "svg", "xpm", "jpg", "jpeg"}
  const PIXMAP_EXTENSIONS: seq<string> := ["png", "svg", "xpm", "jpg"]
  const PIXMAP_DIR := "/usr/share/pixmaps/"

  /** The name given to the theme lookup: the icon name without a known image extension. */
  function IconSearchName(icon: string): (r: string)
    ensures |r| <= |icon| && r == icon[..|r|]
  {
    match RFindChar(icon, '.')
    case None => icon
    case Some(dot) => if ToLower(icon[dot + 1..]) in ICON_EXTENSIONS then icon[..dot] else icon
  }

  /** `name.ext` is searched as `name` exactly when `ext`, lowercased, is an image extension. */
  lemma IconSearchNameOf(name: string, ext: string)
    requires '.' !in ext
    ensures IconSearchName(name + "." + ext) == if ToLower(ext) in ICON_EXTENSIONS then name else name + "." + ext
  {
    var s := name + "." + ext;
    assert s[|name|] == '.';
    assert s[|name| + 1..] == ext;
    assert s[..|name|] == name;
    RFindCharAt(s, '.', |name|);
  }

  /** An icon name without a `.` is searched unchanged. */
  lemma IconSearchNameWithoutDot(icon: string)
    requires '.' !in icon
    ensures IconSearchName(icon) == icon
  {
  }

  /** `/usr/share/pixmaps/<name>.<ext>`. */
  function PixmapPath(name: string, ext: string): Path
  {
    PIXMAP_DIR + name + "." + ext
  }

  /** The first pixmap fallback that exists, trying `exts` in order. */
  function FirstPixmap(name: string, exts: seq<string>, existing: set<Path>): (r: Option<Path>)
    ensures r.Some? ==> r.value in existing
    ensures r.Some? ==> exists k :: 0 <= k < |exts| && r.value == PixmapPath(name, exts[k])
  {
    if exts == [] then None
    else if PixmapPath(name, exts[0]) in existing then Some(PixmapPath(name, exts[0]))
    else
      var r := FirstPixmap(name, exts[1..], existing);
      assert r.Some? ==> exists k :: 0 <= k < |exts[1..]| && r.value == PixmapPath(name, exts[1..][k]);
      assert forall k :: 0 <= k < |exts[1..]| ==> exts[1..][k] == exts[k + 1];
      r
  }

  /** A pixmap is used only when no earlier extension's file exists. */
  lemma {:induction false} FirstPixmapIsFirst(name: string, exts: seq<string>, existing: set<Path>, k: nat)
    requires k < |exts| && FirstPixmap(name, exts, existing) == Some(PixmapPath(name, exts[k]))
    requires forall j :: 0 <= j < |exts| ==> PixmapPath(name, exts[j]) == PixmapPath(name, exts[k]) ==> j == k
    ensures forall j :: 0 <= j < k ==> PixmapPath(name, exts[j]) !in existing
    decreases |exts|
  {
    if PixmapPath(name, exts[0]) !in existing && k > 0 {
      forall j | 0 <= j < |exts[1..]| && PixmapPath(name, exts[1..][j]) == PixmapPath(name, exts[1..][k - 1])
        ensures j == k - 1
      {
        assert exts[1..][j] == exts[j + 1];
      }
      FirstPixmapIsFirst(name, exts[1..], existing, k - 1);
      forall j | 0 <= j < k ensures PixmapPath(name, exts[j]) !in existing {
        if j > 0 {
          assert exts[j] == exts[1..][j - 1];
        }
      }
    } else if PixmapPath(name, exts[0]) in existing {
      assert PixmapPath(name, exts[0]) == PixmapPath(name, exts[k]);
    }
  }

  /** What the theme lookup finds for a name. */
  function ThemeLookup(name: string, lookup: map<string, Path>): Option<Path>
  {
    if name in lookup then Some(lookup[name]) else None
  }

  /**
   * The icon `convert_entry` settles on: an absolute name as it is, otherwise
   * the theme lookup of the search name, otherwise the first pixmap that exists.
   */
  function EntryIcon(icon: Option<string>, lookup: map<string, Path>, existing: set<Path>): Option<string>
  {
    match icon
    case None => None
    case Some(name) =>
      if StartsWith(name, "/") then Some(name)
      else
        var search := IconSearchName(name);
        ThemeLookup(search, lookup).Or(FirstPixmap(search, PIXMAP_EXTENSIONS, existing))
  }

  /** An absolute icon path is used as it is, whether or not the file exists. */
  lemma AbsoluteIconKept(name: string, lookup: map<string, Path>, existing: set<Path>)
    requires name != [] && name[0] == '/'
    ensures EntryIcon(Some(name), lookup, existing) == Some(name)
  {
  }

  /** A themed icon wins over the pixmap fallback. */
  lemma ThemeIconFirst(name: string, lookup: map<string, Path>, existing: set<Path>)
    requires !StartsWith(name, "/") && IconSearchName(name) in lookup
    ensures EntryIcon(Some(name), lookup, existing) == Some(lookup[IconSearchName(name)])
  {
  }

  /** Without a themed icon, the first pixmap that exists is used, and none when none does. */
  lemma PixmapFallback(name: string, lookup: map<string, Path>, existing: set<Path>)
    requires !StartsWith(name, "/") && IconSearchName(name) !in lookup
    ensures EntryIcon(Some(name), lookup, existing) == FirstPixmap(IconSearchName(name), PIXMAP_EXTENSIONS, existing)
    ensures (forall k :: 0 <= k < |PIXMAP_EXTENSIONS| ==> PixmapPath(IconSearchName(name), PIXMAP_EXTENSIONS[k]) !in existing)
      ==> EntryIcon(Some(name), lookup, existing) == None
  {
    var r := FirstPixmap(IconSearchName(name), PIXMAP_EXTENSIONS, existing);
    if r.Some? {
      var k :| 0 <= k < |PIXMAP_EXTENSIONS| && r.value == PixmapPath(IconSearchName(name), PIXMAP_EXTENSIONS[k]);
    }
  }

  // ---------------------------------------------------------------- entries

  /** The fields of a parsed desktop entry that `convert_entry` reads. */
  datatype DesktopEntry = DesktopEntry(
    noDisplay: bool,
    entryType: Option<string>,
    name: Option<string>,
    exec: Option<string>,
    icon: Option<string>)

  const APPLICATION := "Application"

  /** An entry is shown when it is displayed, an application, and has a name and a command. */
  predicate Listed(e: DesktopEntry)
  {
    !e.noDisplay && e.entryType == Some(APPLICATION) && e.name.Some? && e.exec.Some?
  }

  /** What `convert_entry` returns. */
  function EntryApp(e: DesktopEntry, lookup: map<string, Path>, existing: set<Path>, id: Uuid): (r: Option<AppEntry>)
    ensures r.Some? <==> Listed(e)
    ensures r.Some? ==> r.value.name == e.name.value && r.value.exec == CleanExecCode(e.exec.value)
    ensures r.Some? ==> r.value.icon == EntryIcon(e.icon, lookup, existing) && r.value.launchKey == None
  {
    if !Listed(e) then None
    else Some(NewAppEntry(id, e.name.value, CleanExecCode(e.exec.value), EntryIcon(e.icon, lookup, existing)))
  }

  /** `convert_entry`, with its early returns and the pixmap probe loop. */
  method ConvertEntry(e: DesktopEntry, lookup: map<string, Path>, existing: set<Path>, id: Uuid)
    returns (app: Option<AppEntry>)
    ensures app == EntryApp(e, lookup, existing, id)
  {
    if e.noDisplay {
      return None;
    }
    if e.entryType != Some(APPLICATION) {
      return None;
    }
    if e.name.None? || e.exec.None? {
      return None;
    }
    var exec := CleanExecCode(e.exec.value);
    var icon := ResolveIcon(e.icon, lookup, existing);
    app := Some(NewAppEntry(id, e.name.value, exec, icon));
  }

  /** The icon lookup of `convert_entry`. */
  method ResolveIcon(iconField: Option<string>, lookup: map<string, Path>, existing: set<Path>)
    returns (icon: Option<string>)
    ensures icon == EntryIcon(iconField, lookup, existing)
  {
    icon := None;
    if iconField.Some? {
      var iconName := iconField.value;
      if StartsWith(iconName, "/") {
        icon := Some(iconName);
      } else {
        var search := IconSearchName(iconName);
        icon := ThemeLookup(search, lookup);
        if icon.None? {
          icon := ProbePixmaps(search, existing);
        }
      }
    }
  }

  /** The pixmap probe loop: the first `/usr/share/pixmaps/<name>.<ext>` that exists. */
  method ProbePixmaps(search: string, existing: set<Path>) returns (icon: Option<Path>)
    ensures icon == FirstPixmap(search, PIXMAP_EXTENSIONS, existing)
  {
    icon := None;
    var k := 0;
    while k < |PIXMAP_EXTENSIONS|
      invariant 0 <= k <= |PIXMAP_EXTENSIONS|
      invariant FirstPixmap(search, PIXMAP_EXTENSIONS, existing) == FirstPixmap(search, PIXMAP_EXTENSIONS[k..], existing)
    {
      assert PIXMAP_EXTENSIONS[k..][0] == PIXMAP_EXTENSIONS[k];
      assert PIXMAP_EXTENSIONS[k..][1..] == PIXMAP_EXTENSIONS[k + 1..];
      var candidate := PixmapPath(search, PIXMAP_EXTENSIONS[k]);
      if candidate in existing {
        return Some(candidate);
      }
      k := k + 1;
    }
  }

  // ---------------------------------------------------------------- themes

  const HICOLOR := "hicolor"

  /** `eq_ignore_ascii_case("hicolor")`. */
  predicate IsHicolor(theme: string)
  {
    EqIgnoreCase(theme, HICOLOR)
  }

  /** The listed themes other than any case variant of `hicolor`, in order. */
  function OtherThemes(listed: seq<string>): (r: seq<string>)
    ensures |r| <= |listed|
    ensures forall i :: 0 <= i < |r| ==> !IsHicolor(r[i])
  {
    if listed == [] then []
    else (if IsHicolor(listed[0]) then [] else [listed[0]]) + OtherThemes(listed[1..])
  }

  /** `ordered_themes`: `hicolor`, then the other listed themes. */
  method OrderedThemes(listed: seq<string>) returns (ordered: seq<string>)
    ensures ordered == [HICOLOR] + OtherThemes(listed)
  {
    ordered := [HICOLOR];
    var i := 0;
    while i < |listed|
      invariant 0 <= i <= |listed|
      invariant ordered + OtherThemes(listed[i..]) == [HICOLOR] + OtherThemes(listed)
    {
      assert listed[i..][0] == listed[i] && listed[i..][1..] == listed[i + 1..];
      var here := if IsHicolor(listed[i]) then [] else [listed[i]];
      ConcatAssoc(ordered, here, OtherThemes(listed[i + 1..]));
      if !IsHicolor(listed[i]) {
        ordered := ordered + [listed[i]];
      }
      i := i + 1;
    }
    assert OtherThemes(listed[i..]) == [];
    assert ordered + [] == ordered;
  }

  /** A theme follows `hicolor` exactly when it is listed and is not a variant of it. */
  lemma {:induction false} OtherThemesMembers(listed: seq<string>, t: string)
    ensures t in OtherThemes(listed) <==> t in listed && !IsHicolor(t)
    decreases |listed|
  {
    if listed != [] {
      OtherThemesMembers(listed[1..], t);
      assert listed == [listed[0]] + listed[1..];
    }
  }

  /** `hicolor` comes first and no variant of it comes again. */
  lemma HicolorExactlyOnce(listed: seq<string>)
    ensures var r := [HICOLOR] + OtherThemes(listed);
      r[0] == HICOLOR && IsHicolor(r[0]) && forall i :: 1 <= i < |r| ==> !IsHicolor(r[i])
  {
    var r := [HICOLOR] + OtherThemes(listed);
    forall i | 1 <= i < |r| ensures !IsHicolor(r[i]) {
      assert r[i] == OtherThemes(listed)[i - 1];
    }
  }

  // ---------------------------------------------------------------- sort and dedup

  /** `a.name.cmp(&b.name)`. */
  function NameOrder(a: AppEntry, b: AppEntry): Ordering
  {
    StrCmp(a.name, b.name)
  }

  /** `dedup_by(|a, b| a.name == b.name && a.exec == b.exec)`. */
  predicate SameNameAndExec(a: AppEntry, b: AppEntry)
  {
    a.name == b.name && a.exec == b.exec
  }

  /** The list `scan_system_apps` returns, as written: sorted by name only. */
  function SortAndDedup(apps: seq<AppEntry>): seq<AppEntry>
  {
    DedupBy(SortBy(apps, NameOrder), SameNameAndExec)
  }

  /** Every scanned app has a listed app with its name and command. */
  ghost predicate ListsEvery(apps: seq<AppEntry>, r: seq<AppEntry>)
  {
    forall a :: a in apps ==> exists k :: 0 <= k < |r| && SameNameAndExec(r[k], a)
  }

  /** Every listed app is the first scanned app with its name and command. */
  ghost predicate FirstFound(apps: seq<AppEntry>, r: seq<AppEntry>)
  {
    forall k :: 0 <= k < |r| ==>
      exists i :: 0 <= i < |apps| && apps[i] == r[k] && forall j :: 0 <= j < i ==> !SameNameAndExec(apps[j], apps[i])
  }

  /** Sorting by any order and merging equal neighbours keeps every app's name and command. */
  lemma DedupListsEvery(apps: seq<AppEntry>, cmp: (AppEntry, AppEntry) -> Ordering)
    ensures ListsEvery(apps, DedupBy(SortBy(apps, cmp), SameNameAndExec))
  {
    var r := DedupBy(SortBy(apps, cmp), SameNameAndExec);
    SortDedupCovers(apps, cmp, SameNameAndExec);
    forall a | a in apps ensures exists k :: 0 <= k < |r| && SameNameAndExec(r[k], a) {
      var k :| 0 <= k < |r| && (r[k] == a || SameNameAndExec(a, r[k]));
      assert SameNameAndExec(r[k], a);
    }
  }

  /**
   * As written, the result is sorted by name, holds only scanned apps, lists
   * every scanned name and command, and each listed app starts its run of
   * equal apps in the sorted list.
   */
  lemma SortAndDedupOrdered(apps: seq<AppEntry>)
    ensures var r := SortAndDedup(apps);
      (forall i :: 0 < i < |r| ==> NameOrder(r[i - 1], r[i]) != Greater && !SameNameAndExec(r[i], r[i - 1])) &&
      multiset(r) <= multiset(apps)
    ensures ListsEvery(apps, SortAndDedup(apps))
    ensures KeepsRunStarts(SortBy(apps, NameOrder), SortAndDedup(apps), SameNameAndExec)
  {
    SortAndDedupSorted(apps);
    DedupListsEvery(apps, NameOrder);
    DedupKeepsRunStarts(SortBy(apps, NameOrder), SameNameAndExec);
  }

  lemma SortAndDedupSorted(apps: seq<AppEntry>)
    ensures var r := SortAndDedup(apps);
      (forall i :: 0 < i < |r| ==> NameOrder(r[i - 1], r[i]) != Greater && !SameNameAndExec(r[i], r[i - 1])) &&
      multiset(r) <= multiset(apps)
  {
    var sorted := SortBy(apps, NameOrder);
    NameOrderIsTotal();
    SortBySorted(apps, NameOrder);
    SortByPermutes(apps, NameOrder);
    DedupPermutesSubset(sorted, SameNameAndExec);
    var idx := DedupSubsequence(sorted, SameNameAndExec);
    var r := DedupBy(sorted, SameNameAndExec);
    SortedIsPairwise(sorted, NameOrder);
    forall i | 0 < i < |r| ensures NameOrder(r[i - 1], r[i]) != Greater {
      assert r[i - 1] == sorted[idx[i - 1]] && r[i] == sorted[idx[i]];
    }
  }

  lemma NameOrderIsTotal()
    ensures Antisymmetric(NameOrder) && Transitive(NameOrder)
  {
    forall a, b ensures NameOrder(a, b) == NameOrder(b, a).Reverse() {
      StrCmpAntisymmetric(a.name, b.name);
    }
    forall a, b, c | NameOrder(a, b) != Greater && NameOrder(b, c) != Greater ensures NameOrder(a, c) != Greater {
      StrCmpTransitive(a.name, b.name, c.name);
    }
  }

  /**
   * As written, two apps with the same name and command survive when an app
   * of the same name but another command sits between them in scan order.
   */
  lemma DuplicateSurvivesAsWritten(a: AppEntry, b: AppEntry)
    requires a.name == b.name && a.exec != b.exec
    ensures SortAndDedup([a, b, a]) == [a, b, a]
  {
    StrCmpEqual(a.name, b.name);
    SortKeepsEqualNames(a, b);
    DedupKeepsAlternating(a, b);
  }

  lemma SortKeepsEqualNames(a: AppEntry, b: AppEntry)
    requires NameOrder(b, a) == Equal && NameOrder(a, b) == Equal && NameOrder(a, a) == Equal
    ensures SortBy([a, b, a], NameOrder) == [a, b, a]
  {
    var s := [a, b, a];
    assert s[..2] == [a, b] && [a, b][..1] == [a] && [a][..0] == [];
    assert SortBy([a], NameOrder) == [a];
    assert [a][1..] == [];
    assert Insert(b, [a], NameOrder) == [a, b];
    assert SortBy([a, b], NameOrder) == [a, b];
    assert [a, b][1..] == [b] && [b][1..] == [];
    assert Insert(a, [b], NameOrder) == [b, a];
    assert Insert(a, [a, b], NameOrder) == [a, b, a];
  }

  lemma DedupKeepsAlternating(a: AppEntry, b: AppEntry)
    requires !SameNameAndExec(b, a) && !SameNameAndExec(a, b)
    ensures DedupBy([a, b, a], SameNameAndExec) == [a, b, a]
  {
    DedupByPair(a, b, SameNameAndExec);
    DedupByTriple(a, b, a, SameNameAndExec);
  }

  /** Name, then command: the order under which equal apps are neighbours. */
  function NameExecOrder(a: AppEntry, b: AppEntry): Ordering
  {
    StrCmp(a.name, b.name).Then(StrCmp(a.exec, b.exec))
  }

  /** Sorting by name and then command before the dedup. */
  function SortAndDedupByNameExec(apps: seq<AppEntry>): seq<AppEntry>
  {
    DedupBy(SortBy(apps, NameExecOrder), SameNameAndExec)
  }

  lemma NameExecOrderIsTotal()
    ensures Antisymmetric(NameExecOrder) && Transitive(NameExecOrder)
    ensures forall a, b :: SameNameAndExec(a, b) <==> NameExecOrder(a, b) == Equal
  {
    forall a, b ensures NameExecOrder(a, b) == NameExecOrder(b, a).Reverse()
      && (SameNameAndExec(a, b) <==> NameExecOrder(a, b) == Equal)
    {
      StrCmpAntisymmetric(a.name, b.name);
      StrCmpAntisymmetric(a.exec, b.exec);
      StrCmpEqual(a.name, b.name);
      StrCmpEqual(a.exec, b.exec);
    }
    forall a, b, c | NameExecOrder(a, b) != Greater && NameExecOrder(b, c) != Greater
      ensures NameExecOrder(a, c) != Greater
    {
      StrCmpTransitive(a.name, b.name, c.name);
      StrCmpEqual(a.name, b.name);
      StrCmpEqual(b.name, c.name);
      StrCmpEqual(a.name, c.name);
      StrCmpAntisymmetric(a.name, b.name);
      if a.name == b.name && b.name == c.name {
        StrCmpTransitive(a.exec, b.exec, c.exec);
      }
    }
  }

  /**
   * With the corrected order, no two listed apps have the same name and
   * command, every scanned name and command is listed, and the app listed
   * for it is the first one scanned.
   */
  lemma NoDuplicateAfterNameExecSort(apps: seq<AppEntry>)
    ensures var r := SortAndDedupByNameExec(apps);
      forall i, j :: 0 <= i < j < |r| ==> !SameNameAndExec(r[i], r[j])
    ensures ListsEvery(apps, SortAndDedupByNameExec(apps))
    ensures FirstFound(apps, SortAndDedupByNameExec(apps))
  {
    NameExecOrderIsTotal();
    SortDedupDistinct(apps, NameExecOrder, SameNameAndExec);
    DedupListsEvery(apps, NameExecOrder);
    SortDedupKeepsFirst(apps, NameExecOrder, SameNameAndExec);
  }

  /** The corrected order still sorts by name first, and lists every scanned name and command. */
  lemma NameExecSortsByName(apps: seq<AppEntry>)
    ensures var r := SortAndDedupByNameExec(apps);
      (forall i :: 0 < i < |r| ==> NameOrder(r[i - 1], r[i]) != Greater) && multiset(r) <= multiset(apps)
    ensures ListsEvery(apps, SortAndDedupByNameExec(apps))
  {
    DedupListsEvery(apps, NameExecOrder);
    NameExecOrderIsTotal();
    var sorted := SortBy(apps, NameExecOrder);
    SortBySorted(apps, NameExecOrder);
    SortByPermutes(apps, NameExecOrder);
    DedupPermutesSubset(sorted, SameNameAndExec);
    var idx := DedupSubsequence(sorted, SameNameAndExec);
    var r := DedupBy(sorted, SameNameAndExec);
    SortedIsPairwise(sorted, NameExecOrder);
    forall i | 0 < i < |r| ensures NameOrder(r[i - 1], r[i]) != Greater {
      assert r[i - 1] == sorted[idx[i - 1]] && r[i] == sorted[idx[i]];
      assert NameExecOrder(r[i - 1], r[i]) != Greater;
    }
  }
}
