// src/desktop_apps.rs: reading `.desktop` files into pickable applications.
// File contents and path existence are inputs; the icon-theme search for a
// relative icon name is an input too.
module DesktopApps {
  import opened Options
  import opened Strings
  import opened Sorting
  import Paths

  datatype DesktopApp = DesktopApp(name: string, exec: string, iconPath: Option<string>, desktopFile: string)

  // ---------------------------------------------------------------- Exec cleaning

  /** The command with each `%` and the character after it removed. */
  function StripFieldCodes(s: string): string
    decreases |s|
  {
    if s == [] then []
    else if s[0] == '%' then (if |s| == 1 then [] else StripFieldCodes(s[2..]))
    else [s[0]] + StripFieldCodes(s[1..])
  }

  /** `clean_exec_command`: drop the field codes, then trim. */
  method CleanExecCommand(exec: string) returns (r: string)
    ensures r == Trim(StripFieldCodes(exec))
    ensures '%' !in r
  {
    var result := "";
    var i := 0;
    while i < |exec|
      invariant 0 <= i <= |exec|
      invariant result + StripFieldCodes(exec[i..]) == StripFieldCodes(exec)
      decreases |exec| - i
    {
      var c := exec[i];
      if c == '%' {
        // Skip the field code character, if there is one.
        if i + 1 < |exec| {
          assert exec[i..][2..] == exec[i + 2..];
          i := i + 2;
        } else {
          i := i + 1;
        }
      } else {
        assert exec[i..][1..] == exec[i + 1..];
        ConcatAssoc(result, [c], StripFieldCodes(exec[i + 1..]));
        result := result + [c];
        i := i + 1;
      }
    }
    assert exec[i..] == [];
    assert result + [] == result;
    assert result == StripFieldCodes(exec);
    r := Trim(result);
    StripLeavesNoPercent(exec);
    TrimAddsNothing(result, '%');
  }

  /** No `%` survives: each one is removed together with the character after it. */
  lemma {:induction false} StripLeavesNoPercent(s: string)
    ensures '%' !in StripFieldCodes(s)
    decreases |s|
  {
    if s != [] {
      if s[0] == '%' {
        if |s| > 1 {
          StripLeavesNoPercent(s[2..]);
        }
      } else {
        StripLeavesNoPercent(s[1..]);
      }
    }
  }

  /** Text without `%` is kept as it is. */
  lemma {:induction false} StripKeepsPlainText(s: string)
    requires '%' !in s
    ensures StripFieldCodes(s) == s
    decreases |s|
  {
    if s != [] {
      StripKeepsPlainText(s[1..]);
    }
  }

  /** A field code between plain text and the rest of the command disappears, its letter included. */
  lemma {:induction false} StripFieldCode(a: string, code: char, b: string)
    requires '%' !in a
    ensures StripFieldCodes(a + ['%', code] + b) == a + StripFieldCodes(b)
    decreases |a|
  {
    if a == [] {
      assert (['%', code] + b)[2..] == b;
    } else {
      assert (a + ['%', code] + b)[1..] == a[1..] + ['%', code] + b;
      StripFieldCode(a[1..], code, b);
    }
  }

  /** A command word followed by a field code, such as `firefox %u`, cleans to the word. */
  lemma CleanWordAndCode(word: string, code: char)
    requires word != [] && NoWhitespace(word) && '%' !in word
    ensures Trim(StripFieldCodes(word + [' ', '%', code])) == word
  {
    assert word + [' ', '%', code] == (word + [' ']) + ['%', code] + [];
    StripFieldCode(word + [' '], code, []);
    assert StripFieldCodes(word + [' ', '%', code]) == word + [' '];
    TrimOfNoWhitespace(word);
    TrimDropsLastWhitespace(word, ' ');
  }

  /** `firefox %u` cleans to `firefox`. */
  lemma CleanFirefox()
    ensures Trim(StripFieldCodes("firefox %u")) == "firefox"
  {
    assert "firefox" + [' ', '%', 'u'] == "firefox %u";
    CleanWordAndCode("firefox", 'u');
  }

  /** `code %F` cleans to `code`. */
  lemma CleanCode()
    ensures Trim(StripFieldCodes("code %F")) == "code"
  {
    assert "code" + [' ', '%', 'F'] == "code %F";
    CleanWordAndCode("code", 'F');
  }

  /** `gimp-2.10 %U` cleans to `gimp-2.10`. */
  lemma CleanGimp()
    ensures Trim(StripFieldCodes("gimp-2.10 %U")) == "gimp-2.10"
  {
    assert "gimp-2.10" + [' ', '%', 'U'] == "gimp-2.10 %U";
    CleanWordAndCode("gimp-2.10", 'U');
  }

  // ---------------------------------------------------------------- field scan

  /** The parser's state: inside `[Desktop Entry]` or not, and the fields read so far. */
  datatype ScanState = ScanState(inDesktopEntry: bool, fields: map<string, string>)

  const DESKTOP_ENTRY := "[Desktop Entry]"

  /** One line of the field loop. */
  function ScanLine(st: ScanState, raw: string): (r: ScanState)
    ensures !StartsWith(Trim(raw), "[") && !st.inDesktopEntry ==> r == st
  {
    var line := Trim(raw);
    if StartsWith(line, "[") then ScanState(line == DESKTOP_ENTRY, st.fields)
    else if !st.inDesktopEntry then st
    else
      match SplitOnce(line, '=')
      case Some((key, value)) => ScanState(true, st.fields[Trim(key) := Trim(value)])
      case None => st
  }

  /** The field loop from `st` over `lines`. */
  function ScanLines(st: ScanState, lines: seq<string>): ScanState
    decreases |lines|
  {
    if lines == [] then st else ScanLines(ScanLine(st, lines[0]), lines[1..])
  }

  lemma {:induction false} ScanLinesAppend(st: ScanState, lines: seq<string>, line: string)
    ensures ScanLines(st, lines + [line]) == ScanLine(ScanLines(st, lines), line)
    decreases |lines|
  {
    if lines == [] {
      assert ([] + [line])[1..] == [];
    } else {
      assert (lines + [line])[1..] == lines[1..] + [line];
      ScanLinesAppend(ScanLine(st, lines[0]), lines[1..], line);
    }
  }

  /** Outside `[Desktop Entry]`, lines that open no section change nothing. */
  lemma {:induction false} OtherSectionIgnored(st: ScanState, lines: seq<string>)
    requires !st.inDesktopEntry
    requires forall i :: 0 <= i < |lines| ==> !StartsWith(Trim(lines[i]), "[")
    ensures ScanLines(st, lines) == st
    decreases |lines|
  {
    if lines != [] {
      OtherSectionIgnored(ScanLine(st, lines[0]), lines[1..]);
    }
  }

  /**
   * A `key=value` line inside `[Desktop Entry]` sets the trimmed key to the
   * trimmed value, whatever an earlier line set it to: the last one wins.
   */
  lemma LaterKeyWins(st: ScanState, lines: seq<string>, line: string, key: string, value: string)
    requires ScanLines(st, lines).inDesktopEntry
    requires !StartsWith(Trim(line), "[") && SplitOnce(Trim(line), '=') == Some((key, value))
    ensures ScanLines(st, lines + [line]).fields == ScanLines(st, lines).fields[Trim(key) := Trim(value)]
    ensures ScanLines(st, lines + [line]).inDesktopEntry
  {
    ScanLinesAppend(st, lines, line);
  }

  /** A section header other than `[Desktop Entry]` ends the section and keeps the fields. */
  lemma SectionHeaderSwitches(st: ScanState, line: string)
    requires StartsWith(Trim(line), "[")
    ensures ScanLine(st, line).inDesktopEntry <==> Trim(line) == DESKTOP_ENTRY
    ensures ScanLine(st, line).fields == st.fields
  {
  }

  /** The fields the loop over the trimmed lines collects. */
  method ScanFields(content: string) returns (fields: map<string, string>)
    ensures fields == ScanLines(ScanState(false, map[]), Lines(content)).fields
  {
    var lines := Lines(content);
    var inDesktopEntry := false;
    fields := map[];
    var i := 0;
    while i < |lines|
      invariant 0 <= i <= |lines|
      invariant ScanLines(ScanState(inDesktopEntry, fields), lines[i..]) == ScanLines(ScanState(false, map[]), lines)
      decreases |lines| - i
    {
      assert lines[i..][1..] == lines[i + 1..];
      var line := Trim(lines[i]);
      if StartsWith(line, "[") {
        inDesktopEntry := line == DESKTOP_ENTRY;
      } else if inDesktopEntry {
        var kv := SplitOnce(line, '=');
        if kv.Some? {
          fields := fields[Trim(kv.value.0) := Trim(kv.value.1)];
        }
      }
      i := i + 1;
    }
  }

  // ---------------------------------------------------------------- filters

  predicate FieldIs(fields: map<string, string>, key: string, value: string)
  {
    key in fields && fields[key] == value
  }

  /** The filters of `parse_desktop_file`, and the entry it builds from the fields. */
  function AppFromFields(fields: map<string, string>, path: string, icon: Option<string>): (r: Option<DesktopApp>)
    ensures r.Some? <==>
      !("Type" in fields && fields["Type"] != "Application") &&
      !FieldIs(fields, "NoDisplay", "true") && !FieldIs(fields, "Hidden", "true") &&
      "Name" in fields && "Exec" in fields
    ensures r.Some? ==>
      r.value.name == fields["Name"] && r.value.exec == Trim(StripFieldCodes(fields["Exec"])) &&
      r.value.iconPath == icon && r.value.desktopFile == path
  {
    if "Type" in fields && fields["Type"] != "Application" then None
    else if FieldIs(fields, "NoDisplay", "true") then None
    else if FieldIs(fields, "Hidden", "true") then None
    else if "Name" !in fields || "Exec" !in fields then None
    else Some(DesktopApp(fields["Name"], Trim(StripFieldCodes(fields["Exec"])), icon, path))
  }

  /**
   * The absolute-path branch of `resolve_icon`: a name starting with `/` is
   * its own path when it exists; any other name is resolved by the theme
   * search, whose answer is `themed`.
   */
  function ResolveIcon(iconName: string, existing: set<string>, themed: Option<string>): (r: Option<string>)
    ensures StartsWith(iconName, "/") ==> (r.Some? <==> iconName in existing) && (r.Some? ==> r.value == iconName)
    ensures !StartsWith(iconName, "/") ==> r == themed
  {
    if StartsWith(iconName, "/") then
      if iconName in existing then Some(iconName) else None
    else themed
  }

  /**
   * `parse_desktop_file`: `content` is None when the file cannot be read, and
   * `themed` is what the theme search finds for the `Icon` field.
   */
  method ParseDesktopFile(path: string, content: Option<string>, existing: set<string>, themed: Option<string>)
    returns (r: Option<DesktopApp>)
    ensures content.None? ==> r.None?
    ensures content.Some? ==>
      var fields := ScanLines(ScanState(false, map[]), Lines(content.value)).fields;
      var icon := if "Icon" in fields then ResolveIcon(fields["Icon"], existing, themed) else None;
      r == AppFromFields(fields, path, icon)
  {
    if content.None? {
      return None;
    }
    var fields := ScanFields(content.value);
    var icon := if "Icon" in fields then ResolveIcon(fields["Icon"], existing, themed) else None;
    r := AppFromFields(fields, path, icon);
    if r.Some? {
      var exec := CleanExecCommand(fields["Exec"]);
      r := Some(DesktopApp(fields["Name"], exec, icon, path));
    }
  }

  /** `scan_directory`'s file filter: the extension is exactly `desktop`. */
  predicate IsDesktopFile(path: Paths.Path)
  {
    Paths.Extension(path) == Some("desktop")
  }

  // ---------------------------------------------------------------- sort and dedup

  /** `a.name.to_lowercase().cmp(&b.name.to_lowercase())`. */
  function LowerNameOrder(a: DesktopApp, b: DesktopApp): Ordering
  {
    StrCmp(ToLower(a.name), ToLower(b.name))
  }

  /** `dedup_by(|a, b| a.name == b.name)`. */
  predicate SameName(a: DesktopApp, b: DesktopApp)
  {
    a.name == b.name
  }

  /** The list `scan_desktop_apps` returns for the apps found, in directory order. */
  function SortAndDedup(apps: seq<DesktopApp>): seq<DesktopApp>
  {
    DedupBy(SortBy(apps, LowerNameOrder), SameName)
  }

  lemma LowerNameOrderIsAntisymmetric()
    ensures Antisymmetric(LowerNameOrder)
  {
    forall a, b ensures LowerNameOrder(a, b) == LowerNameOrder(b, a).Reverse() {
      StrCmpAntisymmetric(ToLower(a.name), ToLower(b.name));
    }
  }

  /**
   * The scan result is ordered by lower-cased name, no two neighbours share a
   * name, it holds only scanned apps, every scanned name is still listed, and
   * each kept app starts its run of equal names in the sorted list.
   */
  lemma ScanResultOrdered(apps: seq<DesktopApp>)
    ensures var r := SortAndDedup(apps);
      (forall i :: 0 < i < |r| ==> LowerNameOrder(r[i - 1], r[i]) != Greater && r[i - 1].name != r[i].name) &&
      multiset(r) <= multiset(apps)
    ensures forall a :: a in apps ==>
      exists k :: 0 <= k < |SortAndDedup(apps)| && SortAndDedup(apps)[k].name == a.name
    ensures KeepsRunStarts(SortBy(apps, LowerNameOrder), SortAndDedup(apps), SameName)
  {
    ScanResultSorted(apps);
    ScanResultCovers(apps);
    ScanResultRunStarts(apps);
  }

  lemma ScanResultSorted(apps: seq<DesktopApp>)
    ensures var r := SortAndDedup(apps);
      (forall i :: 0 < i < |r| ==> LowerNameOrder(r[i - 1], r[i]) != Greater && r[i - 1].name != r[i].name) &&
      multiset(r) <= multiset(apps)
  {
    var sorted := SortBy(apps, LowerNameOrder);
    LowerNameOrderIsAntisymmetric();
    SortBySorted(apps, LowerNameOrder);
    SortByPermutes(apps, LowerNameOrder);
    DedupPermutesSubset(sorted, SameName);
    var idx := DedupSubsequence(sorted, SameName);
    var r := DedupBy(sorted, SameName);
    LowerNameTransitive();
    SortedIsPairwise(sorted, LowerNameOrder);
    forall i | 0 < i < |r| ensures LowerNameOrder(r[i - 1], r[i]) != Greater {
      assert r[i - 1] == sorted[idx[i - 1]] && r[i] == sorted[idx[i]];
    }
  }

  lemma ScanResultCovers(apps: seq<DesktopApp>)
    ensures forall a :: a in apps ==>
      exists k :: 0 <= k < |SortAndDedup(apps)| && SortAndDedup(apps)[k].name == a.name
  {
    var r := SortAndDedup(apps);
    SortDedupCovers(apps, LowerNameOrder, SameName);
    forall a | a in apps ensures exists k :: 0 <= k < |r| && r[k].name == a.name {
      var k :| 0 <= k < |r| && (r[k] == a || SameName(a, r[k]));
      assert SortAndDedup(apps)[k].name == a.name;
    }
  }

  lemma ScanResultRunStarts(apps: seq<DesktopApp>)
    ensures KeepsRunStarts(SortBy(apps, LowerNameOrder), SortAndDedup(apps), SameName)
  {
    DedupKeepsRunStarts(SortBy(apps, LowerNameOrder), SameName);
  }

  lemma LowerNameTransitive()
    ensures Transitive(LowerNameOrder)
  {
    forall a, b, c | LowerNameOrder(a, b) != Greater && LowerNameOrder(b, c) != Greater
      ensures LowerNameOrder(a, c) != Greater
    {
      StrCmpTransitive(ToLower(a.name), ToLower(b.name), ToLower(c.name));
    }
  }

  // ---------------------------------------------------------------- duplicate names

  /**
   * Sorting compares lower-cased names but the dedup compares exact names, so
   * an exact duplicate separated from its twin by a case variant survives:
   * `Foo`, `foo`, `Foo` (in scan order) all stay.
   */
  lemma CaseVariantKeepsDuplicate(a: DesktopApp, b: DesktopApp, c: DesktopApp)
    requires a.name == c.name && a.name != b.name && ToLower(a.name) == ToLower(b.name)
    ensures SortAndDedup([a, b, c]) == [a, b, c]
    ensures SortAndDedup([a, b, c])[0].name == SortAndDedup([a, b, c])[2].name
  {
    StrCmpEqual(ToLower(a.name), ToLower(b.name));
    SortKeepsEqualNames(a, b, c);
    DedupKeepsAlternating(a, b, c);
  }

  lemma SortKeepsEqualNames(a: DesktopApp, b: DesktopApp, c: DesktopApp)
    requires LowerNameOrder(b, a) == Equal && LowerNameOrder(c, a) == Equal && LowerNameOrder(c, b) == Equal
    ensures SortBy([a, b, c], LowerNameOrder) == [a, b, c]
  {
    var s := [a, b, c];
    assert s[..2] == [a, b] && [a, b][..1] == [a] && [a][..0] == [];
    assert SortBy([a], LowerNameOrder) == [a];
    assert [a][1..] == [];
    assert Insert(b, [a], LowerNameOrder) == [a, b];
    assert SortBy([a, b], LowerNameOrder) == [a, b];
    assert [a, b][1..] == [b] && [b][1..] == [];
    assert Insert(c, [b], LowerNameOrder) == [b, c];
    assert Insert(c, [a, b], LowerNameOrder) == [a, b, c];
  }

  lemma DedupKeepsAlternating(a: DesktopApp, b: DesktopApp, c: DesktopApp)
    requires a.name != b.name && b.name != c.name
    ensures DedupBy([a, b, c], SameName) == [a, b, c]
  {
    DedupByPair(a, b, SameName);
    DedupByTriple(a, b, c, SameName);
  }

  /** Two apps called `Foo` and one called `foo` exist, so the case above happens. */
  lemma DuplicateNameSurvives()
    ensures exists a, b, c :: SortAndDedup([a, b, c]) == [a, b, c] && a.name == c.name && a != b
  {
    var a := DesktopApp("Foo", "foo-user", None, "a.desktop");
    var b := DesktopApp("foo", "foo-other", None, "b.desktop");
    var c := DesktopApp("Foo", "foo-system", None, "c.desktop");
    assert ToLower("Foo") == "foo";
    assert ToLower("foo") == "foo";
    CaseVariantKeepsDuplicate(a, b, c);
  }

  /** Dedup on the lower-cased name, the comparison the sort already uses. */
  predicate SameLowerName(a: DesktopApp, b: DesktopApp)
  {
    ToLower(a.name) == ToLower(b.name)
  }

  /** The scan result with duplicates removed by lower-cased name. */
  function SortAndDedupIgnoringCase(apps: seq<DesktopApp>): seq<DesktopApp>
  {
    DedupBy(SortBy(apps, LowerNameOrder), SameLowerName)
  }

  /** Same lower-cased name is the sort's `Equal`. */
  lemma SameLowerNameIsEqual()
    ensures forall a, b :: SameLowerName(a, b) <==> LowerNameOrder(a, b) == Equal
  {
    forall a, b ensures SameLowerName(a, b) <==> LowerNameOrder(a, b) == Equal {
      StrCmpEqual(ToLower(a.name), ToLower(b.name));
    }
  }

  /**
   * With the dedup matching the sort, every name found is listed exactly
   * once, in any case, and as the app found first under that name.
   */
  lemma NamesDistinctIgnoringCase(apps: seq<DesktopApp>)
    ensures var r := SortAndDedupIgnoringCase(apps);
      forall i, j :: 0 <= i < j < |r| ==> ToLower(r[i].name) != ToLower(r[j].name) && r[i].name != r[j].name
    ensures forall a :: a in apps ==>
      exists k :: 0 <= k < |SortAndDedupIgnoringCase(apps)| &&
                  ToLower(SortAndDedupIgnoringCase(apps)[k].name) == ToLower(a.name)
    ensures forall k :: 0 <= k < |SortAndDedupIgnoringCase(apps)| ==>
      exists i :: 0 <= i < |apps| && apps[i] == SortAndDedupIgnoringCase(apps)[k] &&
                  forall j :: 0 <= j < i ==> ToLower(apps[j].name) != ToLower(apps[i].name)
  {
    LowerNamesDistinct(apps);
    LowerNamesCovered(apps);
    LowerNamesFirstFound(apps);
  }

  lemma LowerNamesDistinct(apps: seq<DesktopApp>)
    ensures var r := SortAndDedupIgnoringCase(apps);
      forall i, j :: 0 <= i < j < |r| ==> ToLower(r[i].name) != ToLower(r[j].name) && r[i].name != r[j].name
  {
    LowerNameOrderIsAntisymmetric();
    LowerNameTransitive();
    SameLowerNameIsEqual();
    SortDedupDistinct(apps, LowerNameOrder, SameLowerName);
    var r := SortAndDedupIgnoringCase(apps);
    forall i, j | 0 <= i < j < |r| ensures ToLower(r[i].name) != ToLower(r[j].name) {
      StrCmpEqual(ToLower(r[i].name), ToLower(r[j].name));
    }
  }

  lemma LowerNamesCovered(apps: seq<DesktopApp>)
    ensures forall a :: a in apps ==>
      exists k :: 0 <= k < |SortAndDedupIgnoringCase(apps)| &&
                  ToLower(SortAndDedupIgnoringCase(apps)[k].name) == ToLower(a.name)
  {
    var r := SortAndDedupIgnoringCase(apps);
    SortDedupCovers(apps, LowerNameOrder, SameLowerName);
    forall a | a in apps ensures exists k :: 0 <= k < |r| && ToLower(r[k].name) == ToLower(a.name) {
      var k :| 0 <= k < |r| && (r[k] == a || SameLowerName(a, r[k]));
    }
  }

  lemma LowerNamesFirstFound(apps: seq<DesktopApp>)
    ensures forall k :: 0 <= k < |SortAndDedupIgnoringCase(apps)| ==>
      exists i :: 0 <= i < |apps| && apps[i] == SortAndDedupIgnoringCase(apps)[k] &&
                  forall j :: 0 <= j < i ==> ToLower(apps[j].name) != ToLower(apps[i].name)
  {
    var r := SortAndDedupIgnoringCase(apps);
    LowerNameOrderIsAntisymmetric();
    LowerNameTransitive();
    SameLowerNameIsEqual();
    SortDedupKeepsFirst(apps, LowerNameOrder, SameLowerName);
    forall k | 0 <= k < |r|
      ensures exists i :: 0 <= i < |apps| && apps[i] == r[k] && forall j :: 0 <= j < i ==> ToLower(apps[j].name) != ToLower(apps[i].name)
    {
      var i :| 0 <= i < |apps| && apps[i] == r[k] && forall j :: 0 <= j < i ==> !SameLowerName(apps[j], apps[i]);
    }
  }
}
