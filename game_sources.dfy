// src/game_sources.rs: reading Steam's VDF manifests and library lists,
// Heroic's JSON libraries, and building the launch lines of both stores, then
// merging the games into one sorted list without duplicates.
module GameSources {
  import opened Options
  import opened Strings
  import opened Utf8
  import Json
  import Paths
  import opened Sorting
  import opened Model
  import Launcher
  import FocusManager

  // ---------------------------------------------------------------------
  // extract_quoted_strings

  /** The variables of the scanning loop. */
  datatype QScan = QScan(items: seq<string>, current: string, inQuotes: bool, escape: bool)

  const QStart: QScan := QScan([], [], false, false)

  /** One iteration of the loop over `line.chars()`. */
  function QFeed(s: QScan, ch: char): QScan
  {
    if s.escape then s.(current := s.current + [ch], escape := false)
    else if s.inQuotes && ch == '\\' then s.(escape := true)
    else if ch == '"' then
      if s.inQuotes then s.(items := s.items + [s.current], current := [], inQuotes := false)
      else s.(inQuotes := true)
    else if s.inQuotes then s.(current := s.current + [ch])
    else s
  }

  function QFeedAll(s: QScan, text: string): QScan
    decreases |text|
  {
    if text == [] then s else QFeedAll(QFeed(s, text[0]), text[1..])
  }

  /** The strings of a VDF line: what the loop has collected when it ends. */
  function QuotedStrings(line: string): seq<string>
  {
    QFeedAll(QStart, line).items
  }

  /** `extract_quoted_strings`. */
  method ExtractQuotedStrings(line: string) returns (items: seq<string>)
    ensures items == QuotedStrings(line)
  {
    items := [];
    var current: string := [];
    var inQuotes, escape := false, false;
    var i := 0;
    while i < |line|
      invariant 0 <= i <= |line|
      invariant QFeedAll(QScan(items, current, inQuotes, escape), line[i..]) == QFeedAll(QStart, line)
    {
      var ch := line[i];
      assert line[i..][0] == ch && line[i..][1..] == line[i + 1..];
      i := i + 1;
      if escape {
        current := current + [ch];
        escape := false;
        continue;
      }
      if inQuotes && ch == '\\' {
        escape := true;
        continue;
      }
      if ch == '"' {
        if inQuotes {
          items := items + [current];
          current := [];
          inQuotes := false;
        } else {
          inQuotes := true;
        }
        continue;
      }
      if inQuotes {
        current := current + [ch];
      }
    }
  }

  /** A quoted span. */
  function Quoted(body: string): string
  {
    "\"" + body + "\""
  }

  /** Between strings: outside quotes and not escaping, with nothing pending. */
  predicate Between(s: QScan)
  {
    !s.inQuotes && !s.escape && s.current == []
  }

  lemma {:induction false} QFeedAllAppend(s: QScan, a: string, b: string)
    ensures QFeedAll(s, a + b) == QFeedAll(QFeedAll(s, a), b)
    decreases |a|
  {
    if a != [] {
      assert (a + b)[0] == a[0] && (a + b)[1..] == a[1..] + b;
      QFeedAllAppend(QFeed(s, a[0]), a[1..], b);
    } else {
      assert a + b == b;
    }
  }

  /** Text outside quotes is dropped. */
  lemma {:induction false} OutsideDropped(s: QScan, text: string)
    requires Between(s) && '"' !in text
    ensures QFeedAll(s, text) == s
    decreases |text|
  {
    if text != [] {
      assert '"' !in text[1..];
      OutsideDropped(s, text[1..]);
    }
  }

  /** Inside quotes, text without `"` and `\` is collected as it is. */
  lemma {:induction false} InsideCollected(s: QScan, body: string)
    requires s.inQuotes && !s.escape && '"' !in body && '\\' !in body
    ensures QFeedAll(s, body) == s.(current := s.current + body)
    decreases |body|
  {
    if body == [] {
      assert s.current + body == s.current;
    } else {
      assert '"' !in body[1..] && '\\' !in body[1..];
      InsideCollected(QFeed(s, body[0]), body[1..]);
      assert s.current + [body[0]] + body[1..] == s.current + body;
    }
  }

  /** Inside quotes, `\x` contributes `x`, even when `x` is a quote. */
  lemma EscapeInsideQuotes(s: QScan, x: char)
    requires s.inQuotes && !s.escape
    ensures QFeedAll(s, ['\\', x]) == s.(current := s.current + [x])
  {
    assert ['\\', x][0] == '\\' && ['\\', x][1..] == [x] && [x][1..] == [];
    var s1 := s.(escape := true);
    assert QFeed(s, '\\') == s1;
    assert QFeedAll(s, ['\\', x]) == QFeedAll(s1, [x]);
  }

  /** A closed span adds its contents, without the quotes, as the next string. */
  lemma ClosedSpan(s: QScan, body: string)
    requires Between(s) && '"' !in body && '\\' !in body
    ensures QFeedAll(s, Quoted(body)) == s.(items := s.items + [body])
  {
    var s1 := s.(inQuotes := true);
    assert QFeedAll(s, "\"") == s1 by {
      assert "\""[1..] == [];
    }
    QFeedAllAppend(s, "\"", body + "\"");
    assert Quoted(body) == "\"" + (body + "\"");
    QFeedAllAppend(s1, body, "\"");
    InsideCollected(s1, body);
    assert [] + body == body;
    assert "\""[1..] == [];
  }

  /** A span that is never closed adds nothing. */
  lemma UnterminatedDropped(s: QScan, body: string)
    requires Between(s) && '"' !in body && '\\' !in body
    ensures QFeedAll(s, "\"" + body).items == s.items
  {
    var s1 := s.(inQuotes := true);
    assert QFeedAll(s, "\"") == s1 by {
      assert "\""[1..] == [];
    }
    QFeedAllAppend(s, "\"", body);
    InsideCollected(s1, body);
  }

  /** `pre"key"mid"value"post` with plain text around the two spans scans to
      `[key, value]`: the shape of every line of a manifest. */
  lemma QuotedPair(pre: string, key: string, mid: string, value: string, post: string)
    requires '"' !in pre && '"' !in mid && '"' !in post
    requires '"' !in key && '\\' !in key && '"' !in value && '\\' !in value
    ensures QuotedStrings(pre + Quoted(key) + mid + Quoted(value) + post) == [key, value]
  {
    var a := pre + Quoted(key);
    var b := a + mid;
    var c := b + Quoted(value);
    OutsideDropped(QStart, pre);
    QFeedAllAppend(QStart, pre, Quoted(key));
    ClosedSpan(QStart, key);
    var s1 := QScan([key], [], false, false);
    assert QFeedAll(QStart, a) == s1;
    QFeedAllAppend(QStart, a, mid);
    OutsideDropped(s1, mid);
    QFeedAllAppend(QStart, b, Quoted(value));
    ClosedSpan(s1, value);
    var s2 := QScan([key, value], [], false, false);
    assert QFeedAll(QStart, c) == s2;
    QFeedAllAppend(QStart, c, post);
    OutsideDropped(s2, post);
  }

  // ---------------------------------------------------------------------
  // parse_steam_manifest

  datatype SteamManifest = SteamManifest(appid: string, name: string)

  /** The value a line assigns to `key`, if its first string is `key`. */
  function LineValue(line: string, key: string): Option<string>
  {
    var parts := QuotedStrings(line);
    if |parts| >= 2 && parts[0] == key then Some(parts[1]) else None
  }

  /** The last `Some` that `f` gives over `xs`. */
  function LastSome<T, U>(xs: seq<T>, f: T -> Option<U>): (r: Option<U>)
    ensures r.None? <==> forall i :: 0 <= i < |xs| ==> f(xs[i]).None?
    ensures r.Some? ==> exists i :: 0 <= i < |xs| && f(xs[i]) == r &&
                                   forall j :: i < j < |xs| ==> f(xs[j]).None?
  {
    if xs == [] then None
    else if f(xs[|xs| - 1]).Some? then f(xs[|xs| - 1])
    else
      var init := xs[..|xs| - 1];
      var r := LastSome(init, f);
      assert forall i :: 0 <= i < |init| ==> init[i] == xs[i];
      assert r.Some? ==> exists i :: 0 <= i < |xs| && f(xs[i]) == r && forall j :: i < j < |xs| ==> f(xs[j]).None? by {
        if r.Some? {
          var i :| 0 <= i < |init| && f(init[i]) == r && forall j :: i < j < |init| ==> f(init[j]).None?;
          assert f(xs[i]) == r;
          forall j | i < j < |xs| ensures f(xs[j]).None? {
            if j < |init| {
              assert xs[j] == init[j];
            }
          }
        }
      }
      r
  }

  /** The value of the last line that assigns `key`. */
  function LastValue(lines: seq<string>, key: string): (r: Option<string>)
    ensures r.None? <==> forall i :: 0 <= i < |lines| ==> LineValue(lines[i], key).None?
    ensures r.Some? ==> exists i :: 0 <= i < |lines| && LineValue(lines[i], key) == r &&
                                   forall j :: i < j < |lines| ==> LineValue(lines[j], key).None?
  {
    LastSome(lines, l => LineValue(l, key))
  }

  /** The manifest the lines describe: the last `name`, trimmed and not empty,
      and the last `appid`, empty when there is none. */
  function ManifestOfLines(lines: seq<string>): (r: Option<SteamManifest>)
    ensures r.Some? ==> r.value.name != [] && Trim(r.value.name) == r.value.name
    ensures r.Some? ==> exists i :: 0 <= i < |lines| && LineValue(lines[i], "name").Some? &&
                                   Trim(LineValue(lines[i], "name").value) == r.value.name
    ensures (forall i :: 0 <= i < |lines| ==> LineValue(lines[i], "name").None?) ==> r.None?
    ensures r.Some? && (forall i :: 0 <= i < |lines| ==> LineValue(lines[i], "appid").None?) ==> r.value.appid == []
    ensures r.Some? ==> r.value.appid == [] || exists i :: 0 <= i < |lines| && LineValue(lines[i], "appid") == Some(r.value.appid)
  {
    match LastValue(lines, "name")
    case None => None
    case Some(n) =>
      var name := Trim(n);
      TrimIdempotent(n);
      if name == [] then None
      else Some(SteamManifest(LastValue(lines, "appid").UnwrapOr([]), name))
  }

  /** `LastValue` over one more line. */
  lemma LastValueStep(lines: seq<string>, i: nat, key: string)
    requires i < |lines|
    ensures LastValue(lines[..i + 1], key) ==
      if LineValue(lines[i], key).Some? then LineValue(lines[i], key) else LastValue(lines[..i], key)
  {
    var pre := lines[..i + 1];
    assert pre[|pre| - 1] == lines[i] && pre[..|pre| - 1] == lines[..i];
  }

  /** `parse_steam_manifest`: later lines override earlier ones. */
  method ParseSteamManifest(contents: string) returns (r: Option<SteamManifest>)
    ensures r == ManifestOfLines(Lines(contents))
  {
    var lines := Lines(contents);
    var appid: Option<string> := None;
    var name: Option<string> := None;
    var i := 0;
    while i < |lines|
      invariant 0 <= i <= |lines|
      invariant appid == LastValue(lines[..i], "appid")
      invariant name == LastValue(lines[..i], "name")
    {
      var parts := ExtractQuotedStrings(lines[i]);
      LastValueStep(lines, i, "appid");
      LastValueStep(lines, i, "name");
      if |parts| >= 2 {
        if parts[0] == "appid" {
          appid := Some(parts[1]);
        } else if parts[0] == "name" {
          name := Some(parts[1]);
        }
      }
      i := i + 1;
    }
    assert lines[..i] == lines;
    match name
    case None =>
      r := None;
    case Some(n) =>
      var trimmed := Trim(n);
      if trimmed == [] {
        r := None;
      } else {
        r := Some(SteamManifest(appid.UnwrapOr([]), trimmed));
      }
  }

  /** The test of game_sources.rs: an `appid` line and a `name` line give a
      manifest with both. */
  lemma ManifestOfAppStateLines(header: seq<string>, appid: string, name: string, pre: string, mid: string)
    requires forall i :: 0 <= i < |header| ==> LineValue(header[i], "name").None? && LineValue(header[i], "appid").None?
    requires '"' !in pre && '"' !in mid && '"' !in appid && '\\' !in appid && '"' !in name && '\\' !in name
    requires name != [] && Trim(name) == name
    ensures ManifestOfLines(header + [pre + Quoted("appid") + mid + Quoted(appid), pre + Quoted("name") + mid + Quoted(name)])
            == Some(SteamManifest(appid, name))
  {
    var l1 := pre + Quoted("appid") + mid + Quoted(appid);
    var l2 := pre + Quoted("name") + mid + Quoted(name);
    var lines := header + [l1, l2];
    QuotedPair(pre, "appid", mid, appid, []);
    assert l1 + [] == l1;
    QuotedPair(pre, "name", mid, name, []);
    assert l2 + [] == l2;
    assert LineValue(l2, "name") == Some(name);
    assert LineValue(l2, "appid").None?;
    assert LineValue(l1, "appid") == Some(appid);
    assert lines[..|lines| - 1] == header + [l1];
    assert (header + [l1])[..|header|] == header;
    assert LastValue(lines, "name") == Some(name);
    assert LastValue(lines, "appid") == LastValue(header + [l1], "appid");
  }

  // ---------------------------------------------------------------------
  // parse_library_folders, normalize_vdf_path

  /** `normalize_vdf_path`: a doubled backslash becomes a single one. */
  function NormalizeVdfPath(value: string): Paths.Path
  {
    Replace(value, "\\\\", "\\")
  }

  /** A first string that introduces a library folder: `path` in any case,
      or a run of digits (the empty run included). */
  predicate IsLibraryKey(key: string)
  {
    EqIgnoreCase(key, "path") || AllAsciiDigits(key)
  }

  /** The library folder a line contributes, if any. */
  function LinePaths(line: string): (r: seq<Paths.Path>)
    ensures |r| <= 1
  {
    var parts := QuotedStrings(line);
    if |parts| >= 2 && IsLibraryKey(parts[0]) then [NormalizeVdfPath(parts[1])] else []
  }

  /** The library folders of the lines, in line order. */
  function LibraryPaths(lines: seq<string>): (r: seq<Paths.Path>)
    ensures |r| <= |lines|
    ensures forall p :: p in r <==> exists i :: 0 <= i < |lines| && p in LinePaths(lines[i])
  {
    if lines == [] then []
    else
      var init := lines[..|lines| - 1];
      var r := LibraryPaths(init) + LinePaths(lines[|lines| - 1]);
      assert forall i :: 0 <= i < |lines| - 1 ==> lines[i] == init[i];
      r
  }

  /** `parse_library_folders`. */
  method ParseLibraryFolders(contents: string) returns (paths: seq<Paths.Path>)
    ensures paths == LibraryPaths(Lines(contents))
  {
    var lines := Lines(contents);
    paths := [];
    var i := 0;
    while i < |lines|
      invariant 0 <= i <= |lines|
      invariant paths == LibraryPaths(lines[..i])
    {
      var parts := ExtractQuotedStrings(lines[i]);
      assert lines[..i + 1][..i] == lines[..i];
      if |parts| >= 2 && (EqIgnoreCase(parts[0], "path") || AllAsciiDigits(parts[0])) {
        paths := paths + [NormalizeVdfPath(parts[1])];
      }
      i := i + 1;
    }
    assert lines[..i] == lines;
  }

  /** A `"path" "<p>"` line and a `"<digits>" "<p>"` line both contribute
      their folder (the test of game_sources.rs). */
  lemma LibraryLine(pre: string, key: string, mid: string, p: string)
    requires key == "path" || AllAsciiDigits(key)
    requires '"' !in pre && '"' !in mid && '"' !in key && '\\' !in key && '"' !in p && '\\' !in p
    ensures LinePaths(pre + Quoted(key) + mid + Quoted(p)) == [p]
  {
    QuotedPair(pre, key, mid, p, []);
    assert pre + Quoted(key) + mid + Quoted(p) + [] == pre + Quoted(key) + mid + Quoted(p);
    NormalizeWithoutBackslash(p);
  }

  lemma NormalizeWithoutBackslash(p: string)
    requires '\\' !in p
    ensures NormalizeVdfPath(p) == p
  {
    assert "\\\\"[0] == '\\';
    forall j | 0 <= j < |p| ensures !("\\\\" <= p[j..]) {
      assert p[j..][0] == p[j] && p[j] in p;
    }
    ReplaceAbsent(p, "\\\\", "\\");
  }

  /** A doubled backslash between plain parts is collapsed to one. */
  lemma NormalizeCollapses(a: string, b: string)
    requires '\\' !in a && '\\' !in b
    ensures NormalizeVdfPath(a + "\\\\" + b) == a + "\\" + b
  {
    var s := a + "\\\\" + b;
    assert s[|a|..|a| + 2] == "\\\\";
    assert "\\\\" <= s[|a|..];
    assert "\\\\"[0] == '\\';
    forall j | 0 <= j < |a| ensures !("\\\\" <= s[j..]) {
      assert s[j..][0] == s[j] == a[j] && a[j] in a;
    }
    assert Find(s, "\\\\") == Some(|a|);
    assert s[|a| + 2..] == b;
    assert s[..|a|] == a;
    NormalizeWithoutBackslash(b);
  }

  // ---------------------------------------------------------------------
  // is_ignored_app

  /** The Steam ids of runtimes and tools rather than games. */
  const IGNORED_APP_IDS: seq<string> := ["228980", "1391110", "1628350", "1070560", "1493710", "1887720"]

  /** `is_ignored_app`: a runtime id, or a tool's name in any case. */
  predicate IsIgnoredApp(name: string, id: string)
  {
    id in IGNORED_APP_IDS ||
    var n := ToLower(name);
    Contains(n, "proton") || Contains(n, "steam linux runtime") || Contains(n, "steamworks common redist") ||
    Contains(n, "galaxy common redist") || n == "dxvk" || n == "vkd3d"
  }

  /** The name check ignores case. */
  lemma IgnoredIgnoresCase(name: string, id: string)
    ensures IsIgnoredApp(name, id) == IsIgnoredApp(ToLower(name), id)
  {
    ToLowerIdempotent(name);
  }

  /** A name holding one of the tool keywords, in any case, is ignored. */
  lemma KeywordNameIgnored(pre: string, keyword: string, post: string, id: string)
    requires ToLower(keyword) in ["proton", "steam linux runtime", "steamworks common redist", "galaxy common redist"]
    ensures IsIgnoredApp(pre + keyword + post, id)
  {
    var k := ToLower(keyword);
    ToLowerAppend(pre + keyword, post);
    ToLowerAppend(pre, keyword);
    var n := ToLower(pre + keyword + post);
    assert n == ToLower(pre) + k + ToLower(post);
    assert n[|pre|..|pre| + |k|] == k;
    ContainsAt(n, k, |pre|);
  }

  /** The cases of the test of game_sources.rs: two runtimes by id, and a game kept. */
  lemma IgnoredAppExamples()
    ensures IsIgnoredApp("Proton Experimental", "1493710")
    ensures IsIgnoredApp("Steam Linux Runtime - Sniper", "1628350")
    ensures !IsIgnoredApp("My Game", "123456")
  {
    assert IGNORED_APP_IDS[4] == "1493710" && IGNORED_APP_IDS[2] == "1628350";
    KeptGameName("My Game", "123456");
  }

  /** A name without `p`, `t` and `l` that is not `dxvk` or `vkd3d`, under an id that is not a runtime's, is kept. */
  lemma KeptGameName(name: string, id: string)
    requires id !in IGNORED_APP_IDS
    requires forall i :: 0 <= i < |name| ==> LowerChar(name[i]) !in "ptl"
    requires ToLower(name) != "dxvk" && ToLower(name) != "vkd3d"
    ensures !IsIgnoredApp(name, id)
  {
    var n := ToLower(name);
    NotContainsChar(n, "proton", 0);
    NotContainsChar(n, "steam linux runtime", 1);
    NotContainsChar(n, "steamworks common redist", 1);
    NotContainsChar(n, "galaxy common redist", 2);
  }

  // ---------------------------------------------------------------------
  // encode_uri_component

  /** The unreserved characters of section 2.3 of RFC 3986. */
  predicate IsUnreservedChar(c: char)
  {
    IsAsciiAlphanumeric(c) || c == '-' || c == '_' || c == '.' || c == '~'
  }

  predicate IsUnreservedByte(b: byte)
  {
    IsUnreservedChar(b as int as char)
  }

  predicate IsUpperHex(c: char)
  {
    ('0' <= c <= '9') || ('A' <= c <= 'F')
  }

  /** `{:X}` of one hexadecimal digit. */
  function HexDigitUpper(d: nat): (r: char)
    requires d < 16
    ensures IsUpperHex(r)
  {
    if d < 10 then ('0' as int + d) as char else ('A' as int + d - 10) as char
  }

  /** One byte of the input: kept when unreserved, otherwise `%XX` (section
      2.1 of RFC 3986). */
  function EncodeByte(b: byte): (r: string)
  {
    if IsUnreservedByte(b) then [b as int as char]
    else ['%', HexDigitUpper(b as int / 16), HexDigitUpper(b as int % 16)]
  }

  /** Every character is unreserved or starts a `%XX` escape in upper-case hexadecimal. */
  predicate PercentEncoded(r: string)
  {
    (forall i :: 0 <= i < |r| ==> IsUnreservedChar(r[i]) || r[i] == '%') &&
    (forall i :: 0 <= i < |r| && r[i] == '%' ==> i + 2 < |r| && IsUpperHex(r[i + 1]) && IsUpperHex(r[i + 2]))
  }

  lemma EncodeBytePercentEncoded(b: byte)
    ensures PercentEncoded(EncodeByte(b))
  {
  }

  lemma PercentEncodedConcat(p: string, t: string)
    requires PercentEncoded(p) && PercentEncoded(t)
    ensures PercentEncoded(p + t)
  {
    assert forall i :: |p| <= i < |p| + |t| ==> (p + t)[i] == t[i - |p|];
  }

  /** The encoding of a byte string. */
  function EncodeBytes(bs: seq<byte>): (r: string)
    ensures PercentEncoded(r)
  {
    if bs == [] then []
    else
      var p := EncodeByte(bs[0]);
      var t := EncodeBytes(bs[1..]);
      EncodeBytePercentEncoded(bs[0]);
      PercentEncodedConcat(p, t);
      p + t
  }

  /** What `encode_uri_component` returns for a string: its UTF-8 bytes, encoded. */
  function UriEncoded(s: string): string
  {
    EncodeBytes(Encode(s))
  }

  /** `encode_uri_component`. */
  method EncodeUriComponent(input: string) returns (encoded: string)
    ensures encoded == UriEncoded(input)
  {
    var bytes := Encode(input);
    encoded := [];
    var i := 0;
    while i < |bytes|
      invariant 0 <= i <= |bytes|
      invariant encoded + EncodeBytes(bytes[i..]) == EncodeBytes(bytes)
    {
      var b := bytes[i];
      assert bytes[i..][0] == b && bytes[i..][1..] == bytes[i + 1..];
      ConcatAssoc(encoded, EncodeByte(b), EncodeBytes(bytes[i + 1..]));
      if IsUnreservedByte(b) {
        encoded := encoded + [b as int as char];
      } else {
        encoded := encoded + ['%', HexDigitUpper(b as int / 16), HexDigitUpper(b as int % 16)];
      }
      i := i + 1;
    }
    assert bytes[i..] == [];
    assert encoded + [] == encoded;
  }

  /** The `%XX` digits read back as the byte they encode. */
  lemma HexDigitValue(d: nat)
    requires d < 16
    ensures Launcher.HexValue(HexDigitUpper(d) as int as byte) == Some(d)
  {
  }

  /** Percent-decoding reads one encoded byte back and goes on with the rest. */
  lemma DecodeEncodedByte(b: byte, tail: seq<byte>)
    ensures Launcher.PercentDecodeBytes(Encode(EncodeByte(b)) + tail) == [b] + Launcher.PercentDecodeBytes(tail)
  {
    var p := EncodeByte(b);
    EncodeAscii(p);
    var e := Encode(p) + tail;
    if IsUnreservedByte(b) {
      assert e[0] == b && e[1..] == tail;
    } else {
      HexDigitValue(b as int / 16);
      HexDigitValue(b as int % 16);
      assert e[0] == 0x25 && e[3..] == tail;
      assert e[1] == p[1] as int as byte && e[2] == p[2] as int as byte;
    }
  }

  lemma {:induction false} DecodeEncodedBytes(bs: seq<byte>)
    ensures Launcher.PercentDecodeBytes(Encode(EncodeBytes(bs))) == bs
  {
    if bs != [] {
      var p := EncodeByte(bs[0]);
      EncodeAppend(p, EncodeBytes(bs[1..]));
      DecodeEncodedByte(bs[0], Encode(EncodeBytes(bs[1..])));
      DecodeEncodedBytes(bs[1..]);
      assert [bs[0]] + bs[1..] == bs;
    }
  }

  /** Percent-decoding the encoding gives the input back: the Heroic branch of
      the monitor-target resolution depends on this. */
  lemma UriRoundTrip(s: string)
    ensures Launcher.UrlDecode(UriEncoded(s)) == Some(s)
  {
    DecodeEncodedBytes(Encode(s));
    DecodeEncode(s);
  }

  /** Unreserved text is kept as it is. */
  lemma {:induction false} UnreservedUnchanged(s: string)
    requires forall i :: 0 <= i < |s| ==> IsUnreservedChar(s[i])
    ensures UriEncoded(s) == s
  {
    if s != [] {
      var b := s[0] as int as byte;
      assert EncodeChar(s[0]) == [b];
      var e := Encode(s);
      assert e == [b] + Encode(s[1..]);
      assert e[0] == b && e[1..] == Encode(s[1..]);
      UnreservedUnchanged(s[1..]);
      assert EncodeByte(b) == [s[0]];
      assert [s[0]] + s[1..] == s;
    }
  }

  // ---------------------------------------------------------------------
  // heroic_exec

  /** Stores that Heroic launches by app name alone. */
  predicate IsLocalStore(store: string)
  {
    store == [] || store == "heroic" || store == "wine" || store == "native" || store == "proton" || store == "sideload"
  }

  /** `heroic_exec`. */
  function HeroicExec(store: string, appName: string): (r: string)
    ensures StartsWith(r, Launcher.HEROIC_LAUNCH_PREFIX)
  {
    var encoded := UriEncoded(appName);
    if IsLocalStore(store) then Launcher.HEROIC_LAUNCH_PREFIX + encoded
    else Launcher.HEROIC_LAUNCH_PREFIX + store + "/" + encoded
  }

  /** A name made of unreserved characters appears as it is in the launch URL. */
  lemma HeroicExecUnreserved(store: string, appName: string)
    requires forall i :: 0 <= i < |appName| ==> IsUnreservedChar(appName[i])
    ensures HeroicExec(store, appName) ==
      if IsLocalStore(store) then Launcher.HEROIC_LAUNCH_PREFIX + appName
      else Launcher.HEROIC_LAUNCH_PREFIX + store + "/" + appName
  {
    UnreservedUnchanged(appName);
  }

  /** The runners of the test of game_sources.rs: `wine`, `native` and `sideload` launch by app name alone, `legendary` with its store. */
  lemma HeroicExecRunners(appName: string)
    requires forall i :: 0 <= i < |appName| ==> IsUnreservedChar(appName[i])
    ensures HeroicExec("wine", appName) == "xdg-open heroic://launch/" + appName
    ensures HeroicExec("native", appName) == "xdg-open heroic://launch/" + appName
    ensures HeroicExec("sideload", appName) == "xdg-open heroic://launch/" + appName
    ensures HeroicExec("legendary", appName) == "xdg-open heroic://launch/legendary/" + appName
  {
    HeroicExecUnreserved("wine", appName);
    HeroicExecUnreserved("native", appName);
    HeroicExecUnreserved("sideload", appName);
    HeroicExecUnreserved("legendary", appName);
  }

  lemma UriEncodedPlain(s: string)
    ensures NoWhitespace(UriEncoded(s)) && '/' !in UriEncoded(s)
  {
  }

  /** Text without whitespace cannot start with the Heroic prefix, whose
      ninth character is a space. */
  lemma NoWhitespaceNotPrefixed(x: string)
    requires NoWhitespace(x)
    ensures !StartsWith(x, Launcher.HEROIC_LAUNCH_PREFIX)
    ensures TrimStartMatches(Launcher.HEROIC_LAUNCH_PREFIX + x, Launcher.HEROIC_LAUNCH_PREFIX) == x
  {
    var p := Launcher.HEROIC_LAUNCH_PREFIX;
    assert p[8] == ' ' && IsWhitespace(' ');
    assert |x| > 8 ==> !IsWhitespace(x[8]);
    assert (p + x)[|p|..] == x;
  }

  lemma SplitAtFirstSlash(a: string, b: string)
    requires '/' !in a && '/' !in b
    ensures Split(a + "/" + b, '/') == [a, b]
  {
    var s := a + "/" + b;
    assert s[|a|] == '/';
    assert s[..|a|] == a && s[|a| + 1..] == b;
    assert forall j :: 0 <= j < |a| ==> s[j] == a[j];
    assert forall k :: |a| < k <= |s| ==> s[|a|] in s[..k];
    assert FindChar(s, '/') == Some(|a|);
  }

  /** The app name of a Heroic launch line without whitespace after the prefix. */
  lemma HeroicAppNameAfterPrefix(x: string)
    requires NoWhitespace(x)
    ensures Launcher.HeroicAppName(Launcher.HEROIC_LAUNCH_PREFIX + x) ==
      var parts := Split(x, '/');
      if |parts| >= 2 then Launcher.UrlDecode(parts[1]) else Launcher.UrlDecode(parts[0])
  {
    NoWhitespaceNotPrefixed(x);
    TrimOfNoWhitespace(x);
  }

  lemma LocalStoreNamesApp(store: string, appName: string)
    requires IsLocalStore(store)
    ensures Launcher.HeroicAppName(HeroicExec(store, appName)) == Some(appName)
  {
    var enc := UriEncoded(appName);
    UriEncodedPlain(appName);
    UriRoundTrip(appName);
    HeroicAppNameAfterPrefix(enc);
    assert Split(enc, '/') == [enc];
  }

  lemma RemoteStoreNamesApp(store: string, appName: string)
    requires store != [] && NoWhitespace(store) && '/' !in store && !IsLocalStore(store)
    ensures Launcher.HeroicAppName(HeroicExec(store, appName)) == Some(appName)
  {
    var enc := UriEncoded(appName);
    UriEncodedPlain(appName);
    UriRoundTrip(appName);
    var x := store + "/" + enc;
    assert NoWhitespace(x) by {
      assert forall i :: 0 <= i < |x| ==> x[i] == (if i < |store| then store[i] else if i == |store| then '/' else enc[i - |store| - 1]);
    }
    var p := Launcher.HEROIC_LAUNCH_PREFIX;
    assert HeroicExec(store, appName) == p + x by {
      ConcatAssoc(p, store + "/", enc);
      ConcatAssoc(p, store, "/");
    }
    HeroicAppNameAfterPrefix(x);
    SplitAtFirstSlash(store, enc);
  }

  /** The app name of a Heroic launch line is the app name that was encoded
      into it, for a local store and for a store name without `/` or
      whitespace. */
  lemma HeroicExecNamesApp(store: string, appName: string)
    requires IsLocalStore(store) || (store != [] && NoWhitespace(store) && '/' !in store)
    ensures Launcher.HeroicAppName(HeroicExec(store, appName)) == Some(appName)
  {
    if IsLocalStore(store) {
      LocalStoreNamesApp(store, appName);
    } else {
      RemoteStoreNamesApp(store, appName);
    }
  }

  /** A game launched through Heroic is monitored by its app name. */
  lemma HeroicExecMonitorTarget(store: string, appName: string, itemName: string, gameExecutable: Option<string>)
    requires IsLocalStore(store) || (store != [] && NoWhitespace(store) && '/' !in store)
    ensures Launcher.ResolveMonitorTarget(HeroicExec(store, appName), itemName, gameExecutable)
            == Some(FocusManager.Any(Launcher.HeroicTargets(appName, itemName, gameExecutable)))
  {
    HeroicExecNamesApp(store, appName);
    HeroicIsNotSteam(HeroicExec(store, appName));
  }

  lemma HeroicIsNotSteam(exec: string)
    requires StartsWith(exec, Launcher.HEROIC_LAUNCH_PREFIX)
    ensures !StartsWith(exec, Launcher.STEAM_LAUNCH_PREFIX)
  {
    assert exec[0] == Launcher.HEROIC_LAUNCH_PREFIX[0] == 'x';
    assert Launcher.STEAM_LAUNCH_PREFIX[0] == 's';
  }

  // ---------------------------------------------------------------------
  // parse_json_bool, heroic_game_from_object

  /** `parse_json_bool`: a boolean, or one of the strings true/1/false/0 in any case. */
  function ParseJsonBool(v: Json.Value): (r: Option<bool>)
    ensures r.Some? ==> v.Bool? || v.Str?
    ensures v.Bool? ==> r == Some(v.b)
  {
    match v
    case Bool(b) => Some(b)
    case Str(s) =>
      var l := ToLower(s);
      if l == "true" || l == "1" then Some(true)
      else if l == "false" || l == "0" then Some(false)
      else None
    case _ => None
  }

  /** Spelling does not matter: a string flag parses as its lower-case form does. */
  lemma ParseJsonBoolIgnoresCase(s: string)
    ensures ParseJsonBool(Json.Str(s)) == ParseJsonBool(Json.Str(ToLower(s)))
  {
    ToLowerIdempotent(s);
  }

  datatype HeroicGame = HeroicGame(
    appName: string,
    title: string,
    store: string,
    artCover: Option<string>,
    executable: Option<string>,
    launchKey: string)

  function FlagOf(members: seq<(string, Json.Value)>, key: string): Option<bool>
  {
    match Json.Lookup(members, key)
    case None => None
    case Some(v) => ParseJsonBool(v)
  }

  /** The installed flag: the first of `installed`, `is_installed`,
      `isInstalled` and `install.is_installed` that parses. */
  function InstalledFlag(members: seq<(string, Json.Value)>): Option<bool>
  {
    var nested :=
      match Json.Lookup(members, "install")
      case None => None
      case Some(install) =>
        match Json.Get(install, "is_installed")
        case None => None
        case Some(v) => ParseJsonBool(v);
    FlagOf(members, "installed").Or(FlagOf(members, "is_installed")).Or(FlagOf(members, "isInstalled")).Or(nested)
  }

  /** With `require_installed` only an installed object counts; without it
      only one marked as not installed is refused. */
  predicate InstallAccepted(flag: Option<bool>, requireInstalled: bool)
  {
    if requireInstalled then flag == Some(true) else flag != Some(false)
  }

  function AppNameOf(key: Option<string>, members: seq<(string, Json.Value)>): Option<string>
  {
    Json.GetStr(members, "app_name").Or(Json.GetStr(members, "appName")).Or(key)
  }

  function TitleOf(members: seq<(string, Json.Value)>): Option<string>
  {
    Json.GetStr(members, "title").Or(Json.GetStr(members, "name")).Or(Json.GetStr(members, "display_name"))
  }

  function StoreOf(members: seq<(string, Json.Value)>, storeHint: string): string
  {
    Json.GetStr(members, "runner").Or(Json.GetStr(members, "store")).Or(Json.GetStr(members, "provider"))
      .Or(Json.GetStr(members, "backend")).UnwrapOr(storeHint)
  }

  /** `heroic:<store>:<app>`, or `heroic:<app>` without a store. */
  function HeroicLaunchKey(store: string, appName: string): string
  {
    if store == [] then "heroic:" + appName else "heroic:" + store + ":" + appName
  }

  /** The file name of `install.executable`, empty when it has none. */
  function ExecutableOf(members: seq<(string, Json.Value)>): Option<string>
  {
    match Json.Lookup(members, "install")
    case None => None
    case Some(install) =>
      match Json.Get(install, "executable")
      case Some(Str(path)) => Some(Paths.FileName(path).UnwrapOr([]))
      case _ => None
  }

  /** `heroic_game_from_object`. */
  function HeroicGameFromObject(key: Option<string>, members: seq<(string, Json.Value)>, storeHint: string,
                                requireInstalled: bool): (r: Option<HeroicGame>)
    ensures r.Some? <==>
      InstallAccepted(InstalledFlag(members), requireInstalled) &&
      AppNameOf(key, members).Some? && Trim(AppNameOf(key, members).value) != [] &&
      TitleOf(members).Some? && Trim(TitleOf(members).value) != []
    ensures r.Some? ==>
      r.value.appName == Trim(AppNameOf(key, members).value) && r.value.title == Trim(TitleOf(members).value) &&
      r.value.store == Trim(StoreOf(members, storeHint)) &&
      r.value.launchKey == HeroicLaunchKey(r.value.store, r.value.appName)
    ensures r.Some? ==> r.value.artCover == Json.GetStr(members, "art_cover").Or(Json.GetStr(members, "art_square"))
  {
    var installed := InstalledFlag(members);
    if !InstallAccepted(installed, requireInstalled) then None
    else
      var appName := AppNameOf(key, members);
      var title := TitleOf(members);
      if appName.None? || title.None? then None
      else
        var app := Trim(appName.value);
        var t := Trim(title.value);
        if app == [] || t == [] then None
        else
          var store := Trim(StoreOf(members, storeHint));
          Some(HeroicGame(app, t, store,
            Json.GetStr(members, "art_cover").Or(Json.GetStr(members, "art_square")),
            ExecutableOf(members), HeroicLaunchKey(store, app)))
  }

  /** The game an object gives, from the fields it was read from. */
  lemma FromObjectFields(key: Option<string>, members: seq<(string, Json.Value)>, storeHint: string, requireInstalled: bool,
                         app: string, title: string, store: string, art: Option<string>, exe: Option<string>)
    requires InstallAccepted(InstalledFlag(members), requireInstalled)
    requires AppNameOf(key, members) == Some(app) && TitleOf(members) == Some(title)
    requires Trim(app) != [] && Trim(title) != []
    requires StoreOf(members, storeHint) == store && ExecutableOf(members) == exe
    requires Json.GetStr(members, "art_cover").Or(Json.GetStr(members, "art_square")) == art
    ensures HeroicGameFromObject(key, members, storeHint, requireInstalled) ==
      Some(HeroicGame(Trim(app), Trim(title), Trim(store), art, exe, HeroicLaunchKey(Trim(store), Trim(app))))
  {
  }

  /** A game's names are trimmed and not empty. */
  predicate WellFormedGame(g: HeroicGame)
  {
    g.appName != [] && Trim(g.appName) == g.appName && g.title != [] && Trim(g.title) == g.title &&
    g.launchKey == HeroicLaunchKey(g.store, g.appName)
  }

  lemma FromObjectWellFormed(key: Option<string>, members: seq<(string, Json.Value)>, storeHint: string, requireInstalled: bool)
    requires HeroicGameFromObject(key, members, storeHint, requireInstalled).Some?
    ensures WellFormedGame(HeroicGameFromObject(key, members, storeHint, requireInstalled).value)
  {
    TrimIdempotent(AppNameOf(key, members).value);
    TrimIdempotent(TitleOf(members).value);
  }

  // ---------------------------------------------------------------------
  // collect_heroic_games

  /** The games `collect_heroic_games` appends for `v`. */
  function Collected(v: Json.Value, storeHint: string, requireInstalled: bool): (r: seq<HeroicGame>)
    decreases v, 1
  {
    match v
    case Array(items) => CollectItems(items, storeHint, requireInstalled)
    case Object(members) =>
      (match HeroicGameFromObject(None, members, storeHint, requireInstalled)
       case Some(g) => [g]
       case None =>
         CollectUnder(members, "installed", storeHint, requireInstalled) +
         CollectUnder(members, "games", storeHint, requireInstalled) +
         CollectMembers(members, storeHint, requireInstalled))
    case _ => []
  }

  function CollectItems(items: seq<Json.Value>, storeHint: string, requireInstalled: bool): (r: seq<HeroicGame>)
    decreases items, 0
  {
    if items == [] then []
    else Collected(items[0], storeHint, requireInstalled) + CollectItems(items[1..], storeHint, requireInstalled)
  }

  /** The games under the first member named `key`, as `map.get(key)` finds it. */
  function CollectUnder(members: seq<(string, Json.Value)>, key: string, storeHint: string, requireInstalled: bool): (r: seq<HeroicGame>)
    decreases members, 0
  {
    if members == [] then []
    else if members[0].0 == key then CollectValue(members[0], storeHint, requireInstalled)
    else CollectUnder(members[1..], key, storeHint, requireInstalled)
  }

  function CollectValue(member: (string, Json.Value), storeHint: string, requireInstalled: bool): (r: seq<HeroicGame>)
    decreases member, 0
  {
    Collected(member.1, storeHint, requireInstalled)
  }

  /** One iteration of the loop over the members: `installed` and `games`
      are passed over, an object is a game or is searched, an array is
      searched. */
  function CollectMember(member: (string, Json.Value), storeHint: string, requireInstalled: bool): (r: seq<HeroicGame>)
    decreases member, 0
  {
    var (key, value) := member;
    if key == "installed" || key == "games" then []
    else
      match value
      case Object(obj) =>
        (match HeroicGameFromObject(Some(key), obj, storeHint, requireInstalled)
         case Some(g) => [g]
         case None => Collected(value, storeHint, requireInstalled))
      case Array(_) => Collected(value, storeHint, requireInstalled)
      case _ => []
  }

  function CollectMembers(members: seq<(string, Json.Value)>, storeHint: string, requireInstalled: bool): (r: seq<HeroicGame>)
    decreases members, 0
  {
    if members == [] then []
    else CollectMember(members[0], storeHint, requireInstalled) + CollectMembers(members[1..], storeHint, requireInstalled)
  }

  /** Every game of a list is well formed. */
  predicate AllWellFormed(games: seq<HeroicGame>)
  {
    forall i :: 0 <= i < |games| ==> WellFormedGame(games[i])
  }

  lemma AllWellFormedConcat(a: seq<HeroicGame>, b: seq<HeroicGame>)
    requires AllWellFormed(a) && AllWellFormed(b)
    ensures AllWellFormed(a + b)
  {
    assert forall i :: |a| <= i < |a + b| ==> (a + b)[i] == b[i - |a|];
  }

  lemma AllWellFormedSingle(g: HeroicGame)
    requires WellFormedGame(g)
    ensures AllWellFormed([g])
  {
  }

  /** Every game `collect_heroic_games` finds has a trimmed, non-empty app name and title. */
  lemma {:induction false} CollectedWellFormed(v: Json.Value, storeHint: string, requireInstalled: bool)
    ensures AllWellFormed(Collected(v, storeHint, requireInstalled))
    decreases v, 2
  {
    match v
    case Array(items) =>
      CollectItemsWellFormed(items, storeHint, requireInstalled);
    case Object(members) =>
      CollectedObjectWellFormed(members, storeHint, requireInstalled);
    case _ =>
  }

  lemma {:induction false} CollectedObjectWellFormed(members: seq<(string, Json.Value)>, storeHint: string, requireInstalled: bool)
    ensures AllWellFormed(Collected(Json.Object(members), storeHint, requireInstalled))
    decreases Json.Object(members), 1
  {
    var g := HeroicGameFromObject(None, members, storeHint, requireInstalled);
    if g.Some? {
      CollectedObjectGame(members, storeHint, requireInstalled, g.value);
      FromObjectWellFormed(None, members, storeHint, requireInstalled);
      AllWellFormedSingle(g.value);
    } else {
      var installed := CollectUnder(members, "installed", storeHint, requireInstalled);
      var listed := CollectUnder(members, "games", storeHint, requireInstalled);
      var others := CollectMembers(members, storeHint, requireInstalled);
      CollectedObjectSearched(members, storeHint, requireInstalled);
      CollectUnderWellFormed(members, "installed", storeHint, requireInstalled);
      CollectUnderWellFormed(members, "games", storeHint, requireInstalled);
      CollectMembersWellFormed(members, storeHint, requireInstalled);
      AllWellFormedConcat(installed, listed);
      AllWellFormedConcat(installed + listed, others);
    }
  }

  /** An object that is a game is collected as that game alone. */
  lemma CollectedObjectGame(members: seq<(string, Json.Value)>, storeHint: string, requireInstalled: bool, g: HeroicGame)
    requires HeroicGameFromObject(None, members, storeHint, requireInstalled) == Some(g)
    ensures Collected(Json.Object(members), storeHint, requireInstalled) == [g]
  {
  }

  /** An object that is not a game is searched under `installed`, then `games`, then every member. */
  lemma CollectedObjectSearched(members: seq<(string, Json.Value)>, storeHint: string, requireInstalled: bool)
    requires HeroicGameFromObject(None, members, storeHint, requireInstalled).None?
    ensures Collected(Json.Object(members), storeHint, requireInstalled) ==
      CollectUnder(members, "installed", storeHint, requireInstalled) +
      CollectUnder(members, "games", storeHint, requireInstalled) +
      CollectMembers(members, storeHint, requireInstalled)
  {
  }

  lemma {:induction false} CollectItemsWellFormed(items: seq<Json.Value>, storeHint: string, requireInstalled: bool)
    ensures AllWellFormed(CollectItems(items, storeHint, requireInstalled))
    decreases items, 0
  {
    if items != [] {
      CollectedWellFormed(items[0], storeHint, requireInstalled);
      CollectItemsWellFormed(items[1..], storeHint, requireInstalled);
      AllWellFormedConcat(Collected(items[0], storeHint, requireInstalled), CollectItems(items[1..], storeHint, requireInstalled));
    }
  }

  lemma {:induction false} CollectUnderWellFormed(members: seq<(string, Json.Value)>, key: string, storeHint: string, requireInstalled: bool)
    ensures AllWellFormed(CollectUnder(members, key, storeHint, requireInstalled))
    decreases members, 0
  {
    if members != [] {
      if members[0].0 == key {
        CollectValueWellFormed(members[0], storeHint, requireInstalled);
      } else {
        CollectUnderWellFormed(members[1..], key, storeHint, requireInstalled);
      }
    }
  }

  lemma {:induction false} CollectValueWellFormed(member: (string, Json.Value), storeHint: string, requireInstalled: bool)
    ensures AllWellFormed(CollectValue(member, storeHint, requireInstalled))
    decreases member, 0
  {
    CollectedWellFormed(member.1, storeHint, requireInstalled);
  }

  lemma {:induction false} CollectMemberWellFormed(member: (string, Json.Value), storeHint: string, requireInstalled: bool)
    ensures AllWellFormed(CollectMember(member, storeHint, requireInstalled))
    decreases member, 0
  {
    var key := member.0;
    var value := member.1;
    if key == "installed" || key == "games" || !(value.Object? || value.Array?) {
      MemberSkipped(member, storeHint, requireInstalled);
    } else if value.Object? && HeroicGameFromObject(Some(key), value.members, storeHint, requireInstalled).Some? {
      var g := HeroicGameFromObject(Some(key), value.members, storeHint, requireInstalled).value;
      FromObjectWellFormed(Some(key), value.members, storeHint, requireInstalled);
      MemberIsGame(member, storeHint, requireInstalled, g);
      AllWellFormedSingle(g);
    } else {
      MemberSearched(member, storeHint, requireInstalled);
      CollectedWellFormed(value, storeHint, requireInstalled);
    }
  }

  lemma {:induction false} CollectMembersWellFormed(members: seq<(string, Json.Value)>, storeHint: string, requireInstalled: bool)
    ensures AllWellFormed(CollectMembers(members, storeHint, requireInstalled))
    decreases members, 0
  {
    if members != [] {
      assert members[0] in members;
      CollectMemberWellFormed(members[0], storeHint, requireInstalled);
      CollectMembersWellFormed(members[1..], storeHint, requireInstalled);
      AllWellFormedConcat(CollectMember(members[0], storeHint, requireInstalled), CollectMembers(members[1..], storeHint, requireInstalled));
    }
  }

  /** One step of the loop over an array's items. */
  lemma CollectItemsStep(out: seq<HeroicGame>, items: seq<Json.Value>, k: nat, storeHint: string, requireInstalled: bool)
    requires k < |items|
    ensures out + CollectItems(items[k..], storeHint, requireInstalled) ==
      (out + Collected(items[k], storeHint, requireInstalled)) + CollectItems(items[k + 1..], storeHint, requireInstalled)
  {
    assert items[k..][0] == items[k] && items[k..][1..] == items[k + 1..];
    ConcatAssoc(out, Collected(items[k], storeHint, requireInstalled), CollectItems(items[k + 1..], storeHint, requireInstalled));
  }

  /** One step of the loop over an object's members. */
  lemma CollectMembersStep(out: seq<HeroicGame>, members: seq<(string, Json.Value)>, k: nat, storeHint: string, requireInstalled: bool)
    requires k < |members|
    ensures out + CollectMembers(members[k..], storeHint, requireInstalled) ==
      (out + CollectMember(members[k], storeHint, requireInstalled)) + CollectMembers(members[k + 1..], storeHint, requireInstalled)
  {
    assert members[k..][0] == members[k] && members[k..][1..] == members[k + 1..];
    ConcatAssoc(out, CollectMember(members[k], storeHint, requireInstalled), CollectMembers(members[k + 1..], storeHint, requireInstalled));
  }

  /** `collect_heroic_games`: appends the games found in `value` to `games`. */
  method CollectHeroicGames(value: Json.Value, storeHint: string, requireInstalled: bool, games: seq<HeroicGame>)
    returns (out: seq<HeroicGame>)
    ensures out == games + Collected(value, storeHint, requireInstalled)
    decreases value, 1
  {
    match value {
      case Array(items) =>
        out := CollectArrayInto(items, storeHint, requireInstalled, games);
      case Object(members) =>
        out := CollectObjectInto(members, storeHint, requireInstalled, games);
      case _ =>
        out := games;
        assert games + [] == games;
    }
  }

  /** The loop over the items of an array. */
  method CollectArrayInto(items: seq<Json.Value>, storeHint: string, requireInstalled: bool, games: seq<HeroicGame>)
    returns (out: seq<HeroicGame>)
    ensures out == games + CollectItems(items, storeHint, requireInstalled)
    decreases items, 2
  {
    out := games;
    var k := 0;
    while k < |items|
      invariant 0 <= k <= |items|
      invariant out + CollectItems(items[k..], storeHint, requireInstalled) == games + CollectItems(items, storeHint, requireInstalled)
    {
      CollectItemsStep(out, items, k, storeHint, requireInstalled);
      assert items[k] in items;
      out := CollectHeroicGames(items[k], storeHint, requireInstalled, out);
      k := k + 1;
    }
    assert items[k..] == [];
    assert out + [] == out;
  }

  /** An object: a game itself, or the games under `installed`, under
      `games` and in its other members, in that order. */
  method CollectObjectInto(members: seq<(string, Json.Value)>, storeHint: string, requireInstalled: bool, games: seq<HeroicGame>)
    returns (out: seq<HeroicGame>)
    ensures out == games + Collected(Json.Object(members), storeHint, requireInstalled)
    decreases members, 2
  {
    var game := HeroicGameFromObject(None, members, storeHint, requireInstalled);
    if game.Some? {
      out := games + [game.value];
      return;
    }
    var installed := CollectUnderKey(members, "installed", storeHint, requireInstalled, games);
    var listed := CollectUnderKey(members, "games", storeHint, requireInstalled, installed);
    out := CollectMembersInto(members, storeHint, requireInstalled, listed);
    ghost var under := CollectUnder(members, "installed", storeHint, requireInstalled);
    ghost var gamesUnder := CollectUnder(members, "games", storeHint, requireInstalled);
    ghost var others := CollectMembers(members, storeHint, requireInstalled);
    assert Collected(Json.Object(members), storeHint, requireInstalled) == under + gamesUnder + others;
    ConcatAssoc(games, under, gamesUnder);
    ConcatAssoc(games, under + gamesUnder, others);
  }

  /** The loop over an object's members. */
  method CollectMembersInto(members: seq<(string, Json.Value)>, storeHint: string, requireInstalled: bool, games: seq<HeroicGame>)
    returns (out: seq<HeroicGame>)
    ensures out == games + CollectMembers(members, storeHint, requireInstalled)
    decreases members, 1
  {
    out := games;
    var k := 0;
    while k < |members|
      invariant 0 <= k <= |members|
      invariant out + CollectMembers(members[k..], storeHint, requireInstalled) == games + CollectMembers(members, storeHint, requireInstalled)
    {
      CollectMembersStep(out, members, k, storeHint, requireInstalled);
      assert members[k] in members;
      out := CollectMemberInto(members[k], storeHint, requireInstalled, out);
      k := k + 1;
    }
    assert members[k..] == [];
    assert out + [] == out;
  }

  /** `map.get(key)` followed by the recursive call on what it finds. */
  method CollectUnderKey(members: seq<(string, Json.Value)>, key: string, storeHint: string, requireInstalled: bool,
                         games: seq<HeroicGame>) returns (out: seq<HeroicGame>)
    ensures out == games + CollectUnder(members, key, storeHint, requireInstalled)
    decreases members, 0
  {
    var k := 0;
    while k < |members| && members[k].0 != key
      invariant 0 <= k <= |members|
      invariant forall j :: 0 <= j < k ==> members[j].0 != key
    {
      k := k + 1;
    }
    CollectUnderFirst(members, key, k, storeHint, requireInstalled);
    if k < |members| {
      assert members[k] in members;
      out := CollectValueInto(members[k], storeHint, requireInstalled, games);
    } else {
      out := games;
      assert games + [] == games;
    }
  }

  lemma {:induction false} CollectUnderFirst(members: seq<(string, Json.Value)>, key: string, k: nat, storeHint: string, requireInstalled: bool)
    requires k <= |members| && (k < |members| ==> members[k].0 == key)
    requires forall j :: 0 <= j < k ==> members[j].0 != key
    ensures CollectUnder(members, key, storeHint, requireInstalled) ==
      if k < |members| then Collected(members[k].1, storeHint, requireInstalled) else []
  {
    if members != [] && members[0].0 != key {
      CollectUnderFirst(members[1..], key, k - 1, storeHint, requireInstalled);
    }
  }

  method CollectValueInto(member: (string, Json.Value), storeHint: string, requireInstalled: bool, games: seq<HeroicGame>)
    returns (out: seq<HeroicGame>)
    ensures out == games + CollectValue(member, storeHint, requireInstalled)
    decreases member, 0
  {
    out := CollectHeroicGames(member.1, storeHint, requireInstalled, games);
  }

  /** One iteration of the member loop of `collect_heroic_games`. */
  method CollectMemberInto(member: (string, Json.Value), storeHint: string, requireInstalled: bool, games: seq<HeroicGame>)
    returns (out: seq<HeroicGame>)
    ensures out == games + CollectMember(member, storeHint, requireInstalled)
    decreases member, 0
  {
    var (key, value) := member;
    if key == "installed" || key == "games" || !(value.Object? || value.Array?) {
      MemberSkipped(member, storeHint, requireInstalled);
      out := games;
      assert games + [] == games;
      return;
    }
    if value.Object? {
      var game := HeroicGameFromObject(Some(key), value.members, storeHint, requireInstalled);
      if game.Some? {
        MemberIsGame(member, storeHint, requireInstalled, game.value);
        out := games + [game.value];
        return;
      }
    }
    MemberSearched(member, storeHint, requireInstalled);
    out := CollectHeroicGames(value, storeHint, requireInstalled, games);
  }

  /** The three outcomes of one member: passed over, a game itself, or searched. */
  lemma MemberSkipped(member: (string, Json.Value), storeHint: string, requireInstalled: bool)
    requires member.0 == "installed" || member.0 == "games" || !(member.1.Object? || member.1.Array?)
    ensures CollectMember(member, storeHint, requireInstalled) == []
  {
  }

  lemma MemberIsGame(member: (string, Json.Value), storeHint: string, requireInstalled: bool, g: HeroicGame)
    requires member.0 != "installed" && member.0 != "games" && member.1.Object?
    requires HeroicGameFromObject(Some(member.0), member.1.members, storeHint, requireInstalled) == Some(g)
    ensures CollectMember(member, storeHint, requireInstalled) == [g]
  {
  }

  lemma MemberSearched(member: (string, Json.Value), storeHint: string, requireInstalled: bool)
    requires member.0 != "installed" && member.0 != "games" && (member.1.Object? || member.1.Array?)
    requires member.1.Object? ==> HeroicGameFromObject(Some(member.0), member.1.members, storeHint, requireInstalled).None?
    ensures CollectMember(member, storeHint, requireInstalled) == Collected(member.1, storeHint, requireInstalled)
  {
  }

  /** `parse_heroic_library_json`, from the value `serde_json` parsed, or
      `None` when the text was not JSON. */
  function HeroicLibraryGames(parsed: Option<Json.Value>, storeHint: string): seq<HeroicGame>
  {
    match parsed
    case None => []
    case Some(v) => Collected(v, storeHint, true)
  }

  /** Every game of a library file has a trimmed, non-empty app name and title. */
  lemma HeroicLibraryGamesWellFormed(parsed: Option<Json.Value>, storeHint: string)
    ensures AllWellFormed(HeroicLibraryGames(parsed, storeHint))
  {
    if parsed.Some? {
      CollectedWellFormed(parsed.value, storeHint, true);
    }
  }

  // Scenarios of the tests of game_sources.rs, over any names.

  predicate IsScalar(v: Json.Value)
  {
    !v.Object? && !v.Array?
  }

  lemma {:induction false} ScalarUnderNothing(members: seq<(string, Json.Value)>, key: string, storeHint: string, requireInstalled: bool)
    requires forall i :: 0 <= i < |members| ==> IsScalar(members[i].1)
    ensures CollectUnder(members, key, storeHint, requireInstalled) == []
  {
    if members != [] && members[0].0 == key {
      assert IsScalar(members[0].1);
      assert Collected(members[0].1, storeHint, requireInstalled) == [];
      assert CollectValue(members[0], storeHint, requireInstalled) == [];
    } else if members != [] {
      ScalarUnderNothing(members[1..], key, storeHint, requireInstalled);
    }
  }

  lemma {:induction false} ScalarMembersNothing(members: seq<(string, Json.Value)>, storeHint: string, requireInstalled: bool)
    requires forall i :: 0 <= i < |members| ==> IsScalar(members[i].1)
    ensures CollectMembers(members, storeHint, requireInstalled) == []
  {
    if members != [] {
      ScalarMembersNothing(members[1..], storeHint, requireInstalled);
    }
  }

  /** An object that is not a game and holds only scalars yields nothing. */
  lemma ScalarObjectNothing(members: seq<(string, Json.Value)>, storeHint: string, requireInstalled: bool)
    requires HeroicGameFromObject(None, members, storeHint, requireInstalled).None?
    requires forall i :: 0 <= i < |members| ==> IsScalar(members[i].1)
    ensures Collected(Json.Object(members), storeHint, requireInstalled) == []
  {
    ScalarUnderNothing(members, "installed", storeHint, requireInstalled);
    ScalarUnderNothing(members, "games", storeHint, requireInstalled);
    ScalarMembersNothing(members, storeHint, requireInstalled);
  }

  /** A Heroic library entry as the tests write it. */
  function GameObject(appName: string, title: string, installed: bool, runner: string): seq<(string, Json.Value)>
  {
    [("app_name", Json.Str(appName)), ("title", Json.Str(title)), ("is_installed", Json.Bool(installed)), ("runner", Json.Str(runner))]
  }

  predicate TrimmedName(s: string)
  {
    s != [] && Trim(s) == s
  }

  /** What each key finds in a `GameObject`. */
  lemma GameObjectLookup(appName: string, title: string, installed: bool, runner: string, key: string)
    ensures Json.Lookup(GameObject(appName, title, installed, runner), key) ==
      if key == "app_name" then Some(Json.Str(appName))
      else if key == "title" then Some(Json.Str(title))
      else if key == "is_installed" then Some(Json.Bool(installed))
      else if key == "runner" then Some(Json.Str(runner))
      else None
  {
    var m3 := [("runner", Json.Str(runner))];
    var m2 := [("is_installed", Json.Bool(installed))] + m3;
    var m1 := [("title", Json.Str(title))] + m2;
    assert GameObject(appName, title, installed, runner) == [("app_name", Json.Str(appName))] + m1;
    assert m3 == m3 + [];
    Json.LookupStep("app_name", Json.Str(appName), m1, key);
    Json.LookupStep("title", Json.Str(title), m2, key);
    Json.LookupStep("is_installed", Json.Bool(installed), m3, key);
    Json.LookupStep("runner", Json.Str(runner), [], key);
  }

  lemma GameObjectFlag(appName: string, title: string, installed: bool, runner: string)
    ensures InstalledFlag(GameObject(appName, title, installed, runner)) == Some(installed)
  {
    var m := GameObject(appName, title, installed, runner);
    GameObjectLookup(appName, title, installed, runner, "installed");
    GameObjectLookup(appName, title, installed, runner, "is_installed");
    GameObjectLookup(appName, title, installed, runner, "isInstalled");
    GameObjectLookup(appName, title, installed, runner, "install");
  }

  lemma GameObjectScalar(appName: string, title: string, installed: bool, runner: string)
    ensures forall i :: 0 <= i < |GameObject(appName, title, installed, runner)| ==> IsScalar(GameObject(appName, title, installed, runner)[i].1)
  {
    var m := GameObject(appName, title, installed, runner);
    assert IsScalar(m[0].1) && IsScalar(m[1].1) && IsScalar(m[2].1) && IsScalar(m[3].1);
  }

  /** An installed entry becomes a game with its names, store and launch key. */
  lemma InstalledGameObject(appName: string, title: string, runner: string, storeHint: string)
    requires TrimmedName(appName) && TrimmedName(title) && TrimmedName(runner)
    ensures HeroicGameFromObject(None, GameObject(appName, title, true, runner), storeHint, true)
            == Some(HeroicGame(appName, title, runner, None, None, "heroic:" + runner + ":" + appName))
  {
    GameObjectFlag(appName, title, true, runner);
    var m := GameObject(appName, title, true, runner);
    assert AppNameOf(None, m) == Some(appName) by {
      GameObjectLookup(appName, title, true, runner, "app_name");
    }
    assert TitleOf(m) == Some(title) by {
      GameObjectLookup(appName, title, true, runner, "title");
    }
    assert StoreOf(m, storeHint) == runner by {
      GameObjectLookup(appName, title, true, runner, "runner");
    }
    assert ExecutableOf(m) == None by {
      GameObjectLookup(appName, title, true, runner, "install");
    }
    assert Json.GetStr(m, "art_cover").Or(Json.GetStr(m, "art_square")) == None by {
      GameObjectLookup(appName, title, true, runner, "art_cover");
      GameObjectLookup(appName, title, true, runner, "art_square");
    }
    FromObjectFields(None, m, storeHint, true, appName, title, runner, None, None);
  }

  /** An entry marked as not installed is refused. */
  lemma UninstalledGameObject(appName: string, title: string, runner: string, storeHint: string)
    ensures HeroicGameFromObject(None, GameObject(appName, title, false, runner), storeHint, true).None?
  {
    GameObjectFlag(appName, title, false, runner);
  }

  /** An array of one value collects what that value collects. */
  lemma CollectItemsSingle(x: Json.Value, storeHint: string, requireInstalled: bool)
    ensures CollectItems([x], storeHint, requireInstalled) == Collected(x, storeHint, requireInstalled)
  {
    assert [x][1..] == [];
    assert Collected(x, storeHint, requireInstalled) + [] == Collected(x, storeHint, requireInstalled);
  }

  lemma CollectItemsPair(x: Json.Value, y: Json.Value, storeHint: string, requireInstalled: bool)
    ensures CollectItems([x, y], storeHint, requireInstalled) == Collected(x, storeHint, requireInstalled) + Collected(y, storeHint, requireInstalled)
  {
    assert [x, y][1..] == [y];
    CollectItemsSingle(y, storeHint, requireInstalled);
  }

  /** A `{"games": [...]}` wrapper, as the tests write it, is not a game itself. */
  lemma GamesWrapperNotGame(items: seq<Json.Value>, storeHint: string)
    ensures HeroicGameFromObject(None, [("games", Json.Array(items))], storeHint, true).None?
    ensures CollectUnder([("games", Json.Array(items))], "installed", storeHint, true) == []
    ensures CollectMembers([("games", Json.Array(items))], storeHint, true) == []
    ensures Collected(Json.Object([("games", Json.Array(items))]), storeHint, true) == CollectItems(items, storeHint, true)
  {
    var top := [("games", Json.Array(items))];
    assert top == [("games", Json.Array(items))] + [];
    Json.LookupStep("games", Json.Array(items), [], "installed");
    Json.LookupStep("games", Json.Array(items), [], "is_installed");
    Json.LookupStep("games", Json.Array(items), [], "isInstalled");
    Json.LookupStep("games", Json.Array(items), [], "install");
    assert InstalledFlag(top) == None;
    assert top[1..] == [];
    assert CollectUnder(top, "games", storeHint, true) == CollectValue(top[0], storeHint, true);
    assert [] + CollectItems(items, storeHint, true) + [] == CollectItems(items, storeHint, true);
  }

  /** Of two listed entries, an accepted one and a refused one holding only
      scalars, only the accepted one is collected. */
  lemma FiltersRefused(accepted: seq<(string, Json.Value)>, refused: seq<(string, Json.Value)>, g: HeroicGame, storeHint: string)
    requires HeroicGameFromObject(None, accepted, storeHint, true) == Some(g)
    requires HeroicGameFromObject(None, refused, storeHint, true).None?
    requires forall i :: 0 <= i < |refused| ==> IsScalar(refused[i].1)
    ensures HeroicLibraryGames(Some(Json.Object([("games", Json.Array([Json.Object(accepted), Json.Object(refused)]))])), storeHint) == [g]
  {
    var items := [Json.Object(accepted), Json.Object(refused)];
    ScalarObjectNothing(refused, storeHint, true);
    GamesWrapperNotGame(items, storeHint);
    CollectedObjectGame(accepted, storeHint, true, g);
    CollectItemsPair(Json.Object(accepted), Json.Object(refused), storeHint, true);
    assert [g] + [] == [g];
  }

  /** `{"games": [installed, not installed]}` yields the installed game only. */
  lemma FiltersUninstalled(a1: string, t1: string, a2: string, t2: string, runner: string, storeHint: string)
    requires TrimmedName(a1) && TrimmedName(t1) && TrimmedName(runner)
    ensures HeroicLibraryGames(Some(Json.Object([("games", Json.Array([Json.Object(GameObject(a1, t1, true, runner)),
                                                                       Json.Object(GameObject(a2, t2, false, runner))]))])), storeHint)
            == [HeroicGame(a1, t1, runner, None, None, "heroic:" + runner + ":" + a1)]
  {
    var g := HeroicGame(a1, t1, runner, None, None, "heroic:" + runner + ":" + a1);
    InstalledGameObject(a1, t1, runner, storeHint);
    UninstalledGameObject(a2, t2, runner, storeHint);
    GameObjectScalar(a2, t2, false, runner);
    FiltersRefused(GameObject(a1, t1, true, runner), GameObject(a2, t2, false, runner), g, storeHint);
  }

  /** A sideloaded library is a bare array of entries. */
  lemma BareArray(m: seq<(string, Json.Value)>, g: HeroicGame, storeHint: string)
    requires HeroicGameFromObject(None, m, storeHint, true) == Some(g)
    ensures HeroicLibraryGames(Some(Json.Array([Json.Object(m)])), storeHint) == [g]
  {
    CollectedObjectGame(m, storeHint, true, g);
    CollectItemsSingle(Json.Object(m), storeHint, true);
  }

  /** The runner of the entry, not the hint, is the store. */
  lemma SideloadArray(appName: string, title: string, runner: string)
    requires TrimmedName(appName) && TrimmedName(title) && TrimmedName(runner)
    ensures HeroicLibraryGames(Some(Json.Array([Json.Object(GameObject(appName, title, true, runner))])), "sideload")
            == [HeroicGame(appName, title, runner, None, None, "heroic:" + runner + ":" + appName)]
  {
    InstalledGameObject(appName, title, runner, "sideload");
    BareArray(GameObject(appName, title, true, runner), HeroicGame(appName, title, runner, None, None, "heroic:" + runner + ":" + appName), "sideload");
  }

  /** An entry with both cover kinds, as the tests write it. */
  function ArtObject(runner: string, appName: string, title: string, cover: string, square: string): seq<(string, Json.Value)>
  {
    [("runner", Json.Str(runner)), ("app_name", Json.Str(appName)), ("title", Json.Str(title)),
     ("art_cover", Json.Str(cover)), ("art_square", Json.Str(square)), ("is_installed", Json.Bool(true))]
  }

  lemma ArtObjectLookup(runner: string, appName: string, title: string, cover: string, square: string, key: string)
    ensures Json.Lookup(ArtObject(runner, appName, title, cover, square), key) ==
      if key == "runner" then Some(Json.Str(runner))
      else if key == "app_name" then Some(Json.Str(appName))
      else if key == "title" then Some(Json.Str(title))
      else if key == "art_cover" then Some(Json.Str(cover))
      else if key == "art_square" then Some(Json.Str(square))
      else if key == "is_installed" then Some(Json.Bool(true))
      else None
  {
    var m5 := [("is_installed", Json.Bool(true))];
    var m4 := [("art_square", Json.Str(square))] + m5;
    var m3 := [("art_cover", Json.Str(cover))] + m4;
    var m2 := [("title", Json.Str(title))] + m3;
    var m1 := [("app_name", Json.Str(appName))] + m2;
    assert ArtObject(runner, appName, title, cover, square) == [("runner", Json.Str(runner))] + m1;
    assert m5 == m5 + [];
    Json.LookupStep("runner", Json.Str(runner), m1, key);
    Json.LookupStep("app_name", Json.Str(appName), m2, key);
    Json.LookupStep("title", Json.Str(title), m3, key);
    Json.LookupStep("art_cover", Json.Str(cover), m4, key);
    Json.LookupStep("art_square", Json.Str(square), m5, key);
    Json.LookupStep("is_installed", Json.Bool(true), [], key);
  }

  /** `art_cover` is preferred to `art_square`, and the runner names the
      store in the launch key. */
  lemma ArtCoverPreferred(runner: string, appName: string, title: string, cover: string, square: string, storeHint: string)
    requires TrimmedName(runner) && TrimmedName(appName) && TrimmedName(title)
    ensures var g := HeroicGameFromObject(None, ArtObject(runner, appName, title, cover, square), storeHint, true);
      g.Some? && g.value.artCover == Some(cover) && g.value.launchKey == "heroic:" + runner + ":" + appName
  {
    var m := ArtObject(runner, appName, title, cover, square);
    ArtObjectLookup(runner, appName, title, cover, square, "installed");
    ArtObjectLookup(runner, appName, title, cover, square, "is_installed");
    ArtObjectLookup(runner, appName, title, cover, square, "isInstalled");
    ArtObjectLookup(runner, appName, title, cover, square, "install");
    ArtObjectLookup(runner, appName, title, cover, square, "app_name");
    ArtObjectLookup(runner, appName, title, cover, square, "title");
    ArtObjectLookup(runner, appName, title, cover, square, "runner");
    ArtObjectLookup(runner, appName, title, cover, square, "art_cover");
    assert FlagOf(m, "installed") == None;
    assert FlagOf(m, "is_installed") == Some(true);
    assert InstalledFlag(m) == Some(true);
    assert AppNameOf(None, m) == Some(appName);
    assert TitleOf(m) == Some(title);
    assert StoreOf(m, storeHint) == runner;
    assert Json.GetStr(m, "art_cover") == Some(cover);
  }

  // ---------------------------------------------------------------------
  // is_manifest_file, appid_from_manifest_path, parse_steam_manifest_file

  const MANIFEST_PREFIX: string := "appmanifest_"

  /** `is_manifest_file`: `appmanifest_*.acf`. */
  predicate IsManifestFile(path: Paths.Path)
  {
    match Paths.FileName(path)
    case None => false
    case Some(name) => StartsWith(name, MANIFEST_PREFIX) && EndsWith(name, ".acf")
  }

  /** `appid_from_manifest_path`: the digits after `appmanifest_` in the stem. */
  function AppidFromManifestPath(path: Paths.Path): (r: Option<string>)
    ensures r.Some? ==> AllAsciiDigits(r.value) && Paths.FileStem(path) == Some(MANIFEST_PREFIX + r.value)
    ensures (Paths.FileStem(path).Some? && StartsWith(Paths.FileStem(path).value, MANIFEST_PREFIX) &&
             AllAsciiDigits(Paths.FileStem(path).value[|MANIFEST_PREFIX|..])) ==> r.Some?
  {
    match Paths.FileStem(path)
    case None => None
    case Some(stem) =>
      match StripPrefix(stem, MANIFEST_PREFIX)
      case None => None
      case Some(id) => if AllAsciiDigits(id) then Some(id) else None
  }

  function ManifestFileName(appid: string): string
  {
    MANIFEST_PREFIX + appid + ".acf"
  }

  lemma ManifestNameParts(appid: string)
    requires AllAsciiDigits(appid)
    ensures var name := ManifestFileName(appid);
      name == (MANIFEST_PREFIX + appid) + "." + "acf" && '/' !in name && |name| > 2 &&
      StartsWith(name, MANIFEST_PREFIX) && EndsWith(name, ".acf")
  {
    var stem := MANIFEST_PREFIX + appid;
    var name := ManifestFileName(appid);
    forall k | 0 <= k < |name| ensures name[k] != '/' {
      if |MANIFEST_PREFIX| <= k < |stem| {
        assert name[k] == appid[k - |MANIFEST_PREFIX|];
        assert IsAsciiDigit(appid[k - |MANIFEST_PREFIX|]);
      }
    }
    assert name == MANIFEST_PREFIX + (appid + ".acf");
    assert name[|name| - 4..] == ".acf";
  }

  /** The manifest Steam writes for an app is recognised, and its name gives
      the app id back. */
  lemma ManifestPathRoundTrip(dir: Paths.Path, appid: string)
    requires dir == [] || dir[|dir| - 1] == '/'
    requires AllAsciiDigits(appid)
    ensures IsManifestFile(dir + ManifestFileName(appid))
    ensures AppidFromManifestPath(dir + ManifestFileName(appid)) == Some(appid)
  {
    var stem := MANIFEST_PREFIX + appid;
    var name := ManifestFileName(appid);
    ManifestNameParts(appid);
    Paths.FileNameAfter(dir, name);
    Paths.RenamedParts(stem, "acf", name, dir + name);
    assert StripPrefix(stem, MANIFEST_PREFIX) == Some(appid);
  }

  /** `parse_steam_manifest_file`, given the manifest's text, or `None` when
      it could not be read. */
  function SteamManifestEntry(path: Paths.Path, contents: Option<string>, id: Uuid): (r: Option<AppEntry>)
    ensures r.Some? <==>
      contents.Some? && ManifestOfLines(Lines(contents.value)).Some? &&
      var m := ManifestOfLines(Lines(contents.value)).value;
      var appid := EffectiveAppid(m, AppidFromManifestPath(path));
      appid != [] && !IsIgnoredApp(m.name, appid)
    ensures r.Some? ==>
      var m := ManifestOfLines(Lines(contents.value)).value;
      var appid := EffectiveAppid(m, AppidFromManifestPath(path));
      r.value == AppEntry(id, m.name, Launcher.STEAM_LAUNCH_PREFIX + appid, None, None, Some("steam:" + appid))
  {
    if contents.None? then None
    else
      match ManifestOfLines(Lines(contents.value))
      case None => None
      case Some(m) =>
        var appid := EffectiveAppid(m, AppidFromManifestPath(path));
        if appid == [] || IsIgnoredApp(m.name, appid) then None
        else Some(WithLaunchKey(NewAppEntry(id, m.name, Launcher.STEAM_LAUNCH_PREFIX + appid, None), "steam:" + appid))
  }

  /** The manifest's app id, or the one in the file name when it has none. */
  function EffectiveAppid(m: SteamManifest, fromName: Option<string>): (r: string)
    ensures m.appid != [] ==> r == m.appid
    ensures m.appid == [] ==> r == fromName.UnwrapOr([])
  {
    if m.appid == [] && fromName.Some? then fromName.value else m.appid
  }

  /** An entry listed by a manifest without an app id takes the id from the
      manifest's own file name. */
  lemma AppidFallback(dir: Paths.Path, appid: string, contents: string, id: Uuid)
    requires dir == [] || dir[|dir| - 1] == '/'
    requires AllAsciiDigits(appid) && appid != []
    requires ManifestOfLines(Lines(contents)).Some? && ManifestOfLines(Lines(contents)).value.appid == []
    requires !IsIgnoredApp(ManifestOfLines(Lines(contents)).value.name, appid)
    ensures var r := SteamManifestEntry(dir + ManifestFileName(appid), Some(contents), id);
      r.Some? && r.value.exec == Launcher.STEAM_LAUNCH_PREFIX + appid && r.value.launchKey == Some("steam:" + appid)
  {
    var path := dir + ManifestFileName(appid);
    ManifestPathRoundTrip(dir, appid);
    var m := ManifestOfLines(Lines(contents)).value;
    assert EffectiveAppid(m, AppidFromManifestPath(path)) == appid;
    var r := SteamManifestEntry(path, Some(contents), id);
    assert r.Some?;
    assert r.value == AppEntry(id, m.name, Launcher.STEAM_LAUNCH_PREFIX + appid, None, None, Some("steam:" + appid));
  }

  /** A Steam entry is monitored by its app id once launched. */
  lemma SteamEntryMonitorTarget(path: Paths.Path, contents: Option<string>, id: Uuid, gameExecutable: Option<string>)
    requires SteamManifestEntry(path, contents, id).Some?
    requires NoWhitespace(EffectiveAppid(ManifestOfLines(Lines(contents.value)).value, AppidFromManifestPath(path)))
    ensures var e := SteamManifestEntry(path, contents, id).value;
      Launcher.ResolveMonitorTarget(e.exec, e.name, gameExecutable) ==
      Some(FocusManager.SteamAppId(EffectiveAppid(ManifestOfLines(Lines(contents.value)).value, AppidFromManifestPath(path))))
  {
    var e := SteamManifestEntry(path, contents, id).value;
    var appid := EffectiveAppid(ManifestOfLines(Lines(contents.value)).value, AppidFromManifestPath(path));
    Launcher.SteamLaunchTarget(appid, e.name, gameExecutable);
  }

  // ---------------------------------------------------------------------
  // scan_games: sort by (name, exec) and drop duplicates

  function GameOrder(a: AppEntry, b: AppEntry): Ordering
  {
    StrCmp(a.name, b.name).Then(StrCmp(a.exec, b.exec))
  }

  predicate SameGame(a: AppEntry, b: AppEntry)
  {
    a.name == b.name && a.exec == b.exec
  }

  /** The games `scan_games` returns for the Steam and Heroic scans. */
  function MergeGames(steam: seq<AppEntry>, heroic: seq<AppEntry>): (r: seq<AppEntry>)
    ensures |r| <= |steam| + |heroic|
  {
    DedupBy(SortBy(steam + heroic, GameOrder), SameGame)
  }

  lemma GameOrderEqual(a: AppEntry, b: AppEntry)
    ensures GameOrder(a, b) == Equal <==> SameGame(a, b)
  {
    StrCmpEqual(a.name, b.name);
    StrCmpEqual(a.exec, b.exec);
  }

  lemma GameOrderAntisymmetric(a: AppEntry, b: AppEntry)
    ensures GameOrder(a, b) == GameOrder(b, a).Reverse()
  {
    StrCmpAntisymmetric(a.name, b.name);
    StrCmpAntisymmetric(a.exec, b.exec);
    StrCmpEqual(a.name, b.name);
  }

  lemma GameOrderTransitive(a: AppEntry, b: AppEntry, c: AppEntry)
    requires GameOrder(a, b) != Greater && GameOrder(b, c) != Greater
    ensures GameOrder(a, c) != Greater
  {
    StrCmpEqual(a.name, b.name);
    StrCmpEqual(b.name, c.name);
    StrCmpEqual(a.name, c.name);
    StrCmpAntisymmetric(a.name, b.name);
    StrCmpTransitive(a.name, b.name, c.name);
    if StrCmp(a.name, b.name) == Equal && StrCmp(b.name, c.name) == Equal {
      StrCmpTransitive(a.exec, b.exec, c.exec);
    }
  }

  /** `(name, exec)` order is a total order and `SameGame` is its equality. */
  lemma GameOrderIsTotal()
    ensures Antisymmetric(GameOrder) && Transitive(GameOrder)
    ensures forall a, b :: SameGame(a, b) <==> GameOrder(a, b) == Equal
  {
    forall a, b ensures GameOrder(a, b) == GameOrder(b, a).Reverse() {
      GameOrderAntisymmetric(a, b);
    }
    forall a, b, c | GameOrder(a, b) != Greater && GameOrder(b, c) != Greater
      ensures GameOrder(a, c) != Greater
    {
      GameOrderTransitive(a, b, c);
    }
    forall a, b ensures SameGame(a, b) <==> GameOrder(a, b) == Equal {
      GameOrderEqual(a, b);
    }
  }

  /** The merged list is strictly ordered by `(name, exec)`, so no two
      entries share both. */
  lemma MergeStrictlySorted(steam: seq<AppEntry>, heroic: seq<AppEntry>)
    ensures var r := MergeGames(steam, heroic);
      forall i, j :: 0 <= i < j < |r| ==> GameOrder(r[i], r[j]) == Less && !SameGame(r[i], r[j])
  {
    GameOrderIsTotal();
    SortDedupDistinct(steam + heroic, GameOrder, SameGame);
  }

  /** Every merged entry comes from one of the scans. */
  lemma MergeFromInputs(steam: seq<AppEntry>, heroic: seq<AppEntry>)
    ensures forall e :: e in MergeGames(steam, heroic) ==> e in steam || e in heroic
  {
    var sorted := SortBy(steam + heroic, GameOrder);
    SortByPermutes(steam + heroic, GameOrder);
    DedupPermutesSubset(sorted, SameGame);
    forall e | e in MergeGames(steam, heroic) ensures e in steam || e in heroic {
      assert e in multiset(MergeGames(steam, heroic));
      assert e in multiset(steam + heroic);
    }
  }

  /** Every scanned entry survives, itself or as an entry with its name and
      command. */
  lemma MergeKeepsEveryGame(steam: seq<AppEntry>, heroic: seq<AppEntry>, e: AppEntry)
    requires e in steam || e in heroic
    ensures exists j :: 0 <= j < |MergeGames(steam, heroic)| && SameGame(e, MergeGames(steam, heroic)[j])
  {
    var sorted := SortBy(steam + heroic, GameOrder);
    SortByPermutes(steam + heroic, GameOrder);
    assert e in multiset(steam + heroic);
    assert e in sorted by {
      assert e in multiset(sorted);
    }
    var i :| 0 <= i < |sorted| && sorted[i] == e;
    var r := DedupBy(sorted, SameGame);
    assert r == MergeGames(steam, heroic);
    DedupRepresents(sorted, SameGame, i);
    var j :| 0 <= j < |r| && (r[j] == sorted[i] || SameGame(sorted[i], r[j]));
    assert SameGame(e, r[j]);
  }

  lemma SortThree(a: AppEntry, b: AppEntry, c: AppEntry)
    requires GameOrder(b, a) == Greater && GameOrder(c, a) == Equal && GameOrder(c, b) == Less
    ensures SortBy([a, b, c], GameOrder) == [a, c, b]
  {
    var s := [a, b, c];
    assert s[..2] == [a, b] && [a, b][..1] == [a] && [a][..0] == [];
    assert SortBy([a], GameOrder) == [a];
    assert [a][1..] == [];
    assert Insert(b, [a], GameOrder) == [a, b];
    assert SortBy([a, b], GameOrder) == [a, b];
    assert [b][1..] == [];
    assert Insert(c, [b], GameOrder) == [c, b];
    assert [a, b][1..] == [b];
    assert Insert(c, [a, b], GameOrder) == [a, c, b];
  }

  lemma DedupThree(a: AppEntry, b: AppEntry, c: AppEntry)
    requires SameGame(c, a) && !SameGame(b, c)
    ensures DedupBy([a, c, b], SameGame) == [a, b]
  {
    DedupByPair(a, c, SameGame);
    DedupByTriple(a, c, b, SameGame);
  }

  /** The deduplication test: a game listed twice with one command and once
      with a later one keeps its first entry, then the other command. */
  lemma DeduplicationOrder(a: AppEntry, b: AppEntry, c: AppEntry)
    requires a.name == b.name == c.name && c.exec == a.exec && StrCmp(a.exec, b.exec) == Less
    ensures MergeGames([a, b, c], []) == [a, b]
  {
    StrCmpEqual(a.name, a.name);
    StrCmpEqual(a.exec, a.exec);
    StrCmpEqual(a.exec, b.exec);
    StrCmpAntisymmetric(b.exec, a.exec);
    assert [a, b, c] + [] == [a, b, c];
    SortThree(a, b, c);
    DedupThree(a, b, c);
  }

  lemma Exec1BeforeExec2()
    ensures StrCmp("exec1", "exec2") == Less
  {
    assert "exec1"[1..] == "xec1" && "exec2"[1..] == "xec2";
    assert "xec1"[1..] == "ec1" && "xec2"[1..] == "ec2";
    assert "ec1"[1..] == "c1" && "ec2"[1..] == "c2";
    assert "c1"[1..] == "1" && "c2"[1..] == "2";
  }

  /** The literal scenario of that test. */
  lemma DeduplicationExample(i1: Uuid, i2: Uuid, i3: Uuid)
    ensures var r := MergeGames([NewAppEntry(i1, "Game", "exec1", None), NewAppEntry(i2, "Game", "exec2", None),
                                 NewAppEntry(i3, "Game", "exec1", None)], []);
      |r| == 2 && r[0].exec == "exec1" && r[1].exec == "exec2"
  {
    Exec1BeforeExec2();
    DeduplicationOrder(NewAppEntry(i1, "Game", "exec1", None), NewAppEntry(i2, "Game", "exec2", None),
                       NewAppEntry(i3, "Game", "exec1", None));
  }

  // ---------------------------------------------------------------------
  // scan_heroic_games: one entry per app name

  /** The entry pushed for a Heroic game. */
  function HeroicEntry(g: HeroicGame, id: Uuid): (r: AppEntry)
    ensures r.id == id && r.name == g.title && r.icon == g.artCover
    ensures r.exec == HeroicExec(g.store, g.appName)
    ensures r.gameExecutable == g.executable && r.launchKey == Some(g.launchKey)
  {
    WithLaunchKey(WithExecutable(NewAppEntry(id, g.title, HeroicExec(g.store, g.appName), g.artCover), g.executable), g.launchKey)
  }

  /** The games the loop keeps: not ignored, and the first with its app name. */
  function KeptGames(found: seq<HeroicGame>, seen: set<string>): (r: seq<HeroicGame>)
    ensures |r| <= |found|
  {
    if found == [] then []
    else
      var g := found[0];
      if IsIgnoredApp(g.title, g.appName) || g.appName in seen then
        KeptGames(found[1..], seen)
      else
        var rest := KeptGames(found[1..], seen + {g.appName});
        [g] + rest
  }

  lemma KeptSkip(found: seq<HeroicGame>, seen: set<string>)
    requires found != [] && (IsIgnoredApp(found[0].title, found[0].appName) || found[0].appName in seen)
    ensures KeptGames(found, seen) == KeptGames(found[1..], seen)
  {
  }

  lemma KeptKeep(found: seq<HeroicGame>, seen: set<string>)
    requires found != [] && !IsIgnoredApp(found[0].title, found[0].appName) && found[0].appName !in seen
    ensures KeptGames(found, seen) == [found[0]] + KeptGames(found[1..], seen + {found[0].appName})
  {
  }

  /** Every kept game comes from the input, is not ignored and had a name not yet seen. */
  lemma {:induction false} KeptGamesSound(found: seq<HeroicGame>, seen: set<string>)
    ensures forall i :: 0 <= i < |KeptGames(found, seen)| ==>
      KeptGames(found, seen)[i] in found && !IsIgnoredApp(KeptGames(found, seen)[i].title, KeptGames(found, seen)[i].appName) &&
      KeptGames(found, seen)[i].appName !in seen
  {
    if found != [] {
      var g := found[0];
      assert forall x :: x in found[1..] ==> x in found;
      if IsIgnoredApp(g.title, g.appName) || g.appName in seen {
        KeptSkip(found, seen);
        KeptGamesSound(found[1..], seen);
      } else {
        var s := seen + {g.appName};
        KeptGamesSound(found[1..], s);
        var rest := KeptGames(found[1..], s);
        var r := [g] + rest;
        KeptKeep(found, seen);
        forall i | 0 <= i < |r| ensures r[i] in found && !IsIgnoredApp(r[i].title, r[i].appName) && r[i].appName !in seen {
          if i > 0 {
            assert r[i] == rest[i - 1];
          }
        }
      }
    }
  }

  /** No two kept games share an app name. */
  lemma {:induction false} KeptGamesDistinct(found: seq<HeroicGame>, seen: set<string>)
    ensures forall i, j :: 0 <= i < j < |KeptGames(found, seen)| ==> KeptGames(found, seen)[i].appName != KeptGames(found, seen)[j].appName
  {
    if found != [] {
      var g := found[0];
      if IsIgnoredApp(g.title, g.appName) || g.appName in seen {
        KeptSkip(found, seen);
        KeptGamesDistinct(found[1..], seen);
      } else {
        var s := seen + {g.appName};
        KeptGamesDistinct(found[1..], s);
        KeptGamesSound(found[1..], s);
        var rest := KeptGames(found[1..], s);
        KeptKeep(found, seen);
        assert forall i :: 0 <= i < |rest| ==> rest[i].appName != g.appName;
        NamesDistinctCons(g, rest);
      }
    }
  }

  lemma NamesDistinctCons(g: HeroicGame, rest: seq<HeroicGame>)
    requires forall i :: 0 <= i < |rest| ==> rest[i].appName != g.appName
    requires forall i, j :: 0 <= i < j < |rest| ==> rest[i].appName != rest[j].appName
    ensures forall i, j :: 0 <= i < j < |[g] + rest| ==> ([g] + rest)[i].appName != ([g] + rest)[j].appName
  {
    var r := [g] + rest;
    forall i, j | 0 <= i < j < |r| ensures r[i].appName != r[j].appName {
      assert r[j] == rest[j - 1];
      if i > 0 {
        assert r[i] == rest[i - 1];
      }
    }
  }

  /** The app names marked seen after the loop. */
  function SeenAfter(found: seq<HeroicGame>, seen: set<string>): (r: set<string>)
    ensures seen <= r
  {
    if found == [] then seen
    else
      var g := found[0];
      SeenAfter(found[1..], if IsIgnoredApp(g.title, g.appName) then seen else seen + {g.appName})
  }

  /** No game is lost for want of a name: every game that is not ignored is
      kept, or its app name was seen before or is kept under another entry. */
  lemma {:induction false} KeptCoversNames(found: seq<HeroicGame>, seen: set<string>, g: HeroicGame) returns (k: nat)
    requires g in found && !IsIgnoredApp(g.title, g.appName)
    ensures g.appName in seen || (k < |KeptGames(found, seen)| && KeptGames(found, seen)[k].appName == g.appName)
  {
    var h := found[0];
    k := 0;
    if g == h {
      if h.appName !in seen {
        KeptKeep(found, seen);
      }
    } else {
      assert g in found[1..];
      if IsIgnoredApp(h.title, h.appName) || h.appName in seen {
        KeptSkip(found, seen);
        k := KeptCoversNames(found[1..], seen, g);
      } else {
        var rest := KeptGames(found[1..], seen + {h.appName});
        KeptKeep(found, seen);
        var j := KeptCoversNames(found[1..], seen + {h.appName}, g);
        if g.appName != h.appName && g.appName !in seen {
          k := j + 1;
          assert ([h] + rest)[k] == rest[j];
        }
      }
    }
  }

  lemma KeptCoversEveryName(found: seq<HeroicGame>, seen: set<string>, g: HeroicGame)
    requires g in found && !IsIgnoredApp(g.title, g.appName)
    ensures g.appName in seen || exists k :: 0 <= k < |KeptGames(found, seen)| && KeptGames(found, seen)[k].appName == g.appName
  {
    var k := KeptCoversNames(found, seen, g);
  }

  /** The seen set afterwards holds exactly the names seen before and those
      of every game that is not ignored. */
  lemma {:induction false} SeenAfterNames(found: seq<HeroicGame>, seen: set<string>, name: string)
    ensures name in SeenAfter(found, seen) <==>
      name in seen || exists i :: 0 <= i < |found| && found[i].appName == name && !IsIgnoredApp(found[i].title, found[i].appName)
  {
    if found != [] {
      var g := found[0];
      var s := if IsIgnoredApp(g.title, g.appName) then seen else seen + {g.appName};
      SeenAfterNames(found[1..], s, name);
      if exists i :: 0 <= i < |found[1..]| && found[1..][i].appName == name && !IsIgnoredApp(found[1..][i].title, found[1..][i].appName) {
        var i :| 0 <= i < |found[1..]| && found[1..][i].appName == name && !IsIgnoredApp(found[1..][i].title, found[1..][i].appName);
        assert found[i + 1] == found[1..][i];
      }
      if exists i :: 0 <= i < |found| && found[i].appName == name && !IsIgnoredApp(found[i].title, found[i].appName) {
        var i :| 0 <= i < |found| && found[i].appName == name && !IsIgnoredApp(found[i].title, found[i].appName);
        if i > 0 {
          assert found[1..][i - 1] == found[i];
        }
      }
    }
  }

  /** Entries for the kept games, numbered from `nextId` as `Uuid::new_v4`
      would give them. */
  function HeroicEntries(kept: seq<HeroicGame>, nextId: Uuid): (r: seq<AppEntry>)
    ensures |r| == |kept|
  {
    seq(|kept|, i requires 0 <= i < |kept| => HeroicEntry(kept[i], nextId + i))
  }

  /** One game of the loop that is kept: the invariants of `AddHeroicGames` after taking it. */
  lemma KeepHeroicStep(found: seq<HeroicGame>, i: nat, seen: set<string>, games: seq<AppEntry>,
                       kept: seq<HeroicGame>, nextId: Uuid, out: seq<AppEntry>, id: Uuid)
    requires i < |found| && !IsIgnoredApp(found[i].title, found[i].appName) && found[i].appName !in seen
    requires out == games + HeroicEntries(kept, nextId) && id == nextId + |kept|
    ensures (kept + [found[i]]) + KeptGames(found[i + 1..], seen + {found[i].appName}) == kept + KeptGames(found[i..], seen)
    ensures SeenAfter(found[i + 1..], seen + {found[i].appName}) == SeenAfter(found[i..], seen)
    ensures out + [HeroicEntry(found[i], id)] == games + HeroicEntries(kept + [found[i]], nextId)
  {
    var g := found[i];
    assert found[i..][0] == g && found[i..][1..] == found[i + 1..];
    ConcatAssoc(kept, [g], KeptGames(found[i + 1..], seen + {g.appName}));
    AppendHeroicEntry(games, kept, g, nextId, out, id);
  }

  /** Appending the entry of the next kept game extends the entries by one. */
  lemma AppendHeroicEntry(games: seq<AppEntry>, kept: seq<HeroicGame>, g: HeroicGame, nextId: Uuid,
                          out: seq<AppEntry>, id: Uuid)
    requires out == games + HeroicEntries(kept, nextId) && id == nextId + |kept|
    ensures out + [HeroicEntry(g, id)] == games + HeroicEntries(kept + [g], nextId)
  {
    HeroicEntriesSnoc(kept, g, nextId);
    ConcatAssoc(games, HeroicEntries(kept, nextId), [HeroicEntry(g, id)]);
  }

  /** One game of the loop that is skipped, ignored or already seen: nothing kept, nothing new seen. */
  lemma SkipHeroicStep(found: seq<HeroicGame>, i: nat, seen: set<string>)
    requires i < |found| && (IsIgnoredApp(found[i].title, found[i].appName) || found[i].appName in seen)
    ensures KeptGames(found[i + 1..], seen) == KeptGames(found[i..], seen)
    ensures SeenAfter(found[i + 1..], seen) == SeenAfter(found[i..], seen)
  {
    var g := found[i];
    assert found[i..][0] == g && found[i..][1..] == found[i + 1..];
    if !IsIgnoredApp(g.title, g.appName) {
      assert seen + {g.appName} == seen;
    }
  }

  /** The inner loop of `scan_heroic_games` over the games of the libraries,
      in the order they were read. */
  method AddHeroicGames(found: seq<HeroicGame>, nextId: Uuid, games: seq<AppEntry>, seen: set<string>)
    returns (out: seq<AppEntry>, outSeen: set<string>)
    ensures out == games + HeroicEntries(KeptGames(found, seen), nextId)
    ensures outSeen == SeenAfter(found, seen)
  {
    out := games;
    outSeen := seen;
    ghost var kept: seq<HeroicGame> := [];
    var id := nextId;
    var i := 0;
    while i < |found|
      invariant 0 <= i <= |found|
      invariant id == nextId + |kept|
      invariant out == games + HeroicEntries(kept, nextId)
      invariant kept + KeptGames(found[i..], outSeen) == KeptGames(found, seen)
      invariant SeenAfter(found[i..], outSeen) == SeenAfter(found, seen)
    {
      var g := found[i];
      if !IsIgnoredApp(g.title, g.appName) && g.appName !in outSeen {
        KeepHeroicStep(found, i, outSeen, games, kept, nextId, out, id);
        out := out + [HeroicEntry(g, id)];
        kept := kept + [g];
        id := id + 1;
        outSeen := outSeen + {g.appName};
      } else {
        SkipHeroicStep(found, i, outSeen);
      }
      i := i + 1;
    }
    assert found[i..] == [];
    assert kept + [] == kept;
  }

  lemma HeroicEntriesSnoc(kept: seq<HeroicGame>, g: HeroicGame, nextId: Uuid)
    ensures HeroicEntries(kept + [g], nextId) == HeroicEntries(kept, nextId) + [HeroicEntry(g, nextId + |kept|)]
  {
    var l := HeroicEntries(kept + [g], nextId);
    var r := HeroicEntries(kept, nextId) + [HeroicEntry(g, nextId + |kept|)];
    assert |l| == |r|;
    forall i | 0 <= i < |l| ensures l[i] == r[i] {
      if i < |kept| {
        assert (kept + [g])[i] == kept[i];
      }
    }
  }

  /** `scan_heroic_games` over the games of every library file it read. */
  method ScanHeroicGames(found: seq<HeroicGame>, nextId: Uuid) returns (games: seq<AppEntry>)
    ensures games == HeroicEntries(KeptGames(found, {}), nextId)
  {
    var seen;
    games, seen := AddHeroicGames(found, nextId, [], {});
    assert [] + HeroicEntries(KeptGames(found, {}), nextId) == HeroicEntries(KeptGames(found, {}), nextId);
  }
}
