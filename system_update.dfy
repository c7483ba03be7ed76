// src/system_update.rs: classifying the package manager's output during a
// system update, splitting its output stream into lines, and reporting how
// the update process ended.
module SystemUpdate {
  import opened Options
  import opened Strings
  import opened SystemUpdateState

  // ---------------------------------------------------------------- line parsers

  /**
   * `parse_install_progress`: a line such as `(1/5) installing firefox...`
   * gives the step, the step count and the package, or nothing.
   */
  function ParseInstallProgress(line: string): (r: Option<(nat, nat, string)>)
    ensures r.Some? ==> (var l := Trim(line);
      l != [] && l[0] == '(' &&
      FindChar(l, '/').Some? && FindChar(l, ')').Some? && FindChar(l, '/').value < FindChar(l, ')').value)
    ensures r.Some? ==> r.value.0 < Pow2(64) && r.value.1 < Pow2(64)
    ensures r.Some? ==> NoWhitespace(r.value.2) && !EndsWith(r.value.2, "...")
  {
    ProgressOfTrimmed(Trim(line))
  }

  /** `parse_install_progress` once the line has been trimmed. */
  function ProgressOfTrimmed(l: string): (r: Option<(nat, nat, string)>)
    ensures r.Some? ==> (l != [] && l[0] == '(' &&
      FindChar(l, '/').Some? && FindChar(l, ')').Some? && FindChar(l, '/').value < FindChar(l, ')').value)
    ensures r.Some? ==> r.value.0 < Pow2(64) && r.value.1 < Pow2(64)
    ensures r.Some? ==> NoWhitespace(r.value.2) && !EndsWith(r.value.2, "...")
  {
    if l == [] || l[0] != '(' then None
    else
      match FindChar(l, ')')
      case None => None
      case Some(endParen) =>
        match FindChar(l, '/')
        case None => None
        case Some(slash) =>
          if slash > endParen then None
          else ProgressFields(l, slash, endParen)
  }

  /** The two counts between `(`, `/` and `)`, and the package after `)`. */
  function ProgressFields(l: string, slash: nat, endParen: nat): (r: Option<(nat, nat, string)>)
    requires 1 <= slash < endParen < |l|
    ensures r.Some? ==> r.value.0 < Pow2(64) && r.value.1 < Pow2(64)
    ensures r.Some? ==> NoWhitespace(r.value.2) && !EndsWith(r.value.2, "...")
  {
    var current := ParseUnsigned(Trim(l[1..slash]), 64);
    var total := ParseUnsigned(Trim(l[slash + 1..endParen]), 64);
    if current.None? || total.None? then None
    else
      match ProgressPackage(l[endParen + 1..])
      case None => None
      case Some(package) => Some((current.value, total.value, package))
  }

  /** The second word after the closing parenthesis, without trailing `...`. */
  function ProgressPackage(rest: string): (r: Option<string>)
    ensures r.Some? ==> NoWhitespace(r.value) && !EndsWith(r.value, "...")
  {
    var parts := Words(Trim(rest));
    if |parts| < 2 then None
    else
      var package := TrimEndMatches(parts[1], "...");
      assert NoWhitespace(parts[1]);
      assert package == parts[1][..|package|];
      Some(package)
  }

  /** The progress line pacman prints for each package it installs or upgrades. */
  function ProgressLine(current: nat, total: nat, verb: string, package: string): string
  {
    "(" + NatToString(current) + "/" + NatToString(total) + ")" + (" " + verb + " " + package + "...")
  }

  /** Every well-formed progress line parses back to its step, count and package. */
  lemma InstallProgressRoundTrip(current: nat, total: nat, verb: string, package: string)
    requires current < Pow2(64) && total < Pow2(64)
    requires verb != [] && NoWhitespace(verb)
    requires package != [] && NoWhitespace(package) && !EndsWith(package, "...")
    ensures ParseInstallProgress(ProgressLine(current, total, verb, package)) == Some((current, total, package))
  {
    var cs, ts := NatToString(current), NatToString(total);
    var tail := " " + verb + " " + package + "...";
    var l := ProgressLine(current, total, verb, package);
    assert l[|l| - 1] == '.';
    TrimOfEnds(l);
    ParseNatToString(current, 64);
    ParseNatToString(total, 64);
    ProgressLineParts(l, cs, ts, tail);
    ProgressPackageOfTail(verb, package);
    var slash, endParen := 1 + |cs|, 2 + |cs| + |ts|;
    FieldsOfParts(l, slash, endParen, cs, ts, tail, current, total, package);
    ParseInstallProgressOfParts(l, slash, endParen, Some((current, total, package)));
  }

  lemma FieldsOfParts(l: string, slash: nat, endParen: nat, cs: string, ts: string, tail: string,
                      current: nat, total: nat, package: string)
    requires 1 <= slash < endParen < |l|
    requires l[1..slash] == cs && l[slash + 1..endParen] == ts && l[endParen + 1..] == tail
    requires AllAsciiDigits(cs) && AllAsciiDigits(ts)
    requires ParseUnsigned(cs, 64) == Some(current) && ParseUnsigned(ts, 64) == Some(total)
    requires ProgressPackage(tail) == Some(package)
    ensures ProgressFields(l, slash, endParen) == Some((current, total, package))
  {
    assert ProgressPackage(l[endParen + 1..]) == Some(package);
    DigitsHaveNoWhitespace(cs);
    TrimOfNoWhitespace(cs);
    DigitsHaveNoWhitespace(ts);
    TrimOfNoWhitespace(ts);
  }

  lemma ParseInstallProgressOfParts(l: string, slash: nat, endParen: nat, r: Option<(nat, nat, string)>)
    requires l != [] && l[0] == '('
    requires FindChar(l, '/') == Some(slash) && FindChar(l, ')') == Some(endParen) && slash < endParen
    requires ProgressFields(l, slash, endParen) == r
    ensures ProgressOfTrimmed(l) == r
  {
  }

  /** Where the slash and the closing parenthesis of a progress line are found. */
  lemma ProgressLineParts(l: string, cs: string, ts: string, tail: string)
    requires AllAsciiDigits(cs) && AllAsciiDigits(ts)
    requires l == "(" + cs + "/" + ts + ")" + tail
    ensures FindChar(l, '/') == Some(1 + |cs|) && FindChar(l, ')') == Some(2 + |cs| + |ts|)
    ensures l[1..1 + |cs|] == cs && l[2 + |cs|..2 + |cs| + |ts|] == ts && l[3 + |cs| + |ts|..] == tail
  {
    var slash := 1 + |cs|;
    var endParen := 2 + |cs| + |ts|;
    assert l[..slash] == "(" + cs;
    assert '/' !in l[..slash] by {
      assert forall i :: 0 <= i < |cs| ==> IsAsciiDigit(cs[i]);
    }
    FindCharAt(l, '/', slash);
    assert l[..endParen] == "(" + cs + "/" + ts;
    assert ')' !in l[..endParen] by {
      assert forall i :: 0 <= i < |cs| ==> IsAsciiDigit(cs[i]);
      assert forall i :: 0 <= i < |ts| ==> IsAsciiDigit(ts[i]);
    }
    FindCharAt(l, ')', endParen);
  }

  /** The words after the parenthesis name the package second. */
  lemma ProgressPackageOfTail(verb: string, package: string)
    requires verb != [] && NoWhitespace(verb)
    requires package != [] && NoWhitespace(package) && !EndsWith(package, "...")
    ensures ProgressPackage(" " + verb + " " + package + "...") == Some(package)
  {
    var dotted := package + "...";
    var rest := " " + verb + " " + package + "...";
    DottedWord(package);
    assert rest == " " + (verb + " " + dotted) by {
      Regroup(" ", verb, " ", package, "...");
    }
    assert Words(Trim(rest)) == [verb, dotted] by {
      TrimSpaceBeforeWords(verb, dotted);
      TwoWords(verb, dotted);
    }
    ProgressPackageOfWords(rest, verb, dotted);
  }

  lemma ProgressPackageOfWords(rest: string, a: string, b: string)
    requires Words(Trim(rest)) == [a, b]
    ensures ProgressPackage(rest) == Some(TrimEndMatches(b, "..."))
  {
  }

  /** `package...` is one word that trims back to `package`. */
  lemma DottedWord(package: string)
    requires package != [] && NoWhitespace(package) && !EndsWith(package, "...")
    ensures NoWhitespace(package + "...")
    ensures TrimEndMatches(package + "...", "...") == package
  {
    var dotted := package + "...";
    assert forall i :: 0 <= i < |package| ==> dotted[i] == package[i];
    assert forall i :: |package| <= i < |dotted| ==> dotted[i] == '.';
    assert EndsWith(dotted, "...");
    assert dotted[..|dotted| - 3] == package;
    assert TrimEndMatches(package, "...") == package;
  }

  lemma TrimSpaceBeforeWords(a: string, b: string)
    requires a != [] && NoWhitespace(a) && b != [] && NoWhitespace(b)
    ensures Trim(" " + (a + " " + b)) == a + " " + b
  {
    var words := a + " " + b;
    assert " " + words == [' '] + words;
    assert words[0] == a[0] && words[|words| - 1] == b[|b| - 1];
    TrimOfEnds(words);
    TrimSkipsFirstWhitespace(' ', words);
  }

  lemma TwoWords(a: string, b: string)
    requires a != [] && NoWhitespace(a) && b != [] && NoWhitespace(b)
    ensures Words(a + " " + b) == [a] + [b]
  {
    WordsAppendSpace(a, b);
    WordsOfWord(b);
  }

  const MAKING_PACKAGE := "==> Making package:"

  /** `parse_building_package`: the fourth word of a makepkg header line. */
  function ParseBuildingPackage(line: string): (r: Option<string>)
    ensures r.Some? ==> StartsWith(line, MAKING_PACKAGE)
    ensures r.Some? ==> r.value != [] && NoWhitespace(r.value)
  {
    if StartsWith(line, MAKING_PACKAGE) then
      var parts := Words(line);
      if |parts| >= 4 then Some(parts[3]) else None
    else None
  }

  /** A makepkg header names the package being built. */
  lemma BuildingPackageOfHeader(package: string, rest: string)
    requires package != [] && NoWhitespace(package)
    ensures ParseBuildingPackage(MAKING_PACKAGE + " " + package + " " + rest) == Some(package)
  {
    var line := MAKING_PACKAGE + " " + package + " " + rest;
    assert line == "==>" + " " + ("Making" + " " + ("package:" + " " + (package + " " + rest)));
    assert NoWhitespace("==>") && NoWhitespace("Making") && NoWhitespace("package:");
    FourthWord("==>", "Making", "package:", package, rest);
    PrefixOfConcat(MAKING_PACKAGE, " ", package, " ", rest);
  }

  lemma FourthWord(a: string, b: string, c: string, d: string, rest: string)
    requires a != [] && NoWhitespace(a) && b != [] && NoWhitespace(b)
    requires c != [] && NoWhitespace(c) && d != [] && NoWhitespace(d)
    ensures var w := Words(a + " " + (b + " " + (c + " " + (d + " " + rest))));
      |w| >= 4 && w[3] == d
  {
    ThirdWord(b, c, d, rest);
    WordShifts(a, b + " " + (c + " " + (d + " " + rest)), 2, d);
  }

  lemma ThirdWord(b: string, c: string, d: string, rest: string)
    requires b != [] && NoWhitespace(b) && c != [] && NoWhitespace(c) && d != [] && NoWhitespace(d)
    ensures var w := Words(b + " " + (c + " " + (d + " " + rest)));
      |w| >= 3 && w[2] == d
  {
    SecondWord(c, d, rest);
    WordShifts(b, c + " " + (d + " " + rest), 1, d);
  }

  lemma SecondWord(c: string, d: string, rest: string)
    requires c != [] && NoWhitespace(c) && d != [] && NoWhitespace(d)
    ensures 1 < |Words(c + " " + (d + " " + rest))| && Words(c + " " + (d + " " + rest))[1] == d
  {
    var x := d + " " + rest;
    assert 0 < |Words(x)| && Words(x)[0] == d by {
      WordsAppendSpace(d, rest);
    }
    WordShifts(c, x, 0, d);
  }

  /** A word in front moves every later word one place on. */
  lemma WordShifts(a: string, x: string, k: nat, d: string)
    requires a != [] && NoWhitespace(a)
    requires k < |Words(x)| && Words(x)[k] == d
    ensures k + 1 < |Words(a + " " + x)| && Words(a + " " + x)[k + 1] == d
  {
    WordsAppendSpace(a, x);
  }

  const DOWNLOADING := "downloading..."

  /** `parse_downloading_package`: the first word of a line ending in `downloading...`. */
  function ParseDownloadingPackage(line: string): (r: Option<string>)
    ensures r.Some? <==> EndsWith(Trim(line), DOWNLOADING)
    ensures r.Some? ==> r.value != [] && NoWhitespace(r.value)
  {
    var trimmed := Trim(line);
    if EndsWith(trimmed, DOWNLOADING) then
      var parts := Words(trimmed);
      assert parts != [] by {
        assert trimmed[|trimmed| - 1] == '.';
        assert TrimStart(trimmed) != [];
      }
      if parts != [] then Some(parts[0]) else None
    else None
  }

  /** pacman's download line names the package being downloaded. */
  lemma DownloadingPackageOfLine(package: string)
    requires package != [] && NoWhitespace(package)
    ensures ParseDownloadingPackage(" " + package + " " + DOWNLOADING) == Some(package)
  {
    var body := package + " " + DOWNLOADING;
    assert " " + package + " " + DOWNLOADING == [' '] + body;
    assert body[|body| - 1] == '.';
    TrimOfEnds(body);
    TrimSkipsFirstWhitespace(' ', body);
    assert EndsWith(body, DOWNLOADING);
    WordsAppendSpace(package, DOWNLOADING);
  }

  // ---------------------------------------------------------------- restart check

  const CRITICAL_PACKAGES: seq<string> := [
    "linux", "linux-lts", "linux-zen", "linux-hardened", "systemd",
    "nvidia", "mesa", "amd-ucode", "intel-ucode", "glibc"
  ]

  /** `pkg == crit || pkg.starts_with(crit + "-")`. */
  predicate MatchesCritical(package: string, critical: string)
  {
    package == critical || StartsWith(package, critical + "-")
  }

  /** The inner `any` over the critical names. */
  function AnyCritical(package: string, criticals: seq<string>): (r: bool)
    ensures r <==> exists j :: 0 <= j < |criticals| && MatchesCritical(package, criticals[j])
  {
    if criticals == [] then false
    else if MatchesCritical(package, criticals[0]) then true
    else
      var r := AnyCritical(package, criticals[1..]);
      assert forall j :: 1 <= j < |criticals| ==> criticals[j] == criticals[1..][j - 1];
      r
  }

  /** `check_restart_required`: whether an updated package needs a reboot. */
  function CheckRestartRequired(packages: seq<string>): (r: bool)
    ensures r <==> exists i :: 0 <= i < |packages| && AnyCritical(packages[i], CRITICAL_PACKAGES)
  {
    if packages == [] then false
    else if AnyCritical(packages[0], CRITICAL_PACKAGES) then true
    else
      var r := CheckRestartRequired(packages[1..]);
      assert forall i :: 1 <= i < |packages| ==> packages[i] == packages[1..][i - 1];
      r
  }

  /** A reboot is needed after an update exactly when one is needed for one of its parts. */
  lemma RestartRequiredAppend(a: seq<string>, b: seq<string>)
    ensures CheckRestartRequired(a + b) == (CheckRestartRequired(a) || CheckRestartRequired(b))
  {
    if CheckRestartRequired(a) {
      var i :| 0 <= i < |a| && AnyCritical(a[i], CRITICAL_PACKAGES);
      assert (a + b)[i] == a[i];
    }
    if CheckRestartRequired(b) {
      var i :| 0 <= i < |b| && AnyCritical(b[i], CRITICAL_PACKAGES);
      assert (a + b)[|a| + i] == b[i];
    }
    if CheckRestartRequired(a + b) {
      var i :| 0 <= i < |a + b| && AnyCritical((a + b)[i], CRITICAL_PACKAGES);
      if i < |a| {
        assert a[i] == (a + b)[i];
      } else {
        assert b[i - |a|] == (a + b)[i];
      }
    }
  }

  /** Each critical name, and each `<name>-` variant of it, needs a reboot. */
  lemma CriticalVariantsRestart(j: nat, suffix: string)
    requires j < |CRITICAL_PACKAGES|
    ensures CheckRestartRequired([CRITICAL_PACKAGES[j]])
    ensures CheckRestartRequired([CRITICAL_PACKAGES[j] + "-" + suffix])
  {
    var c := CRITICAL_PACKAGES[j];
    assert MatchesCritical(c, c);
    assert c + "-" <= c + "-" + suffix;
    assert MatchesCritical(c + "-" + suffix, c);
    assert [c][0] == c;
    assert [c + "-" + suffix][0] == c + "-" + suffix;
  }

  /** A package whose name starts with none of the critical names' initials needs no reboot. */
  lemma OtherInitialNoRestart(package: string)
    requires package != [] && package[0] !in {'l', 's', 'n', 'm', 'a', 'i', 'g'}
    ensures !CheckRestartRequired([package])
  {
    forall j | 0 <= j < |CRITICAL_PACKAGES|
      ensures !MatchesCritical(package, CRITICAL_PACKAGES[j])
    {
      var c := CRITICAL_PACKAGES[j];
      assert c[0] in {'l', 's', 'n', 'm', 'a', 'i', 'g'};
      assert (c + "-")[0] == c[0];
    }
  }

  // ---------------------------------------------------------------- line classification

  const ERROR_MAKING := "-> error making:"

  /** Which branch of `parse_output_line` a line takes after it has been logged. */
  datatype LineKind =
    | BuildError(message: string)
    | Status(status: UpdateStatus, installed: Option<string>)
    | Plain

  /**
   * The branches of `parse_output_line`, in their order: a build error first,
   * then the first matching status; only an `(n/m)` progress line records an
   * installed package.
   */
  function ClassifyLine(line: string): (r: LineKind)
    ensures r.BuildError? <==> StartsWith(ToLower(line), ERROR_MAKING)
    ensures r.Status? ==> !r.status.Starting? && !r.status.Completed? && !r.status.Failed?
    ensures (r.Status? && r.installed.Some?) ==>
      ParseInstallProgress(line).Some? &&
      r.status == Installing(ParseInstallProgress(line).value.0, ParseInstallProgress(line).value.1, r.installed.value) &&
      r.installed.value == ParseInstallProgress(line).value.2
  {
    var lower := ToLower(line);
    if StartsWith(lower, ERROR_MAKING) then
      BuildError(Trim(TrimStartMatches(line, ERROR_MAKING)))
    else if Contains(lower, "synchronizing package databases") then
      Status(SyncingDatabases, None)
    else if Contains(lower, "starting full system upgrade") then
      Status(CheckingUpdates, None)
    else if ParseBuildingPackage(line).Some? then
      Status(Building(ParseBuildingPackage(line).value), None)
    else if ParseDownloadingPackage(line).Some? then
      Status(Downloading(Some(ParseDownloadingPackage(line).value)), None)
    else if Contains(lower, "downloading") then
      Status(Downloading(None), None)
    else if ParseInstallProgress(line).Some? then
      var (current, total, package) := ParseInstallProgress(line).value;
      Status(Installing(current, total, package), Some(package))
    else if Contains(lower, "installing") || Contains(lower, "upgrading")
         || Contains(lower, "checking keys") || Contains(lower, "checking integrity") then
      Status(Installing(0, 0, "System"), None)
    else if Contains(lower, "there is nothing to do") then
      Status(NoUpdates, None)
    else
      Plain
  }

  /** What `parse_output_line` sends after the log line, by branch. */
  function KindEvents(kind: LineKind): (r: seq<SystemUpdateProgress>)
    ensures |r| <= 1
  {
    match kind
    case BuildError(message) => [StatusChange(Failed(message))]
    case Status(status, _) => [StatusChange(status)]
    case Plain => []
  }

  /** What `parse_output_line` sends for one line. */
  function LineEvents(line: string): (r: seq<SystemUpdateProgress>)
    ensures 1 <= |r| <= 2 && r[0] == LogLine(line)
    ensures forall i :: 1 <= i < |r| ==> r[i].StatusChange? && !r[i].status.Starting? && !r[i].status.Completed?
    ensures (|r| == 2 && r[1].status.Failed?) <==> StartsWith(ToLower(line), ERROR_MAKING)
  {
    [LogLine(line)] + KindEvents(ClassifyLine(line))
  }

  /** What `parse_output_line` appends to the updated packages, by branch. */
  function KindPackages(kind: LineKind): (r: seq<string>)
    ensures |r| <= 1
  {
    match kind
    case Status(_, Some(package)) => [package]
    case _ => []
  }

  /** What `parse_output_line` appends to the updated packages for one line. */
  function LinePackages(line: string): (r: seq<string>)
    ensures |r| <= 1
  {
    KindPackages(ClassifyLine(line))
  }

  /** A recorded package is always the one the line reports as installing. */
  lemma RecordedPackageIsReported(line: string)
    requires LinePackages(line) != []
    ensures ParseInstallProgress(line).Some?
    ensures LinePackages(line) == [ParseInstallProgress(line).value.2]
    ensures LineEvents(line) == [LogLine(line), StatusChange(Installing(
      ParseInstallProgress(line).value.0, ParseInstallProgress(line).value.1, ParseInstallProgress(line).value.2))]
  {
    var kind := ClassifyLine(line);
    assert kind.Status? && kind.installed.Some?;
    var p := ParseInstallProgress(line).value;
    assert kind.status == Installing(p.0, p.1, p.2);
    assert KindEvents(kind) == [StatusChange(Installing(p.0, p.1, p.2))];
  }

  /** A makepkg error line fails the update with the text after the marker. */
  lemma BuildErrorFails(message: string)
    requires message != [] && Trim(message) == message
    ensures LineEvents(ERROR_MAKING + " " + message)
      == [LogLine(ERROR_MAKING + " " + message)] + [StatusChange(Failed(message))]
    ensures LinePackages(ERROR_MAKING + " " + message) == []
  {
    ErrorLineClassified(message);
    KindOfLine(ERROR_MAKING + " " + message, BuildError(message));
  }

  /** What one line sends and records follows from its branch alone. */
  lemma KindOfLine(line: string, kind: LineKind)
    requires ClassifyLine(line) == kind
    ensures LineEvents(line) == [LogLine(line)] + KindEvents(kind)
    ensures LinePackages(line) == KindPackages(kind)
  {
  }

  lemma ErrorLineClassified(message: string)
    requires message != [] && Trim(message) == message
    ensures ClassifyLine(ERROR_MAKING + " " + message) == BuildError(message)
  {
    var line := ERROR_MAKING + " " + message;
    ErrorLineParts(message);
    assert Trim(TrimStartMatches(line, ERROR_MAKING)) == message;
  }

  lemma ErrorLineParts(message: string)
    requires message != [] && Trim(message) == message
    ensures StartsWith(ToLower(ERROR_MAKING + " " + message), ERROR_MAKING)
    ensures Trim(TrimStartMatches(ERROR_MAKING + " " + message, ERROR_MAKING)) == message
  {
    var tail := [' '] + message;
    assert ERROR_MAKING + " " + message == ERROR_MAKING + tail;
    ErrorLineLower(tail);
    ErrorLineMarker(tail);
    TrimSkipsFirstWhitespace(' ', message);
  }

  lemma ErrorLineLower(tail: string)
    ensures StartsWith(ToLower(ERROR_MAKING + tail), ERROR_MAKING)
  {
    ToLowerAppend(ERROR_MAKING, tail);
    assert ToLower(ERROR_MAKING) == ERROR_MAKING;
  }

  lemma ErrorLineMarker(tail: string)
    requires tail != [] && tail[0] == ' '
    ensures TrimStartMatches(ERROR_MAKING + tail, ERROR_MAKING) == tail
  {
    var line := ERROR_MAKING + tail;
    assert line[|ERROR_MAKING|..] == tail;
    assert tail[0] != ERROR_MAKING[0];
  }

  // ---------------------------------------------------------------- output buffer

  predicate IsBreak(c: char)
  {
    c == '\n' || c == '\r'
  }

  predicate NoBreak(s: string)
  {
    forall i :: 0 <= i < |s| ==> !IsBreak(s[i])
  }

  /** The earlier of the first `\n` and the first `\r`. */
  function FirstBreak(s: string): (r: Option<nat>)
    ensures r.Some? ==> r.value < |s| && IsBreak(s[r.value]) && NoBreak(s[..r.value])
    ensures r.None? ==> NoBreak(s)
  {
    var n := FindChar(s, '\n');
    var c := FindChar(s, '\r');
    assert n.Some? ==> forall j :: 0 <= j < n.value ==> s[..n.value][j] != '\n';
    assert c.Some? ==> forall j :: 0 <= j < c.value ==> s[..c.value][j] != '\r';
    assert n.None? ==> forall j :: 0 <= j < |s| ==> s[j] != '\n';
    assert c.None? ==> forall j :: 0 <= j < |s| ==> s[j] != '\r';
    match (n, c)
    case (Some(i), Some(j)) => Some(if i < j then i else j)
    case (Some(i), None) => Some(i)
    case (None, Some(j)) => Some(j)
    case (None, None) => None
  }

  lemma FirstBreakAt(s: string, p: nat)
    requires p < |s| && IsBreak(s[p]) && NoBreak(s[..p])
    ensures FirstBreak(s) == Some(p)
  {
    assert !NoBreak(s);
  }

  /** The prefixes `process_output_buffer` drains, each up to and including its break. */
  function Pieces(s: string): seq<string>
    decreases |s|
  {
    match FirstBreak(s)
    case None => []
    case Some(p) => [s[..p + 1]] + Pieces(s[p + 1..])
  }

  /** What `process_output_buffer` leaves in the buffer. */
  function Remainder(s: string): (r: string)
    ensures NoBreak(r)
    ensures |r| <= |s| && r == s[|s| - |r|..]
    decreases |s|
  {
    match FirstBreak(s)
    case None => s
    case Some(p) =>
      var r := Remainder(s[p + 1..]);
      assert s[p + 1..][|s[p + 1..]| - |r|..] == s[|s| - |r|..];
      r
  }

  function Flatten(pieces: seq<string>): string
  {
    if pieces == [] then [] else pieces[0] + Flatten(pieces[1..])
  }

  /** Draining loses and reorders nothing: the pieces and the remainder make up the buffer. */
  lemma {:induction false} PiecesRoundTrip(s: string)
    ensures Flatten(Pieces(s)) + Remainder(s) == s
    decreases |s|
  {
    match FirstBreak(s)
    case None =>
    case Some(p) =>
      PiecesRoundTrip(s[p + 1..]);
      RoundTripStep(s, p);
  }

  /** The round trip of the buffer after its first piece gives that of the whole buffer. */
  lemma RoundTripStep(s: string, p: nat)
    requires FirstBreak(s) == Some(p)
    requires Flatten(Pieces(s[p + 1..])) + Remainder(s[p + 1..]) == s[p + 1..]
    ensures Flatten(Pieces(s)) + Remainder(s) == s
  {
    var head, tail := s[..p + 1], s[p + 1..];
    DrainStep(s, p);
    FlattenCons(head, Pieces(tail));
    ConcatAssoc(head, Flatten(Pieces(tail)), Remainder(tail));
    TakeDropConcat(s, p + 1);
  }


  lemma FlattenCons(x: string, rest: seq<string>)
    ensures Flatten([x] + rest) == x + Flatten(rest)
  {
    assert ([x] + rest)[1..] == rest;
  }

  /** A piece: it ends in a line break and has no other. */
  predicate IsPiece(x: string)
  {
    x != [] && IsBreak(x[|x| - 1]) && NoBreak(x[..|x| - 1])
  }

  /** Each drained piece ends in its only line break. */
  lemma {:induction false} PiecesShape(s: string)
    ensures forall i :: 0 <= i < |Pieces(s)| ==> IsPiece(Pieces(s)[i])
    decreases |s|
  {
    match FirstBreak(s)
    case None =>
    case Some(p) =>
      var head := s[..p + 1];
      PiecesShape(s[p + 1..]);
      assert head[..p] == s[..p] && head[p] == s[p];
      DrainStep(s, p);
      PiecesCons(head, Pieces(s[p + 1..]));
  }

  lemma PiecesCons(x: string, rest: seq<string>)
    requires IsPiece(x) && forall i :: 0 <= i < |rest| ==> IsPiece(rest[i])
    ensures forall i :: 0 <= i < |[x] + rest| ==> IsPiece(([x] + rest)[i])
  {
    forall i | 0 <= i < |[x] + rest| ensures IsPiece(([x] + rest)[i]) {
      if i > 0 {
        assert ([x] + rest)[i] == rest[i - 1];
      }
    }
  }

  /** A drained buffer holds no complete line, so draining it again does nothing. */
  lemma RemainderHasNoPieces(s: string)
    ensures Pieces(Remainder(s)) == []
    ensures Remainder(Remainder(s)) == Remainder(s)
  {
    assert FirstBreak(Remainder(s)).None?;
  }

  /**
   * Reading the output in chunks drains the same pieces, in the same order,
   * as reading it all at once.
   */
  lemma {:induction false} ChunkedPieces(a: string, b: string)
    ensures Pieces(a) + Pieces(Remainder(a) + b) == Pieces(a + b)
    ensures Remainder(Remainder(a) + b) == Remainder(a + b)
    decreases |a|
  {
    match FirstBreak(a)
    case None =>
      assert Pieces(a) == [];
    case Some(p) =>
      var head, rest := a[..p + 1], a[p + 1..];
      assert (a + b)[..p] == a[..p];
      FirstBreakAt(a + b, p);
      assert (a + b)[..p + 1] == head;
      assert (a + b)[p + 1..] == rest + b;
      DrainStep(a, p);
      DrainStep(a + b, p);
      ChunkedPieces(rest, b);
      ConcatAssoc([head], Pieces(rest), Pieces(Remainder(rest) + b));
  }


  /** The line a drained piece yields: its trimmed text, unless that is empty. */
  function LineOf(piece: string): (r: seq<string>)
    ensures |r| <= 1
    ensures forall i :: 0 <= i < |r| ==> r[i] != []
  {
    var trimmed := Trim(piece);
    if trimmed == [] then [] else [trimmed]
  }

  function LinesOf(pieces: seq<string>): seq<string>
  {
    if pieces == [] then [] else LineOf(pieces[0]) + LinesOf(pieces[1..])
  }

  function EventsOf(lines: seq<string>): seq<SystemUpdateProgress>
  {
    if lines == [] then [] else LineEvents(lines[0]) + EventsOf(lines[1..])
  }

  function PackagesOf(lines: seq<string>): seq<string>
  {
    if lines == [] then [] else LinePackages(lines[0]) + PackagesOf(lines[1..])
  }

  /** The lines that `LogLine` messages carry, in order. */
  function LoggedLines(events: seq<SystemUpdateProgress>): seq<string>
  {
    if events == [] then []
    else (if events[0].LogLine? then [events[0].line] else []) + LoggedLines(events[1..])
  }

  lemma {:induction false} LinesOfAppend(a: seq<string>, b: seq<string>)
    ensures LinesOf(a + b) == LinesOf(a) + LinesOf(b)
  {
    if a != [] {
      assert (a + b)[1..] == a[1..] + b;
      LinesOfAppend(a[1..], b);
    } else {
      assert a + b == b;
    }
  }

  lemma {:induction false} EventsOfAppend(a: seq<string>, b: seq<string>)
    ensures EventsOf(a + b) == EventsOf(a) + EventsOf(b)
    ensures PackagesOf(a + b) == PackagesOf(a) + PackagesOf(b)
  {
    if a != [] {
      assert (a + b)[0] == a[0] && (a + b)[1..] == a[1..] + b;
      EventsOfAppend(a[1..], b);
      ConcatAssoc(LineEvents(a[0]), EventsOf(a[1..]), EventsOf(b));
      ConcatAssoc(LinePackages(a[0]), PackagesOf(a[1..]), PackagesOf(b));
    } else {
      assert a + b == b;
    }
  }

  lemma {:induction false} LoggedLinesAppend(a: seq<SystemUpdateProgress>, b: seq<SystemUpdateProgress>)
    ensures LoggedLines(a + b) == LoggedLines(a) + LoggedLines(b)
  {
    if a != [] {
      assert (a + b)[1..] == a[1..] + b;
      LoggedLinesAppend(a[1..], b);
    } else {
      assert a + b == b;
    }
  }

  /** Every emitted line is logged exactly once, in order, whatever else it reports. */
  lemma {:induction false} EveryLineLogged(lines: seq<string>)
    ensures LoggedLines(EventsOf(lines)) == lines
  {
    if lines != [] {
      var e := LineEvents(lines[0]);
      assert LoggedLines(e) == [lines[0]] by {
        assert LoggedLines(e[1..]) == [] by {
          if |e| == 2 {
            assert e[1..][1..] == [];
          }
        }
      }
      LoggedLinesAppend(e, EventsOf(lines[1..]));
      EveryLineLogged(lines[1..]);
    }
  }

  /** A drained piece is followed by what draining its rest yields. */
  lemma PiecesStep(s: string, p: nat)
    requires FirstBreak(s) == Some(p)
    ensures Pieces(s) == [s[..p + 1]] + Pieces(s[p + 1..])
    ensures LinesOf(Pieces(s)) == LineOf(s[..p + 1]) + LinesOf(Pieces(s[p + 1..]))
    ensures Remainder(s) == Remainder(s[p + 1..])
  {
    DrainStep(s, p);
    LinesOfCons(s[..p + 1], Pieces(s[p + 1..]));
  }

  lemma DrainStep(s: string, p: nat)
    requires FirstBreak(s) == Some(p)
    ensures Pieces(s) == [s[..p + 1]] + Pieces(s[p + 1..])
    ensures Remainder(s) == Remainder(s[p + 1..])
  {
  }

  lemma LinesOfCons(x: string, rest: seq<string>)
    ensures LinesOf([x] + rest) == LineOf(x) + LinesOf(rest)
  {
    assert ([x] + rest)[1..] == rest;
  }

  /**
   * The carriage-return case: progress lines separated by `\r` and a final
   * line ended by `\n` are each logged, and nothing is left over.
   */
  lemma CarriageReturnLines(a: string, b: string, c: string)
    requires a != [] && Trim(a) == a && NoBreak(a)
    requires b != [] && Trim(b) == b && NoBreak(b)
    requires c != [] && Trim(c) == c && NoBreak(c)
    ensures LinesOf(Pieces(a + "\r" + b + "\r" + c + "\n")) == [a, b, c]
    ensures LoggedLines(EventsOf(LinesOf(Pieces(a + "\r" + b + "\r" + c + "\n")))) == [a, b, c]
    ensures Remainder(a + "\r" + b + "\r" + c + "\n") == []
  {
    var s3 := c + "\n";
    var s2 := b + "\r" + s3;
    var s1 := a + "\r" + s2;
    assert a + "\r" + b + "\r" + c + "\n" == s1;
    assert s3 == c + ['\n'] + [];
    BreakAfterLine(c, '\n', []);
    BreakAfterLine(b, '\r', s3);
    BreakAfterLine(a, '\r', s2);
    ThreeLines(a, b, c, LinesOf(Pieces([])));
    EveryLineLogged([a, b, c]);
  }

  lemma ThreeLines(a: string, b: string, c: string, none: seq<string>)
    requires none == []
    ensures [a] + ([b] + ([c] + none)) == [a, b, c]
  {
  }

  /** A trimmed line followed by a break is drained as that line. */
  lemma BreakAfterLine(a: string, br: char, rest: string)
    requires a != [] && Trim(a) == a && NoBreak(a) && IsBreak(br)
    ensures Pieces(a + [br] + rest) == [a + [br]] + Pieces(rest)
    ensures LinesOf(Pieces(a + [br] + rest)) == [a] + LinesOf(Pieces(rest))
    ensures Remainder(a + [br] + rest) == Remainder(rest)
  {
    var s := a + [br] + rest;
    assert s[..|a|] == a;
    FirstBreakAt(s, |a|);
    assert s[..|a| + 1] == a + [br];
    assert s[|a| + 1..] == rest;
    PiecesStep(s, |a|);
    TrimDropsLastWhitespace(a, br);
  }

  // ---------------------------------------------------------------- process exit

  /** What `child.wait()` gives: an exit status with its code, or an I/O error. */
  datatype WaitResult =
    | Exited(code: Option<int>)
    | WaitFailed(error: string)

  /** `ExitStatus::success`: the process exited with code zero. */
  predicate Succeeded(result: WaitResult)
  {
    result.Exited? && result.code == Some(0)
  }

  function IntToString(n: int): (r: string)
    ensures r != []
  {
    if n < 0 then "-" + NatToString(-n) else NatToString(n)
  }

  /** `{:?}` of an `Option<i32>`. */
  function DebugCode(code: Option<int>): (r: string)
    ensures r != []
  {
    match code
    case None => "None"
    case Some(n) => "Some(" + IntToString(n) + ")"
  }

  const EXITED_WITH := "Process exited with code: "
  const WAIT_FAILED := "Process wait failed: "

  /** The status `handle_child_exit` reports. */
  function ExitOutcome(result: WaitResult, packages: seq<string>): (r: UpdateStatus)
    ensures r.IsFinished()
    ensures r.Completed? <==> Succeeded(result)
    ensures r.Completed? ==> r.restartRequired == CheckRestartRequired(packages)
    ensures !r.Completed? ==> r.Failed?
    ensures (r.Failed? && result.Exited?) ==> StartsWith(r.message, EXITED_WITH)
    ensures (r.Failed? && result.WaitFailed?) ==> StartsWith(r.message, WAIT_FAILED)
  {
    match result
    case Exited(code) =>
      if code == Some(0) then Completed(CheckRestartRequired(packages))
      else Failed(EXITED_WITH + DebugCode(code))
    case WaitFailed(error) => Failed(WAIT_FAILED + error)
  }

  /** Draining one piece keeps what is reported plus what is still to come unchanged. */
  lemma DrainedPieceAccounted(s: string, p: nat,
                              sent: seq<SystemUpdateProgress>, sent': seq<SystemUpdateProgress>, events: seq<SystemUpdateProgress>,
                              packages: seq<string>, packages': seq<string>, names: seq<string>)
    requires FirstBreak(s) == Some(p)
    requires sent' == sent + EventsOf(LineOf(s[..p + 1]))
    requires sent + EventsOf(LinesOf(Pieces(s))) == events
    requires packages' == packages + PackagesOf(LineOf(s[..p + 1]))
    requires packages + PackagesOf(LinesOf(Pieces(s))) == names
    ensures sent' + EventsOf(LinesOf(Pieces(s[p + 1..]))) == events
    ensures packages' + PackagesOf(LinesOf(Pieces(s[p + 1..]))) == names
    ensures Remainder(s[p + 1..]) == Remainder(s)
  {
    PiecesStep(s, p);
    EventsOfAppend(LineOf(s[..p + 1]), LinesOf(Pieces(s[p + 1..])));
    ConcatAssoc(sent, EventsOf(LineOf(s[..p + 1])), EventsOf(LinesOf(Pieces(s[p + 1..]))));
    ConcatAssoc(packages, PackagesOf(LineOf(s[..p + 1])), PackagesOf(LinesOf(Pieces(s[p + 1..]))));
  }

  /** What one piece of output reports: nothing when it is blank, otherwise its trimmed line. */
  lemma PieceReport(piece: string)
    ensures Trim(piece) == [] ==> EventsOf(LineOf(piece)) == [] && PackagesOf(LineOf(piece)) == []
    ensures Trim(piece) != [] ==> EventsOf(LineOf(piece)) == LineEvents(Trim(piece))
    ensures Trim(piece) != [] ==> PackagesOf(LineOf(piece)) == LinePackages(Trim(piece))
  {
    if Trim(piece) != [] {
      assert LineOf(piece) == [Trim(piece)];
      OneLine(Trim(piece));
    }
  }

  /** One line's events and packages. */
  lemma OneLine(line: string)
    ensures EventsOf([line]) == LineEvents(line) && PackagesOf([line]) == LinePackages(line)
  {
    assert [line][1..] == [];
  }

  /**
   * The state `monitor_child` threads through its read loop: the messages sent
   * so far, the packages recorded by progress lines, and one output buffer.
   */
  class OutputMonitor {
    var sent: seq<SystemUpdateProgress>
    var updatedPackages: seq<string>
    var buffer: string

    constructor ()
      ensures sent == [] && updatedPackages == [] && buffer == []
    {
      sent := [];
      updatedPackages := [];
      buffer := [];
    }

    /** `parse_output_line`: log the line, then report its status. */
    method ParseOutputLine(line: string)
      modifies this
      ensures sent == old(sent) + LineEvents(line)
      ensures updatedPackages == old(updatedPackages) + LinePackages(line)
      ensures buffer == old(buffer)
    {
      ghost var before := sent;
      sent := sent + [LogLine(line)];
      var kind := ClassifyLine(line);
      sent := sent + KindEvents(kind);
      updatedPackages := updatedPackages + KindPackages(kind);
      ConcatAssoc(before, [LogLine(line)], KindEvents(kind));
      assert LineEvents(line) == [LogLine(line)] + KindEvents(kind);
    }

    /** `process_output_buffer`: drain and report every complete line. */
    method ProcessOutputBuffer()
      modifies this
      ensures buffer == Remainder(old(buffer))
      ensures sent == old(sent) + EventsOf(LinesOf(Pieces(old(buffer))))
      ensures updatedPackages == old(updatedPackages) + PackagesOf(LinesOf(Pieces(old(buffer))))
    {
      ghost var events := old(sent) + EventsOf(LinesOf(Pieces(old(buffer))));
      ghost var names := old(updatedPackages) + PackagesOf(LinesOf(Pieces(old(buffer))));
      while true
        invariant Remainder(buffer) == Remainder(old(buffer))
        invariant sent + EventsOf(LinesOf(Pieces(buffer))) == events
        invariant updatedPackages + PackagesOf(LinesOf(Pieces(buffer))) == names
        decreases |buffer|
      {
        var pos := FirstBreak(buffer);
        if pos.None? {
          break;
        }
        DrainPiece(pos.value, events, names);
      }
    }

    /**
     * One turn of the drain loop: take the first piece off and report its
     * line, so that what is reported plus what is still to come stays the same.
     */
    method DrainPiece(p: nat, ghost events: seq<SystemUpdateProgress>, ghost names: seq<string>)
      requires FirstBreak(buffer) == Some(p)
      requires sent + EventsOf(LinesOf(Pieces(buffer))) == events
      requires updatedPackages + PackagesOf(LinesOf(Pieces(buffer))) == names
      modifies this
      ensures buffer == old(buffer)[p + 1..] && Remainder(buffer) == Remainder(old(buffer))
      ensures sent == old(sent) + EventsOf(LineOf(old(buffer)[..p + 1]))
      ensures updatedPackages == old(updatedPackages) + PackagesOf(LineOf(old(buffer)[..p + 1]))
      ensures sent + EventsOf(LinesOf(Pieces(buffer))) == events
      ensures updatedPackages + PackagesOf(LinesOf(Pieces(buffer))) == names
    {
      ghost var before, sentBefore, packagesBefore := buffer, sent, updatedPackages;
      var piece := buffer[..p + 1];
      buffer := buffer[p + 1..];
      var trimmed := Trim(piece);
      PieceReport(piece);
      if trimmed != [] {
        ParseOutputLine(trimmed);
      }
      DrainedPieceAccounted(before, p, sentBefore, sent, events, packagesBefore, updatedPackages, names);
    }

    /** `flush_output_buffer`: report what is left at end of stream and empty the buffer. */
    method FlushOutputBuffer()
      modifies this
      ensures buffer == []
      ensures sent == old(sent) + EventsOf(LineOf(old(buffer)))
      ensures updatedPackages == old(updatedPackages) + PackagesOf(LineOf(old(buffer)))
    {
      if buffer == [] {
        return;
      }
      var trimmed := Trim(buffer);
      if trimmed == [] {
        buffer := [];
        return;
      }
      OneLine(trimmed);
      ParseOutputLine(trimmed);
      buffer := [];
    }

    /** `handle_child_exit`: report how the update process ended. */
    method HandleChildExit(result: WaitResult)
      modifies this
      ensures sent == old(sent) + [StatusChange(ExitOutcome(result, updatedPackages))]
      ensures updatedPackages == old(updatedPackages) && buffer == old(buffer)
    {
      match result
      case Exited(code) =>
        if code == Some(0) {
          var restartRequired := CheckRestartRequired(updatedPackages);
          sent := sent + [StatusChange(Completed(restartRequired))];
        } else {
          sent := sent + [StatusChange(Failed(EXITED_WITH + DebugCode(code)))];
        }
      case WaitFailed(error) =>
        sent := sent + [StatusChange(Failed(WAIT_FAILED + error))];
    }
  }
}
