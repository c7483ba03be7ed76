// src/launcher.rs: reading a desktop-style exec line (tokenising it the way a
// shell would, finding the executable), checking that the command exists,
// and choosing what the process monitor should watch after the launch.
module Launcher {
  import opened Options
  import opened Strings
  import opened Utf8
  import Paths
  import opened FocusManager

  /** The field codes of "The Exec key" section of the freedesktop Desktop
      Entry Specification that a launcher strips from a command. */
  const DESKTOP_FIELD_CODES: seq<string> :=
    ["%f", "%F", "%u", "%U", "%d", "%D", "%n", "%N", "%i", "%c", "%k", "%v", "%m"]

  // ---------------------------------------------------------------------
  // split_exec_tokens

  /** The variables of the tokeniser loop. */
  datatype Scan = Scan(
    tokens: seq<string>,
    current: string,
    inSingle: bool,
    inDouble: bool,
    escape: bool,
    hadQuotes: bool)

  const Start: Scan := Scan([], [], false, false, false, false)

  /** One iteration of the loop over `exec.chars()`. */
  function Feed(s: Scan, ch: char): Scan
  {
    if s.escape then s.(current := s.current + [ch], escape := false)
    else if ch == '\\' && !s.inSingle then s.(escape := true)
    else if ch == '\'' && !s.inDouble then s.(inSingle := !s.inSingle, hadQuotes := true)
    else if ch == '"' && !s.inSingle then s.(inDouble := !s.inDouble, hadQuotes := true)
    else if IsWhitespace(ch) && !s.inSingle && !s.inDouble then
      if s.current != [] || s.hadQuotes then s.(tokens := s.tokens + [s.current], current := [], hadQuotes := false)
      else s
    else s.(current := s.current + [ch])
  }

  function FeedAll(s: Scan, text: string): Scan
    decreases |text|
  {
    if text == [] then s else FeedAll(Feed(s, text[0]), text[1..])
  }

  /** What happens after the loop: a pending backslash is kept, and a
      non-empty or quoted last token is pushed. */
  function Finish(s: Scan): seq<string>
  {
    var cur := if s.escape then s.current + "\\" else s.current;
    if cur != [] || s.hadQuotes then s.tokens + [cur] else s.tokens
  }

  /** The tokens of `exec`. */
  function ExecTokens(exec: string): seq<string>
  {
    Finish(FeedAll(Start, exec))
  }

  /** `split_exec_tokens`. */
  method SplitExecTokens(exec: string) returns (tokens: seq<string>)
    ensures tokens == ExecTokens(exec)
  {
    tokens := [];
    var current: string := [];
    var inSingle, inDouble, escape, hadQuotes := false, false, false, false;
    var i := 0;
    while i < |exec|
      invariant 0 <= i <= |exec|
      invariant FeedAll(Scan(tokens, current, inSingle, inDouble, escape, hadQuotes), exec[i..]) == FeedAll(Start, exec)
    {
      var ch := exec[i];
      assert exec[i..][0] == ch && exec[i..][1..] == exec[i + 1..];
      i := i + 1;
      if escape {
        current := current + [ch];
        escape := false;
        continue;
      }
      if ch == '\\' && !inSingle {
        escape := true;
        continue;
      }
      if ch == '\'' && !inDouble {
        inSingle := !inSingle;
        hadQuotes := true;
        continue;
      }
      if ch == '"' && !inSingle {
        inDouble := !inDouble;
        hadQuotes := true;
        continue;
      }
      if IsWhitespace(ch) && !inSingle && !inDouble {
        if current != [] || hadQuotes {
          tokens := tokens + [current];
          current := [];
          hadQuotes := false;
        }
        continue;
      }
      current := current + [ch];
    }
    if escape {
      current := current + "\\";
    }
    if current != [] || hadQuotes {
      tokens := tokens + [current];
    }
  }

  /** Text with no quote and no backslash. */
  predicate Plain(text: string)
  {
    forall i :: 0 <= i < |text| ==> text[i] != '\'' && text[i] != '"' && text[i] != '\\'
  }

  /** One plain character outside quotes: whitespace ends the current word,
      anything else extends it. */
  lemma FeedPlain(toks: seq<string>, cur: string, c: char)
    requires c != '\'' && c != '"' && c != '\\'
    ensures Feed(Scan(toks, cur, false, false, false, false), c) ==
      if IsWhitespace(c) then Scan(if cur != [] then toks + [cur] else toks, [], false, false, false, false)
      else Scan(toks, cur + [c], false, false, false, false)
  {
  }

  lemma {:induction false} PlainScan(toks: seq<string>, cur: string, text: string)
    requires NoWhitespace(cur) && Plain(text)
    ensures Finish(FeedAll(Scan(toks, cur, false, false, false, false), text)) == toks + Words(cur + text)
    decreases |text|, 1
  {
    if text == [] {
      assert cur + text == cur;
      if cur != [] {
        WordsOfWord(cur);
      } else {
        assert Words(cur) == [];
      }
    } else if IsWhitespace(text[0]) {
      PlainScanWhitespace(toks, cur, text);
    } else {
      PlainScanOther(toks, cur, text);
    }
  }

  lemma {:induction false} PlainScanOther(toks: seq<string>, cur: string, text: string)
    requires NoWhitespace(cur) && Plain(text) && text != [] && !IsWhitespace(text[0])
    ensures Finish(FeedAll(Scan(toks, cur, false, false, false, false), text)) == toks + Words(cur + text)
    decreases |text|, 0
  {
    var c := text[0];
    var rest := text[1..];
    assert Plain(rest) by {
      assert forall i :: 0 <= i < |rest| ==> rest[i] == text[i + 1];
    }
    FeedPlain(toks, cur, c);
    assert FeedAll(Scan(toks, cur, false, false, false, false), text) == FeedAll(Scan(toks, cur + [c], false, false, false, false), rest);
    PlainScan(toks, cur + [c], rest);
    MoveFirst(cur, text);
  }

  lemma MoveFirst(a: string, b: string)
    requires b != []
    ensures a + b == (a + [b[0]]) + b[1..]
  {
  }

  lemma {:induction false} PlainScanWhitespace(toks: seq<string>, cur: string, text: string)
    requires NoWhitespace(cur) && Plain(text) && text != [] && IsWhitespace(text[0])
    ensures Finish(FeedAll(Scan(toks, cur, false, false, false, false), text)) == toks + Words(cur + text)
    decreases |text|, 0
  {
    var c := text[0];
    var rest := text[1..];
    assert Plain(rest) by {
      assert forall i :: 0 <= i < |rest| ==> rest[i] == text[i + 1];
    }
    var toks' := if cur != [] then toks + [cur] else toks;
    FeedPlain(toks, cur, c);
    assert FeedAll(Scan(toks, cur, false, false, false, false), text) == FeedAll(Scan(toks', [], false, false, false, false), rest);
    PlainScan(toks', [], rest);
    assert [] + rest == rest;
    WordsAfterWhitespace(toks, cur, text);
  }

  /** Without quotes or backslashes the tokens are the whitespace-separated words. */
  lemma PlainTokensAreWords(exec: string)
    requires Plain(exec)
    ensures ExecTokens(exec) == Words(exec)
  {
    PlainScan([], [], exec);
    assert [] + exec == exec;
  }

  lemma {:induction false} FeedAllAppend(s: Scan, a: string, b: string)
    ensures FeedAll(s, a + b) == FeedAll(FeedAll(s, a), b)
    decreases |a|
  {
    if a != [] {
      assert (a + b)[0] == a[0] && (a + b)[1..] == a[1..] + b;
      FeedAllAppend(Feed(s, a[0]), a[1..], b);
    } else {
      assert a + b == b;
    }
  }

  /** Inside double quotes, text without `"` and `\` is copied as it is,
      whitespace and single quotes included. */
  lemma {:induction false} DoubleQuotedBody(s: Scan, body: string)
    requires s.inDouble && !s.inSingle && !s.escape
    requires '"' !in body && '\\' !in body
    ensures FeedAll(s, body) == s.(current := s.current + body)
    decreases |body|
  {
    if body == [] {
      assert s.current + body == s.current;
    } else {
      assert '"' !in body[1..] && '\\' !in body[1..];
      DoubleQuotedBody(Feed(s, body[0]), body[1..]);
      assert s.current + [body[0]] + body[1..] == s.current + body;
    }
  }

  /** Inside single quotes, text without `'` is copied as it is, so a
      backslash there is an ordinary character. */
  lemma {:induction false} SingleQuotedBody(s: Scan, body: string)
    requires s.inSingle && !s.inDouble && !s.escape
    requires '\'' !in body
    ensures FeedAll(s, body) == s.(current := s.current + body)
    decreases |body|
  {
    if body == [] {
      assert s.current + body == s.current;
    } else {
      assert '\'' !in body[1..];
      SingleQuotedBody(Feed(s, body[0]), body[1..]);
      assert s.current + [body[0]] + body[1..] == s.current + body;
    }
  }

  /** `"body"` is one token holding `body` without the quotes; `""` is one empty token. */
  lemma DoubleQuoted(body: string)
    requires '"' !in body && '\\' !in body
    ensures FeedAll(Start, "\"" + body + "\"") == Scan([], body, false, false, false, true)
    ensures ExecTokens("\"" + body + "\"") == [body]
  {
    var s1 := Feed(Start, '"');
    FeedAllAppend(Start, "\"", body + "\"");
    assert "\"" + body + "\"" == "\"" + (body + "\"");
    FeedAllAppend(s1, body, "\"");
    DoubleQuotedBody(s1, body);
    assert [] + body == body;
  }

  /** `'body'` is one token holding `body`; backslashes and `"` inside are kept. */
  lemma SingleQuoted(body: string)
    requires '\'' !in body
    ensures FeedAll(Start, "'" + body + "'") == Scan([], body, false, false, false, true)
    ensures ExecTokens("'" + body + "'") == [body]
  {
    var s1 := Feed(Start, '\'');
    FeedAllAppend(Start, "'", body + "'");
    assert "'" + body + "'" == "'" + (body + "'");
    FeedAllAppend(s1, body, "'");
    SingleQuotedBody(s1, body);
    assert [] + body == body;
  }

  /** Outside single quotes a backslash makes the next character literal,
      even whitespace or a quote; a trailing lone backslash is kept. */
  lemma Escapes(c: char)
    ensures ExecTokens(['\\', c]) == [[c]]
    ensures ExecTokens("\\") == ["\\"]
  {
    var s1 := Start.(escape := true);
    assert Feed(Start, '\\') == s1;
    assert ['\\', c][0] == '\\' && ['\\', c][1..] == [c];
    assert FeedAll(Start, ['\\', c]) == FeedAll(s1, [c]);
    assert FeedAll(s1, [c]) == Feed(s1, c);
    assert Feed(s1, c) == Start.(current := [c]);
    assert FeedAll(Start, "\\") == s1 by {
      assert "\\"[1..] == [];
    }
    assert s1.current + "\\" == "\\";
  }

  /** The tokeniser is between tokens: outside quotes and not escaping. */
  predicate Idle(s: Scan)
  {
    !s.inSingle && !s.inDouble && !s.escape
  }

  lemma {:induction false} FeedAllTokens(s: Scan, pre: seq<string>, text: string)
    ensures FeedAll(s.(tokens := pre + s.tokens), text) == FeedAll(s, text).(tokens := pre + FeedAll(s, text).tokens)
    decreases |text|
  {
    if text != [] {
      var ch := text[0];
      var f := Feed(s, ch);
      assert Feed(s.(tokens := pre + s.tokens), ch) == f.(tokens := pre + f.tokens);
      FeedAllTokens(f, pre, text[1..]);
    }
  }

  /** Unquoted, unescaped whitespace separates tokens: the tokens of `a w b`
      are those of `a` followed by those of `b`. */
  lemma WhitespaceSeparates(a: string, w: char, b: string)
    requires Idle(FeedAll(Start, a)) && IsWhitespace(w)
    ensures ExecTokens(a + [w] + b) == ExecTokens(a) + ExecTokens(b)
  {
    var sa := FeedAll(Start, a);
    FeedAllAppend(Start, a, [w] + b);
    assert a + [w] + b == a + ([w] + b);
    assert ([w] + b)[0] == w && ([w] + b)[1..] == b;
    var s2 := Feed(sa, w);
    assert s2 == Scan(Finish(sa), [], false, false, false, false);
    FeedAllTokens(Start, Finish(sa), b);
    assert Start.(tokens := Finish(sa) + Start.tokens) == s2;
  }

  // ---------------------------------------------------------------------
  // Executable extraction

  /** `is_skippable_exec_part`: not a candidate for the executable. */
  predicate IsSkippableExecPart(part: string)
  {
    part == [] || part == "env" || ('=' in part && !StartsWith(part, "-")) || part in DESKTOP_FIELD_CODES
  }

  /** `find(|part| !is_skippable_exec_part(part))`. */
  function FirstNonSkippable(parts: seq<string>): (r: Option<string>)
    ensures r.None? <==> forall j :: 0 <= j < |parts| ==> IsSkippableExecPart(parts[j])
    ensures r.Some? ==> exists i :: 0 <= i < |parts| && parts[i] == r.value && !IsSkippableExecPart(r.value) &&
                                  (forall j :: 0 <= j < i ==> IsSkippableExecPart(parts[j]))
  {
    if parts == [] then None
    else if !IsSkippableExecPart(parts[0]) then Some(parts[0])
    else
      var r := FirstNonSkippable(parts[1..]);
      assert forall j :: 1 <= j < |parts| ==> parts[j] == parts[1..][j - 1];
      r
  }

  /** `extract_executable_token`. */
  function ExtractExecutableToken(exec: string): (r: Option<string>)
    ensures r.Some? ==> r.value in ExecTokens(exec) && !IsSkippableExecPart(r.value)
  {
    FirstNonSkippable(ExecTokens(exec))
  }

  /** `extract_executable_name`: the last path component of the executable. */
  function ExtractExecutableName(exec: string): (r: Option<string>)
    ensures r.Some? ==> r.value != [] && '/' !in r.value
    ensures r.Some? ==> ExtractExecutableToken(exec).Some? && EndsWith(ExtractExecutableToken(exec).value, r.value)
  {
    match ExtractExecutableToken(exec)
    case None => None
    case Some(cmd) => Paths.FileName(cmd)
  }

  /** A plain word is one token, and the tokeniser is idle after it. */
  lemma {:induction false} PlainWordState(toks: seq<string>, cur: string, w: string)
    requires Plain(w) && NoWhitespace(w)
    ensures FeedAll(Scan(toks, cur, false, false, false, false), w) == Scan(toks, cur + w, false, false, false, false)
    decreases |w|
  {
    if w == [] {
      assert cur + w == cur;
    } else {
      assert Plain(w[1..]) && NoWhitespace(w[1..]) by {
        assert forall i :: 0 <= i < |w[1..]| ==> w[1..][i] == w[i + 1];
      }
      FeedPlain(toks, cur, w[0]);
      PlainWordState(toks, cur + [w[0]], w[1..]);
      MoveFirst(cur, w);
    }
  }

  lemma PlainWord(w: string)
    requires w != [] && Plain(w) && NoWhitespace(w)
    ensures Idle(FeedAll(Start, w)) && ExecTokens(w) == [w]
  {
    PlainWordState([], [], w);
    assert [] + w == w;
  }

  lemma {:induction false} FirstNonSkippableAppend(xs: seq<string>, ys: seq<string>)
    ensures FirstNonSkippable(xs + ys) == if FirstNonSkippable(xs).Some? then FirstNonSkippable(xs) else FirstNonSkippable(ys)
    decreases |xs|
  {
    if xs == [] {
      assert xs + ys == ys;
    } else {
      assert (xs + ys)[0] == xs[0] && (xs + ys)[1..] == xs[1..] + ys;
      FirstNonSkippableAppend(xs[1..], ys);
    }
  }

  /** Text before unquoted whitespace whose tokens are all skippable does not
      change the executable. */
  lemma SkippedPrefix(a: string, w: char, b: string)
    requires Idle(FeedAll(Start, a)) && IsWhitespace(w)
    requires FirstNonSkippable(ExecTokens(a)).None?
    ensures ExtractExecutableToken(a + [w] + b) == ExtractExecutableToken(b)
  {
    WhitespaceSeparates(a, w, b);
    FirstNonSkippableAppend(ExecTokens(a), ExecTokens(b));
  }

  /** An executable found before unquoted whitespace is the executable of the
      whole line, whatever the arguments are. */
  lemma ExecutableBeforeArguments(a: string, w: char, b: string)
    requires Idle(FeedAll(Start, a)) && IsWhitespace(w)
    requires ExtractExecutableToken(a).Some?
    ensures ExtractExecutableToken(a + [w] + b) == ExtractExecutableToken(a)
  {
    WhitespaceSeparates(a, w, b);
    FirstNonSkippableAppend(ExecTokens(a), ExecTokens(b));
  }

  /** `env KEY=VALUE rest` has the executable of `rest` (the `env` tests of
      launcher.rs). */
  lemma EnvPrefixSkipped(assign: string, rest: string)
    requires assign != [] && Plain(assign) && NoWhitespace(assign)
    requires '=' in assign && !StartsWith(assign, "-")
    ensures ExtractExecutableToken("env" + [' '] + (assign + [' '] + rest)) == ExtractExecutableToken(rest)
  {
    PlainWord("env");
    PlainWord(assign);
    SkippedPrefix(assign, ' ', rest);
    SkippedPrefix("env", ' ', assign + [' '] + rest);
  }

  /** A plain word that is not skippable is the executable, and arguments and
      field codes after it do not change that. */
  lemma PlainExecutable(cmd: string, rest: string)
    requires cmd != [] && Plain(cmd) && NoWhitespace(cmd) && !IsSkippableExecPart(cmd)
    ensures ExtractExecutableToken(cmd) == Some(cmd)
    ensures ExtractExecutableToken(cmd + [' '] + rest) == Some(cmd)
    ensures ExtractExecutableName(cmd + [' '] + rest) == Paths.FileName(cmd)
  {
    PlainWord(cmd);
    ExecutableBeforeArguments(cmd, ' ', rest);
  }

  /** `"path" rest`: the quoted path, spaces included, is the executable. */
  lemma QuotedExecutable(path: string, rest: string)
    requires '"' !in path && '\\' !in path && !IsSkippableExecPart(path)
    ensures ExtractExecutableToken("\"" + path + "\"" + [' '] + rest) == Some(path)
  {
    DoubleQuoted(path);
    ExecutableBeforeArguments("\"" + path + "\"", ' ', rest);
  }

  /** A backslash joins the words around the character it escapes, so
      `My\ Game` is one token. */
  lemma EscapedJoins(a: string, c: char, b: string)
    requires Plain(a) && NoWhitespace(a) && Plain(b) && NoWhitespace(b)
    ensures Idle(FeedAll(Start, a + ['\\', c] + b))
    ensures ExecTokens(a + ['\\', c] + b) == [a + [c] + b]
  {
    PlainWordState([], [], a);
    assert [] + a == a;
    var s := Scan([], a, false, false, false, false);
    FeedAllAppend(Start, a, ['\\', c] + b);
    assert a + ['\\', c] + b == a + (['\\', c] + b);
    FeedAllAppend(s, ['\\', c], b);
    assert ['\\', c][0] == '\\' && ['\\', c][1..] == [c] && [c][1..] == [];
    var s1 := s.(escape := true);
    assert Feed(s, '\\') == s1;
    assert FeedAll(s, ['\\', c]) == FeedAll(s1, [c]);
    assert FeedAll(s1, [c]) == Feed(s1, c);
    PlainWordState([], a + [c], b);
  }

  /** An empty command has no executable. */
  lemma EmptyCommandHasNoExecutable()
    ensures ExtractExecutableToken([]) == None && ExtractExecutableName([]) == None
  {
  }

  // ---------------------------------------------------------------------
  // Command existence

  const SHELL_META_CHARS: seq<char> :=
    ['$', '`', '~', '*', '?', '[', ']', '{', '}', '(', ')', ';', '&', '|', '<', '>']

  predicate IsShellMeta(ch: char)
  {
    ch in SHELL_META_CHARS || ch == '\n'
  }

  /** `should_skip_command_check`: the command needs a shell to be understood. */
  function ShouldSkipCommandCheck(exec: string): (r: bool)
    ensures r <==> exists i :: 0 <= i < |exec| && IsShellMeta(exec[i])
  {
    if exec == [] then false
    else
      var r := IsShellMeta(exec[0]) || ShouldSkipCommandCheck(exec[1..]);
      assert forall i :: 1 <= i < |exec| ==> exec[i] == exec[1..][i - 1];
      r
  }

  /** The file system and environment as far as `verify_command_exists` sees
      them: the paths that are executable files, and `$PATH` if it is set. */
  datatype CommandEnv = CommandEnv(executables: set<string>, path: Option<string>)

  /** A command given by location rather than looked up in `$PATH`. */
  predicate IsDirectPath(command: string)
  {
    Paths.IsAbsolute(command) || StartsWith(command, "./") || StartsWith(command, "../")
  }

  /** `env::split_paths(..).map(|dir| dir.join(&command)).any(is_executable_path)`. */
  function FoundInPath(dirs: seq<string>, command: string, executables: set<string>): (r: bool)
    ensures r <==> exists i :: 0 <= i < |dirs| && Paths.Join(dirs[i], command) in executables
  {
    if dirs == [] then false
    else
      var r := Paths.Join(dirs[0], command) in executables || FoundInPath(dirs[1..], command, executables);
      assert forall i :: 1 <= i < |dirs| ==> dirs[i] == dirs[1..][i - 1];
      r
  }

  /** `verify_command_exists`. */
  function VerifyCommandExists(exec: string, env: CommandEnv): (r: bool)
    ensures ShouldSkipCommandCheck(exec) ==> r
    ensures !ShouldSkipCommandCheck(exec) && ExtractExecutableToken(exec).None? ==> !r
    ensures !ShouldSkipCommandCheck(exec) && ExtractExecutableToken(exec).Some? ==>
      var cmd := ExtractExecutableToken(exec).value;
      (IsDirectPath(cmd) ==> (r <==> cmd in env.executables)) &&
      (!IsDirectPath(cmd) ==>
        (r <==> (env.path.Some? && exists d :: d in Split(env.path.value, ':') && Paths.Join(d, cmd) in env.executables)))
  {
    if ShouldSkipCommandCheck(exec) then true
    else
      match ExtractExecutableToken(exec)
      case None => false
      case Some(cmd) =>
        if IsDirectPath(cmd) then cmd in env.executables
        else
          match env.path
          case None => false
          case Some(p) => FoundInPath(Split(p, ':'), cmd, env.executables)
  }

  /** A command that needs the shell passes the check whatever the file system holds. */
  lemma ShellExpansionSkipsCheck(pre: string, meta: char, post: string, env: CommandEnv)
    requires IsShellMeta(meta)
    ensures VerifyCommandExists(pre + [meta] + post, env)
  {
    assert (pre + [meta] + post)[|pre|] == meta;
  }

  /** The characters that the tests of launcher.rs rely on: `~/...`, `$HOME/...`, `&&` and `|`. */
  lemma TestedShellMetaChars()
    ensures IsShellMeta('~') && IsShellMeta('$') && IsShellMeta('&') && IsShellMeta('|') && IsShellMeta(';')
  {
  }

  /** The outcome of `launch_app` up to the spawn, which is not modelled. */
  datatype LaunchOutcome = EmptyCommand | CommandNotFound(command: string) | Spawn(command: string)

  /** `launch_app`: rejects a blank command, then a command that cannot be
      found, and otherwise runs `sh -c exec`. */
  function LaunchApp(exec: string, env: CommandEnv): (r: LaunchOutcome)
    ensures r == EmptyCommand <==> Trim(exec) == []
    ensures r.CommandNotFound? ==>
      !VerifyCommandExists(exec, env) && r.command == ExtractExecutableToken(exec).UnwrapOr(exec)
    ensures r.Spawn? ==> VerifyCommandExists(exec, env) && r.command == exec
    ensures Trim(exec) != [] && VerifyCommandExists(exec, env) ==> r == Spawn(exec)
  {
    if Trim(exec) == [] then EmptyCommand
    else if !VerifyCommandExists(exec, env) then CommandNotFound(ExtractExecutableToken(exec).UnwrapOr(exec))
    else Spawn(exec)
  }

  // ---------------------------------------------------------------------
  // Monitor targets

  /** `create_app_monitor_target`. */
  function CreateAppMonitorTarget(exec: string, itemName: string): (r: MonitorTarget)
    ensures var exe := ExtractExecutableName(exec);
      (exe.None? ==> r == CmdLineContains(itemName)) &&
      (exe.Some? && EqIgnoreCase(exe.value, itemName) ==> r == CmdLineContains(exe.value)) &&
      (exe.Some? && !EqIgnoreCase(exe.value, itemName) && itemName != [] ==>
         r == Any([CmdLineContains(exe.value), CmdLineContains(itemName)])) &&
      (exe.Some? && itemName == [] ==> r == CmdLineContains(exe.value))
  {
    match ExtractExecutableName(exec)
    case None => CmdLineContains(itemName)
    case Some(exe) =>
      if EqIgnoreCase(exe, itemName) then CmdLineContains(exe)
      else if itemName != [] then Any([CmdLineContains(exe), CmdLineContains(itemName)])
      else CmdLineContains(exe)
  }

  const STEAM_LAUNCH_PREFIX: string := "steam -applaunch "
  const HEROIC_LAUNCH_PREFIX: string := "xdg-open heroic://launch/"

  /** A hexadecimal digit as `urlencoding` reads it, in either case. */
  function HexValue(b: byte): Option<nat>
  {
    if 0x30 <= b <= 0x39 then Some((b - 0x30) as nat)
    else if 0x41 <= b <= 0x46 then Some((b - 0x41 + 10) as nat)
    else if 0x61 <= b <= 0x66 then Some((b - 0x61 + 10) as nat)
    else None
  }

  /** The byte step of `urlencoding::decode`: `%` and two hex digits become
      one byte; any other byte, a lone `%` included, is kept. */
  function PercentDecodeBytes(b: seq<byte>): (r: seq<byte>)
    ensures |r| <= |b|
    decreases |b|
  {
    if b == [] then []
    else if b[0] == 0x25 && |b| >= 3 && HexValue(b[1]).Some? && HexValue(b[2]).Some? then
      [(HexValue(b[1]).value * 16 + HexValue(b[2]).value) as byte] + PercentDecodeBytes(b[3..])
    else [b[0]] + PercentDecodeBytes(b[1..])
  }

  /** `urlencoding::decode`: fails when the decoded bytes are not UTF-8. */
  function UrlDecode(s: string): Option<string>
  {
    Decode(PercentDecodeBytes(Encode(s)))
  }

  lemma {:induction false} PercentDecodeNoPercent(b: seq<byte>)
    requires 0x25 !in b
    ensures PercentDecodeBytes(b) == b
    decreases |b|
  {
    if b != [] {
      assert 0x25 !in b[1..];
      PercentDecodeNoPercent(b[1..]);
    }
  }

  /** A text without `%` decodes to itself. */
  lemma UrlDecodeNoPercent(s: string)
    requires '%' !in s
    ensures UrlDecode(s) == Some(s)
  {
    EncodeNoPercent(s);
    PercentDecodeNoPercent(Encode(s));
    DecodeEncode(s);
  }

  lemma {:induction false} EncodeNoPercent(s: string)
    requires '%' !in s
    ensures 0x25 !in Encode(s)
  {
    if s != [] {
      assert '%' !in s[1..];
      EncodeNoPercent(s[1..]);
    }
  }

  /** The app name of a Heroic launch URL: the second `/`-separated part, or
      the only one, percent-decoded. */
  function HeroicAppName(exec: string): Option<string>
  {
    var urlPart := Trim(TrimStartMatches(exec, HEROIC_LAUNCH_PREFIX));
    var parts := Split(urlPart, '/');
    if |parts| >= 2 then UrlDecode(parts[1])
    else UrlDecode(parts[0])
  }

  /** The targets of a Heroic launch of the game `name` shown as `itemName`. */
  function HeroicTargets(name: string, itemName: string, gameExecutable: Option<string>): (r: seq<MonitorTarget>)
    ensures |r| == 3 + (if gameExecutable.Some? then 1 else 0) + (if Replace(itemName, ":", "") != itemName then 1 else 0)
    ensures r[..3] == [EnvVarEq("LEGENDARY_GAME_ID", name), EnvVarEq("HeroicAppName", name), CmdLineContains(itemName)]
    ensures gameExecutable.Some? ==> r[3] == CmdLineContains(gameExecutable.value)
    ensures Replace(itemName, ":", "") != itemName ==> r[|r| - 1] == CmdLineContains(Replace(itemName, ":", ""))
  {
    var base := [EnvVarEq("LEGENDARY_GAME_ID", name), EnvVarEq("HeroicAppName", name), CmdLineContains(itemName)];
    var withExe := if gameExecutable.Some? then base + [CmdLineContains(gameExecutable.value)] else base;
    var sanitized := Replace(itemName, ":", "");
    if sanitized != itemName then withExe + [CmdLineContains(sanitized)] else withExe
  }

  /** `resolve_monitor_target`: never `None`. */
  function ResolveMonitorTarget(exec: string, itemName: string, gameExecutable: Option<string>): (r: Option<MonitorTarget>)
    ensures r.Some?
    ensures StartsWith(exec, STEAM_LAUNCH_PREFIX) ==>
      r.value == SteamAppId(Trim(TrimStartMatches(exec, STEAM_LAUNCH_PREFIX)))
    ensures !StartsWith(exec, STEAM_LAUNCH_PREFIX) && StartsWith(exec, HEROIC_LAUNCH_PREFIX) && HeroicAppName(exec).Some? ==>
      r.value == Any(HeroicTargets(HeroicAppName(exec).value, itemName, gameExecutable))
    ensures !StartsWith(exec, STEAM_LAUNCH_PREFIX) && !(StartsWith(exec, HEROIC_LAUNCH_PREFIX) && HeroicAppName(exec).Some?) ==>
      r.value == CreateAppMonitorTarget(exec, itemName)
  {
    if StartsWith(exec, STEAM_LAUNCH_PREFIX) then
      Some(SteamAppId(Trim(TrimStartMatches(exec, STEAM_LAUNCH_PREFIX))))
    else if StartsWith(exec, HEROIC_LAUNCH_PREFIX) && HeroicAppName(exec).Some? then
      Some(Any(HeroicTargets(HeroicAppName(exec).value, itemName, gameExecutable)))
    else
      Some(CreateAppMonitorTarget(exec, itemName))
  }

  /** A Steam launch line monitors its app id. */
  lemma SteamLaunchTarget(appid: string, itemName: string, gameExecutable: Option<string>)
    requires appid != [] && NoWhitespace(appid)
    ensures ResolveMonitorTarget(STEAM_LAUNCH_PREFIX + appid, itemName, gameExecutable) == Some(SteamAppId(appid))
  {
    var exec := STEAM_LAUNCH_PREFIX + appid;
    assert StartsWith(exec, STEAM_LAUNCH_PREFIX);
    assert exec[|STEAM_LAUNCH_PREFIX|..] == appid;
    assert !StartsWith(appid, STEAM_LAUNCH_PREFIX) by {
      if |appid| >= |STEAM_LAUNCH_PREFIX| {
        assert STEAM_LAUNCH_PREFIX[5] == ' ' && IsWhitespace(' ');
        assert !IsWhitespace(appid[5]);
      }
    }
    assert TrimStartMatches(exec, STEAM_LAUNCH_PREFIX) == TrimStartMatches(appid, STEAM_LAUNCH_PREFIX);
    TrimOfNoWhitespace(appid);
  }
}
