# linux-tv-launcher, modelled in Dafny

linux-tv-launcher is a full-screen launcher for a television. You drive it with a
gamepad or a keyboard. It collects what can be started:

- Steam and Heroic games;
- Nintendo 64 and Super Nintendo ROMs, for the snes9x, mupen64plus, simple64 and gopher64 emulators;
- desktop applications.

It shows these in categories of tiles. It launches the selected entry and watches the
started process until it exits. Around that sit several smaller tools:

- a system-update runner that reads the package manager's output;
- a password prompt with an on-screen keyboard;
- a system-information panel;
- cover images kept in a cache directory.

This project models the logic of that program and proves what it promises. It models
the parsers and scanners, the launch-line tokenizer, the process monitor's state
machine, and the stateful selection, keyboard, prompt, gamepad-axis and update-output objects. It also models the
navigation rules of the launcher's screens. There is one Dafny module per source
file. A few modules stand for the Rust library behaviour the code relies on:

- `Strings`: `trim`, `lines`, `split_whitespace`, `find`, `split`, parsing of unsigned integers;
- `Utf8`: the byte encoding of a string;
- `Paths` and `PathOrder`: `file_name`, `extension` and `join`, and how paths compare;
- `Sorting`: the stable `sort_by` and `dedup_by`;
- `Json`: a parsed `serde_json::Value`;
- `Options`: `Option`.

How the model is shaped:

- Code that works step by step is modelled as methods with loops. These include the
  character and line loops, the byte-buffer drain and the probe loops. Each method is
  proved equal to a function, and the lemmas state the properties of that function.
- Objects that the source updates in place are classes whose methods state their
  whole new state: `CategoryList`, `VirtualKeyboard`, `AuthFlow`, the gamepad's
  `AxisState`, the update runner's output buffer, and both versions of the
  `Launcher` screen state.
- The operating system enters only as data. File contents are `Option<string>`
  values, the set of existing paths is a `set`, directory listings are sequences,
  the process table is a snapshot, and the clock is a sequence of readings. Each
  operation takes these as parameters.
- Integer widths are written out where the source relies on them. `u8` parses with
  a fallback, `u64` products wrap around, and the `i32` depth counters of the title
  cleaners saturate at the bottom of their range.

Facts about the program that shape the model:

- The process monitor polls once per second, with a fixed 60 s start timeout and a
  2 s exit grace after the target was last seen. It has no start phases, adaptive
  polling or process locking.
- src/model.rs is older than src/game_sources.rs, src/category_list.rs, src/ui.rs and
  src/ui_app_update_modal.rs, which use fields and variants it lacks:
  `AppEntry.launch_key`, `AppEntry::with_launch_key` and `LauncherItem.last_started`
  (src/game_sources.rs, src/category_list.rs), `Action::ShowHelp` (src/ui.rs, missing
  from src/input.rs) and `AppUpdatePhase` (src/ui_app_update_modal.rs, missing from
  src/ui_state.rs). Each type carries all of those fields and variants, as their
  users write them.
- The config entries written at src/ui.rs:1150-1156 and src/app.rs:344-350 carry
  no launch key, so a launch key read from the config is lost when the config is
  saved again.
- src/app.rs is an earlier version of the launcher that src/main.rs no longer
  declares. It is modelled beside src/ui.rs.

The Remove Entry arm of the context menu, in src/ui.rs and src/app.rs, first closes
the menu but then falls through to the statement that re-opens it at index 1. The
navigation handlers keep that behaviour as written. The intended behaviour, with the menu
left closed, is modelled beside them (see "## Findings").

## Model

| member | source | states |
|---|---|---|
| FocusManager.AsI32 | src/focus_manager.rs:73-75 | `pid as i32` lies in the i32 range and is congruent to the pid modulo 2^32 |
| FocusManager.CheckCmdline | src/focus_manager.rs:77-104 | the early-return scan answers exactly whether the listed table has a process whose space-joined, lowercased argv contains the lowercased pattern; an unlisted table gives false |
| FocusManager.CheckEnvVar | src/focus_manager.rs:106-134 | the early-return scan answers exactly whether some readable environment maps the key to the value; an unlisted table gives false |
| FocusManager.CheckTargetRunning | src/focus_manager.rs:63-71 | the recursive check over the target tree returns the reference predicate `Running` |
| FocusManager.AnyRunningIff | src/focus_manager.rs:69 | `Any(ts)` runs exactly when some element of `ts` runs (both directions) |
| FocusManager.AnyEmptyNeverRuns | src/focus_manager.rs:69 | `Any([])` is never running |
| FocusManager.SteamAppIdIsEnvVar | src/focus_manager.rs:66-67 | `SteamAppId(a)` runs exactly when `EnvVarEq("SteamAppId", a)` runs |
| FocusManager.UnlistedTableHidesProcesses | src/focus_manager.rs:78-84 | a process table that cannot be read makes command-line and environment targets not running |
| FocusManager.CmdLineWitness | src/focus_manager.rs:86-98 | one process whose joined, lowercased argv contains the lowercased pattern makes `CmdLineContains` run |
| FocusManager.Initial | src/focus_manager.rs:22-24 | the monitor starts with nothing seen and `last_seen_time` at the start |
| FocusManager.Run | src/focus_manager.rs:26-58 | a run that stops does so at one of the polls, for a reason other than continuing |
| FocusManager.MonitorAppProcess | src/focus_manager.rs:19-61 | the polling loop returns exactly the outcome of the reference fold `Run` over the observations of its polls |
| FocusManager.SightingContinues | src/focus_manager.rs:29-35 | a poll that sees the target never ends the monitor and sets the state to (found, that poll's time) |
| FocusManager.TimeoutOnlyBeforeSighting | src/focus_manager.rs:7-43 | the start timeout fires exactly when nothing was seen yet, the target is absent and strictly more than 60 s have passed; after a sighting it never fires |
| FocusManager.ExitOnlyAfterGrace | src/focus_manager.rs:8-53 | the exit fires exactly when the target was seen before, is absent now and was last seen strictly more than 2 s ago; before a sighting it never fires |
| FocusManager.FoundOnceSticky | src/focus_manager.rs:23-33 | once `game_found_once` is true at some poll it stays true at every later poll |
| FocusManager.SightingRecorded | src/focus_manager.rs:29-35 | after a poll that sees the target the state is (found, that poll's time) |
| FocusManager.UnseenStaysInitial | src/focus_manager.rs:22-43 | as long as no poll has seen the target the state is still the initial one |
| FocusManager.RunStopsAtFirstBreak | src/focus_manager.rs:26-58 | when every earlier poll continued, the run stops at poll k exactly when poll k's decision is a `break`, and otherwise goes on from the next state |
| FocusManager.RunSuffix | src/focus_manager.rs:26-58 | after k polls that all continued, the run is the run from the state after them, shifted by k |
| FocusManager.ContinuesBeforeStop | src/focus_manager.rs:26-58 | every poll before the one where a run stopped chose to continue |
| FocusManager.StoppedAtFirstBreak | src/focus_manager.rs:26-60 | a run that stopped did so at the first poll whose decision was a `break`, for that decision's reason |
| FocusManager.NeverSeenTimesOutAtPoll61 | src/focus_manager.rs:6-43 | one-second polls from the start that never see the target stop with a timeout at poll 61, since 60 s is not more than 60 s |
| FocusManager.GoneExitsAtThirdPoll | src/focus_manager.rs:6-53 | one-second polls after a sighting that no longer see the target exit at the third poll, since 2 s is not more than 2 s |
| FocusManager.SightingRestartsGrace | src/focus_manager.rs:34-53 | a sighting inside the grace window gives the target a fresh 2 s window, so the next absence within 2 s continues |
| FocusManager.CmdLineMatch | src/focus_manager.rs:93-98 | one process entry whose argv could be read and whose space-joined, lowercased argv contains the lowercased pattern |
| FocusManager.EnvVarMatch | src/focus_manager.rs:123-129 | one process entry whose environment could be read and maps the key to exactly the value |
| FocusManager.CmdLineMatches | src/focus_manager.rs:77-104 | the reference for `check_cmdline`: the process list was readable and some entry matches the pattern |
| FocusManager.EnvVarMatches | src/focus_manager.rs:106-134 | the reference for `check_env_var`: the process list was readable and some entry has the variable set to the value |
| FocusManager.Running | src/focus_manager.rs:63-71 | the reference for `check_target_running`: whether a target, possibly nested `Any`, runs in one snapshot |
| FocusManager.AnyRunning | src/focus_manager.rs:69 | the reference for an `Any` target: some listed target runs |
| FocusManager.Decide | src/focus_manager.rs:29-53 | one poll's break decision: a sighting continues; with nothing seen yet the launch timeout stops the loop; after a sighting the grace period does |
| FocusManager.Update | src/focus_manager.rs:29-35 | one poll's assignments: a sighting sets `game_found_once` and `last_seen_time`, anything else keeps the state |
| FocusManager.Delay | src/focus_manager.rs:26-58 | shifts the poll index of a stopped run by the polls before it |
| FocusManager.StateAt | src/focus_manager.rs:22-35 | the monitor state after the first k polls |
| FocusManager.Observe | src/focus_manager.rs:27-28 | one observation per poll, as many as there are polls, each the clock reading and whether the target runs |
| Launcher.SplitExecTokens | src/launcher.rs:123-175 | the character loop returns the tokens of the reference scanner `ExecTokens`, a fold of one step per character plus the final flush |
| Launcher.FeedPlain | src/launcher.rs:155-163 | outside quotes a whitespace character ends the current word (pushing it only if non-empty) and any other plain character extends it |
| Launcher.PlainScan | src/launcher.rs:131-172 | on text without quotes or backslashes the scanner's tokens are the whitespace-separated words |
| Launcher.PlainScanOther | src/launcher.rs:155-163 | the same, for text that starts with a non-whitespace character |
| Launcher.PlainScanWhitespace | src/launcher.rs:155-161 | the same, for text that starts with whitespace |
| Launcher.PlainTokensAreWords | src/launcher.rs:123-175 | a command without quotes or backslashes splits into exactly its `split_whitespace` words |
| Launcher.FeedAllAppend | src/launcher.rs:131-164 | scanning `a + b` is scanning `a`, then `b` from the resulting state |
| Launcher.DoubleQuotedBody | src/launcher.rs:143-163 | inside double quotes, text without `"` and `\` is copied verbatim, whitespace and `'` included |
| Launcher.SingleQuotedBody | src/launcher.rs:138-163 | inside single quotes, text without `'` is copied verbatim, so a backslash there is ordinary |
| Launcher.DoubleQuoted | src/launcher.rs:149-172 | `"body"` yields exactly the one token `body`, and `""` the one empty token |
| Launcher.SingleQuoted | src/launcher.rs:143-172 | `'body'` yields exactly the one token `body`, backslashes and `"` kept |
| Launcher.Escapes | src/launcher.rs:132-168 | a backslash followed by any character yields that character literally, and a trailing lone backslash yields `\` |
| Launcher.FeedAllTokens | src/launcher.rs:131-164 | tokens already collected are never touched by later characters |
| Launcher.WhitespaceSeparates | src/launcher.rs:155-161 | after text that leaves the scanner idle, a whitespace character separates: the tokens of `a w b` are those of `a` then those of `b` |
| Launcher.FirstNonSkippable | src/launcher.rs:177-188 | `find(!is_skippable_exec_part)`: none exactly when every token is skippable, otherwise the first token that is not |
| Launcher.ExtractExecutableToken | src/launcher.rs:184-188 | a returned executable is one of the tokens and is not skippable |
| Launcher.ExtractExecutableName | src/launcher.rs:194-202 | a returned name is non-empty, has no `/`, and ends the executable token |
| Launcher.PlainWordState | src/launcher.rs:155-163 | a plain word only extends the current token |
| Launcher.PlainWord | src/launcher.rs:163-172 | a plain non-empty word is the one token and leaves the scanner idle |
| Launcher.FirstNonSkippableAppend | src/launcher.rs:184-188 | the first non-skippable token of `xs + ys` comes from `xs` when `xs` has one, otherwise from `ys` |
| Launcher.SkippedPrefix | src/launcher.rs:177-188 | a prefix of skippable tokens before whitespace does not change the executable token |
| Launcher.ExecutableBeforeArguments | src/launcher.rs:184-188 | an executable found before whitespace stays the executable whatever arguments follow |
| Launcher.EnvPrefixSkipped | src/launcher.rs:177-188 | `env KEY=VALUE rest` has the executable token of `rest`, as in the `env LANG=C` tests |
| Launcher.PlainExecutable | src/launcher.rs:184-202 | a plain non-skippable word is the executable token, before any arguments, and its name is its file name |
| Launcher.QuotedExecutable | src/launcher.rs:184-188 | `"path" rest` has the quoted path, spaces included, as executable |
| Launcher.EscapedJoins | src/launcher.rs:132-141 | `My\ Game` is one token `My Game`: an escaped character joins the words around it |
| Launcher.EmptyCommandHasNoExecutable | src/launcher.rs:284-339 | the empty command has no executable token and no executable name |
| Launcher.ShouldSkipCommandCheck | src/launcher.rs:216-223 | true exactly when some character is one of the sixteen shell metacharacters or a newline |
| Launcher.FoundInPath | src/launcher.rs:243-245 | true exactly when joining some `PATH` directory with the command gives an executable file |
| Launcher.VerifyCommandExists | src/launcher.rs:225-246 | shell syntax passes; no executable token fails; an absolute or `./`/`../` path must be executable itself; otherwise some `PATH` directory must hold it, and no `PATH` fails |
| Launcher.ShellExpansionSkipsCheck | src/launcher.rs:225-228 | a command with a shell metacharacter passes whatever the file system holds |
| Launcher.TestedShellMetaChars | src/launcher.rs:404-410 | `~`, `$`, `&`, `\|` and `;` are shell metacharacters, which the shell-expansion tests rely on |
| Launcher.LaunchApp | src/launcher.rs:31-59 | a blank command is `EmptyCommand` exactly; a command not found reports its executable token (or the whole line); otherwise `sh -c exec` is spawned |
| Launcher.CreateAppMonitorTarget | src/launcher.rs:251-268 | no executable name gives the item name; equal names ignoring ASCII case give the executable alone; different names with a non-empty item name give `Any` of both; an empty item name gives the executable |
| Launcher.PercentDecodeBytes | src/launcher.rs:87-94 | the byte step of `urlencoding::decode` never lengthens its input |
| Launcher.PercentDecodeNoPercent | src/launcher.rs:87-94 | bytes without `%` decode to themselves |
| Launcher.UrlDecodeNoPercent | src/launcher.rs:87-94 | a text without `%` decodes to itself |
| Launcher.EncodeNoPercent | src/launcher.rs:87-94 | the UTF-8 bytes of a text without `%` have no `%` byte |
| Launcher.HeroicTargets | src/launcher.rs:97-114 | the Heroic targets are LEGENDARY_GAME_ID, HeroicAppName and the item name, then the executable when given, then the colon-stripped name only when it differs |
| Launcher.ResolveMonitorTarget | src/launcher.rs:61-120 | always `Some`: a Steam prefix gives `SteamAppId(trimmed rest)`, a decodable Heroic URL gives `Any` of the Heroic targets, anything else the app target |
| Launcher.SteamLaunchTarget | src/launcher.rs:70-77 | `steam -applaunch <id>` monitors `SteamAppId(id)` |
| Launcher.Feed | src/launcher.rs:131-164 | one iteration of the tokeniser's character loop: escapes, quote toggles, whitespace splitting and plain characters |
| Launcher.FeedAll | src/launcher.rs:131-164 | the tokeniser's character loop over a whole text |
| Launcher.Finish | src/launcher.rs:166-174 | after the loop, a pending backslash is kept and a non-empty or quoted last token is pushed |
| Launcher.ExecTokens | src/launcher.rs:123-175 | the reference tokens of an `Exec` line, the character loop followed by the finish |
| Launcher.Plain | src/launcher.rs:131-164 | text on which the tokeniser meets no quote and no backslash |
| Launcher.MoveFirst | src/launcher.rs:131-164 | moving one character across a concatenation leaves the text the tokeniser sees unchanged |
| Launcher.Idle | src/launcher.rs:155-161 | the tokeniser is between tokens: outside quotes, not escaping, no pending token |
| Launcher.IsSkippableExecPart | src/launcher.rs:177-182 | an empty part, `env`, a `KEY=VALUE` assignment not starting with `-`, or a desktop field code is skipped |
| Launcher.IsShellMeta | src/launcher.rs:216-223 | the characters that make the launcher skip its command check, newline included |
| Launcher.IsDirectPath | src/launcher.rs:234-236 | an absolute, `./` or `../` command is checked where it is, not looked up in `PATH` |
| Launcher.HexValue | src/launcher.rs:87-94 | the value of a hexadecimal digit of either case, none for any other byte |
| Launcher.UrlDecode | src/launcher.rs:87-94 | `urlencoding::decode`: percent-decodes the UTF-8 bytes and fails when the result is not UTF-8 |
| Launcher.HeroicAppName | src/launcher.rs:79-95 | the app name of a Heroic URL: the decoded second `/`-separated part when there are two or more, else the decoded only part |
| GameSources.ExtractQuotedStrings | src/game_sources.rs:493-528 | the character loop returns the strings of the reference scanner `QuotedStrings`, one step per character |
| GameSources.QFeedAllAppend | src/game_sources.rs:499-525 | scanning `a + b` is scanning `a`, then `b` from the resulting state |
| GameSources.OutsideDropped | src/game_sources.rs:511-524 | between spans, text without `"` changes nothing |
| GameSources.InsideCollected | src/game_sources.rs:522-524 | inside a span, text without `"` and `\` is appended to the current string as it is |
| GameSources.EscapeInsideQuotes | src/game_sources.rs:500-509 | inside a span, `\x` appends `x`, even a quote or a backslash |
| GameSources.ClosedSpan | src/game_sources.rs:511-519 | a closed span `"body"` adds `body`, without its quotes, as the next string |
| GameSources.UnterminatedDropped | src/game_sources.rs:511-527 | a span that is never closed adds no string |
| GameSources.QuotedPair | src/game_sources.rs:493-528 | a line `pre"key"mid"value"post` with no quote elsewhere yields exactly `[key, value]` |
| GameSources.LastValue | src/game_sources.rs:431-442 | none exactly when no line assigns the key with two or more strings; otherwise the value of the last line that does |
| GameSources.ManifestOfLines | src/game_sources.rs:427-453 | a manifest has a trimmed non-empty name that some `name` line gave; no `name` line gives none; the app id is the last `appid` value or empty |
| GameSources.LastValueStep | src/game_sources.rs:437-441 | a later line assigning the key overrides the earlier ones; any other line keeps them |
| GameSources.ParseSteamManifest | src/game_sources.rs:427-453 | the line loop returns `ManifestOfLines` of the content's lines |
| GameSources.ManifestOfAppStateLines | src/game_sources.rs:552-565 | an `appid` line and a `name` line after a header give the manifest with that id and name |
| GameSources.LinePaths | src/game_sources.rs:475-484 | a line contributes at most one folder |
| GameSources.LibraryPaths | src/game_sources.rs:473-487 | no more folders than lines, and a folder is listed exactly when some line contributes it |
| GameSources.ParseLibraryFolders | src/game_sources.rs:473-487 | the line loop returns `LibraryPaths` of the content's lines, in order |
| GameSources.LibraryLine | src/game_sources.rs:534-550 | a `"path" "<p>"` line and a `"<digits>" "<p>"` line each contribute exactly `<p>` |
| GameSources.NormalizeWithoutBackslash | src/game_sources.rs:489-491 | a path without backslashes is kept as it is |
| GameSources.NormalizeCollapses | src/game_sources.rs:489-491 | a doubled backslash between plain parts becomes a single one |
| GameSources.IgnoredIgnoresCase | src/game_sources.rs:109-135 | whether a name is ignored does not depend on its case |
| GameSources.KeywordNameIgnored | src/game_sources.rs:122-129 | a name containing `proton`, `steam linux runtime`, `steamworks common redist` or `galaxy common redist`, in any case, is ignored |
| GameSources.IgnoredAppExamples | src/game_sources.rs:585-590 | Proton Experimental and the Sniper runtime are ignored by id, and `My Game` is kept |
| GameSources.KeptGameName | src/game_sources.rs:109-135 | a name with no keyword letter and no tool name, under an id that is not a runtime's, is not ignored |
| GameSources.HexDigitUpper | src/game_sources.rs:242 | `{:X}` gives an upper-case hexadecimal digit |
| GameSources.EncodeBytePercentEncoded | src/game_sources.rs:238-244 | each byte encodes to an unreserved character or `%XX` with upper-case digits |
| GameSources.PercentEncodedConcat | src/game_sources.rs:238-244 | concatenating two encoded texts gives an encoded text |
| GameSources.EncodeBytes | src/game_sources.rs:236-246 | every encoding is made of unreserved characters and `%XX` escapes |
| GameSources.EncodeUriComponent | src/game_sources.rs:236-246 | the byte loop returns the encoding of the text's UTF-8 bytes |
| GameSources.HexDigitValue | src/game_sources.rs:242 | the digit written for a nibble reads back as that nibble |
| GameSources.DecodeEncodedByte | src/game_sources.rs:238-244 | percent-decoding an encoded byte gives the byte back and goes on with the rest |
| GameSources.DecodeEncodedBytes | src/game_sources.rs:236-246 | percent-decoding the encoding of a byte string returns that byte string |
| GameSources.UriRoundTrip | src/game_sources.rs:236-246 | URL-decoding the encoding of any text succeeds and returns the text |
| GameSources.UnreservedUnchanged | src/game_sources.rs:239-240 | text of alphanumerics, `-`, `_`, `.` and `~` is its own encoding |
| GameSources.HeroicExec | src/game_sources.rs:221-234 | every Heroic command starts with `xdg-open heroic://launch/` |
| GameSources.HeroicExecUnreserved | src/game_sources.rs:221-234 | for an unreserved name, the local stores give `prefix + name` and any other store `prefix + store/name` |
| GameSources.HeroicExecRunners | src/game_sources.rs:612-627 | `wine`, `native` and `sideload` launch by name alone and `legendary` with its store |
| GameSources.UriEncodedPlain | src/game_sources.rs:236-246 | an encoding has no whitespace and no `/` |
| GameSources.NoWhitespaceNotPrefixed | src/launcher.rs:97-99 | text without whitespace never starts with the Heroic prefix, so stripping the prefix once leaves it whole |
| GameSources.SplitAtFirstSlash | src/launcher.rs:100-104 | `a/b` with no other slash splits into `[a, b]` |
| GameSources.HeroicAppNameAfterPrefix | src/launcher.rs:97-108 | the app name of a prefixed slash-separated URL is the decoded second part, or the first when there is only one |
| GameSources.LocalStoreNamesApp | src/game_sources.rs:221-233 | the launcher reads the app name back from a local-store command |
| GameSources.RemoteStoreNamesApp | src/game_sources.rs:221-233 | the launcher reads the app name back from a `store/name` command |
| GameSources.HeroicExecNamesApp | src/game_sources.rs:221-234 | for every store without whitespace or `/`, the app name read from the command is the game's own |
| GameSources.HeroicExecMonitorTarget | src/launcher.rs:97-114 | a Heroic game is monitored by `Any` of the Heroic targets of its own app name |
| GameSources.HeroicIsNotSteam | src/launcher.rs:67-79 | a Heroic command never takes the Steam branch |
| GameSources.ParseJsonBool | src/game_sources.rs:409-420 | a JSON boolean is itself and only booleans and strings give a value |
| GameSources.ParseJsonBoolIgnoresCase | src/game_sources.rs:414-419 | a string flag parses as its lower-case form does |
| GameSources.HeroicGameFromObject | src/game_sources.rs:321-407 | a game exactly when the install flag passes and both app name and title are present and non-empty once trimmed; the game carries those, the trimmed store and the Heroic launch key |
| GameSources.FromObjectFields | src/game_sources.rs:365-406 | the game built from an accepted object has exactly the trimmed fields it was read from |
| GameSources.FromObjectWellFormed | src/game_sources.rs:365-370 | a game read from an object has a trimmed non-empty app name and title |
| GameSources.AllWellFormedConcat | src/game_sources.rs:270-319 | well-formed lists stay well-formed when joined |
| GameSources.AllWellFormedSingle | src/game_sources.rs:283-286 | a list of one well-formed game is well-formed |
| GameSources.CollectedWellFormed | src/game_sources.rs:270-319 | every game `collect_heroic_games` finds has a trimmed non-empty app name and title |
| GameSources.CollectedObjectWellFormed | src/game_sources.rs:282-316 | the same for an object |
| GameSources.CollectedObjectGame | src/game_sources.rs:283-286 | an object that is a game yields that game alone, its members unsearched |
| GameSources.CollectedObjectSearched | src/game_sources.rs:288-315 | an object that is not a game yields what is under `installed`, then under `games`, then in its other members |
| GameSources.CollectItemsWellFormed | src/game_sources.rs:277-281 | the same for the items of an array |
| GameSources.CollectUnderWellFormed | src/game_sources.rs:288-293 | the same for the value under a key |
| GameSources.CollectValueWellFormed | src/game_sources.rs:298-314 | the same for one member's value |
| GameSources.CollectMemberWellFormed | src/game_sources.rs:295-315 | the same for one member |
| GameSources.CollectMembersWellFormed | src/game_sources.rs:295-315 | the same for all members |
| GameSources.CollectItemsStep | src/game_sources.rs:278-280 | one item more adds what that item yields |
| GameSources.CollectMembersStep | src/game_sources.rs:295-315 | one member more adds what that member yields |
| GameSources.CollectHeroicGames | src/game_sources.rs:270-319 | appends exactly `Collected(value)` to `games` |
| GameSources.CollectArrayInto | src/game_sources.rs:277-281 | the item loop appends what the items yield, in order |
| GameSources.CollectObjectInto | src/game_sources.rs:282-316 | an object appends the game it is, or what its keys and members yield |
| GameSources.CollectMembersInto | src/game_sources.rs:295-315 | the member loop appends what the members yield, in order |
| GameSources.CollectUnderKey | src/game_sources.rs:288-293 | `map.get(key)` appends what the value under the key yields, or nothing |
| GameSources.CollectUnderFirst | src/game_sources.rs:288-293 | the value under a key is that of its first member with the key |
| GameSources.CollectValueInto | src/game_sources.rs:298-314 | a member's value appends the game it is or what it contains |
| GameSources.CollectMemberInto | src/game_sources.rs:295-315 | one iteration appends what the member yields |
| GameSources.MemberSkipped | src/game_sources.rs:296-298 | `installed`, `games` and scalar members yield nothing |
| GameSources.MemberIsGame | src/game_sources.rs:300-304 | a member object that is a game, named by its key when it has no app name, yields that game |
| GameSources.MemberSearched | src/game_sources.rs:305-311 | any other object or array member is searched |
| GameSources.HeroicLibraryGamesWellFormed | src/game_sources.rs:257-268 | every game of a library file, parsed or not, has a trimmed non-empty app name and title |
| GameSources.ScalarUnderNothing | src/game_sources.rs:288-293 | scalars under a key yield nothing |
| GameSources.ScalarMembersNothing | src/game_sources.rs:295-315 | members that are all scalars yield nothing |
| GameSources.ScalarObjectNothing | src/game_sources.rs:282-316 | an object that is not a game and holds only scalars yields nothing |
| GameSources.GameObjectLookup | src/game_sources.rs:572-573 | what each key finds in a test entry |
| GameSources.GameObjectFlag | src/game_sources.rs:327-336 | a test entry's install flag is its `is_installed` |
| GameSources.GameObjectScalar | src/game_sources.rs:572-573 | a test entry holds only scalars |
| GameSources.InstalledGameObject | src/game_sources.rs:321-407 | an installed entry becomes a game with its names, its runner as store and `heroic:runner:app` as key |
| GameSources.UninstalledGameObject | src/game_sources.rs:338-341 | an entry marked not installed is refused when installation is required |
| GameSources.CollectItemsSingle | src/game_sources.rs:277-281 | an array of one value yields what that value yields |
| GameSources.CollectItemsPair | src/game_sources.rs:277-281 | an array of two values yields what each yields, in order |
| GameSources.GamesWrapperNotGame | src/game_sources.rs:288-293 | a `{"games": [...]}` wrapper is not a game and yields what its list yields |
| GameSources.FiltersRefused | src/game_sources.rs:567-583 | of an accepted entry and a refused scalar-only one, only the accepted one is collected |
| GameSources.FiltersUninstalled | src/game_sources.rs:567-583 | the installed and the uninstalled entry give the installed game only, with its runner as store |
| GameSources.BareArray | src/game_sources.rs:277-281 | a bare array of one game entry yields that game |
| GameSources.SideloadArray | src/game_sources.rs:592-610 | a sideload array entry keeps its runner, not the hint, as store |
| GameSources.ArtObjectLookup | src/game_sources.rs:634-641 | what each key finds in the art test entry |
| GameSources.ArtCoverPreferred | src/game_sources.rs:629-656 | `art_cover` is preferred to `art_square`, and the launch key is `heroic:sideload:testAppId` |
| GameSources.AppidFromManifestPath | src/game_sources.rs:463-471 | an id is all digits and the stem is `appmanifest_` plus the id; a stem of that shape always gives its id |
| GameSources.ManifestNameParts | src/game_sources.rs:455-461 | `appmanifest_<id>.acf` has no `/`, starts with `appmanifest_` and ends with `.acf` |
| GameSources.ManifestPathRoundTrip | src/game_sources.rs:455-471 | the manifest file of an id is recognised and gives the id back |
| GameSources.SteamManifestEntry | src/game_sources.rs:87-107 | an entry exactly when the file was read, parses, has an effective app id and is not ignored; it then has the name, `steam -applaunch <id>` and `steam:<id>` |
| GameSources.EffectiveAppid | src/game_sources.rs:91-95 | the manifest's id, or the file name's when the manifest has none |
| GameSources.AppidFallback | src/game_sources.rs:87-107 | a manifest without an id takes the id from its own file name |
| GameSources.SteamEntryMonitorTarget | src/launcher.rs:67-79 | a Steam entry is monitored as `SteamAppId` of its app id |
| GameSources.MergeGames | src/game_sources.rs:10-24 | merging never adds entries |
| GameSources.GameOrderEqual | src/game_sources.rs:20-21 | the sort key compares equal exactly for the pairs that dedup treats as the same |
| GameSources.GameOrderAntisymmetric | src/game_sources.rs:20 | swapping the operands flips the comparison |
| GameSources.GameOrderTransitive | src/game_sources.rs:20 | the comparison is transitive |
| GameSources.GameOrderIsTotal | src/game_sources.rs:20-21 | `(name, exec)` order is a total order whose equality is the dedup test |
| GameSources.MergeStrictlySorted | src/game_sources.rs:19-21 | the merged list is strictly increasing by `(name, exec)`, so no two entries share both |
| GameSources.MergeFromInputs | src/game_sources.rs:15-21 | every merged entry comes from one of the two scans |
| GameSources.MergeKeepsEveryGame | src/game_sources.rs:15-21 | every scanned entry survives, itself or as an entry with its name and command |
| GameSources.SortThree | src/game_sources.rs:664-665 | the stable sort of the test's three entries puts the duplicate second |
| GameSources.DedupThree | src/game_sources.rs:666 | dedup of the sorted entries drops the adjacent duplicate |
| GameSources.DeduplicationOrder | src/game_sources.rs:658-672 | the same game with commands `e1`, `e2`, `e1` merges to its first entry then the `e2` one |
| GameSources.Exec1BeforeExec2 | src/game_sources.rs:658-672 | `exec1` sorts before `exec2` |
| GameSources.DeduplicationExample | src/game_sources.rs:658-672 | the test's list merges to two entries, `exec1` then `exec2` |
| GameSources.HeroicEntry | src/game_sources.rs:168-175 | the entry has the title, Heroic command, cover, executable and launch key of the game |
| GameSources.KeptGames | src/game_sources.rs:162-176 | the loop keeps no more games than it reads |
| GameSources.KeptSkip | src/game_sources.rs:165-167 | an ignored game or an app name already seen is passed over |
| GameSources.KeptKeep | src/game_sources.rs:165-175 | any other game is kept and its app name marked seen |
| GameSources.KeptGamesSound | src/game_sources.rs:162-176 | every kept game comes from the input, is not ignored and had a name not seen before |
| GameSources.KeptGamesDistinct | src/game_sources.rs:162-176 | no two kept games share an app name |
| GameSources.NamesDistinctCons | src/game_sources.rs:165-175 | a new name in front of distinct names keeps them distinct |
| GameSources.SeenAfter | src/game_sources.rs:166 | the seen set only grows |
| GameSources.KeptCoversNames | src/game_sources.rs:162-176 | every game not ignored is kept or has its app name already seen or kept, witnessed by the kept index |
| GameSources.KeptCoversEveryName | src/game_sources.rs:162-176 | the same, stated with an existential |
| GameSources.SeenAfterNames | src/game_sources.rs:162-176 | afterwards a name is seen exactly when it was before or some game not ignored has it |
| GameSources.HeroicEntries | src/game_sources.rs:168-175 | one entry per kept game |
| GameSources.KeepHeroicStep | src/game_sources.rs:165-175 | the loop invariants hold after a game is kept |
| GameSources.AppendHeroicEntry | src/game_sources.rs:169-174 | pushing the next entry extends the entries of the kept games by one |
| GameSources.SkipHeroicStep | src/game_sources.rs:165-167 | the loop invariants hold after a game is passed over |
| GameSources.AddHeroicGames | src/game_sources.rs:162-176 | the loop appends the entries of `KeptGames` and leaves the seen set `SeenAfter` |
| GameSources.HeroicEntriesSnoc | src/game_sources.rs:169-174 | entries of one more game are the old ones plus that game's, with the next id |
| GameSources.ScanHeroicGames | src/game_sources.rs:137-212 | starting from an empty seen set, the scan returns the entries of the kept games of every library in reading order |
| GameSources.QFeed | src/game_sources.rs:499-525 | one iteration of the quoted-string loop: an escaped character is kept, `\` escapes inside quotes, `"` opens or closes a span, and only text inside a span is kept |
| GameSources.QFeedAll | src/game_sources.rs:499-525 | the quoted-string loop over a whole line |
| GameSources.QuotedStrings | src/game_sources.rs:493-528 | the reference strings of a VDF line: the closed spans the loop has collected when it ends |
| GameSources.Quoted | src/game_sources.rs:511-519 | a span `"body"` as it appears in a VDF line |
| GameSources.Between | src/game_sources.rs:511-524 | the loop is between spans: outside quotes, not escaping, nothing pending |
| GameSources.LineValue | src/game_sources.rs:432-441 | the value a line assigns to a key: its second string when its first is the key |
| GameSources.LastSome | src/game_sources.rs:431-442 | the last value found over the lines: none exactly when no line gives one, and otherwise one that no later line overrides |
| GameSources.NormalizeVdfPath | src/game_sources.rs:489-491 | `normalize_vdf_path`: each doubled backslash becomes a single one |
| GameSources.IsLibraryKey | src/game_sources.rs:481 | a first string that introduces a library folder: `path` in any case, or a run of ASCII digits, the empty run included |
| GameSources.IsIgnoredApp | src/game_sources.rs:109-135 | `is_ignored_app`: a runtime id, or a name naming a tool, in any case |
| GameSources.IsUnreservedChar | src/game_sources.rs:239 | the characters `encode_uri_component` keeps: ASCII letters and digits, `-`, `_`, `.` and `~` |
| GameSources.IsUnreservedByte | src/game_sources.rs:239 | the same test on a byte |
| GameSources.IsUpperHex | src/game_sources.rs:242 | a digit `{:02X}` writes: `0`-`9` or `A`-`F` |
| GameSources.EncodeByte | src/game_sources.rs:238-244 | one byte of the input: kept when unreserved, otherwise `%XX` in upper-case hexadecimal |
| GameSources.PercentEncoded | src/game_sources.rs:236-246 | every character is unreserved or starts a `%XX` escape in upper-case hexadecimal |
| GameSources.UriEncoded | src/game_sources.rs:236-246 | what `encode_uri_component` returns for a text: its UTF-8 bytes, each encoded |
| GameSources.IsLocalStore | src/game_sources.rs:223-228 | the stores Heroic launches by app name alone: none, `heroic`, `wine`, `native`, `proton` and `sideload` |
| GameSources.FlagOf | src/game_sources.rs:327-331 | the flag under a key, when it parses as a JSON flag |
| GameSources.InstalledFlag | src/game_sources.rs:327-336 | the install flag: the first of `installed`, `is_installed`, `isInstalled` and `install.is_installed` that parses |
| GameSources.InstallAccepted | src/game_sources.rs:338-344 | with `require_installed` only a flag that is true passes; without it only a flag that is false is refused |
| GameSources.AppNameOf | src/game_sources.rs:346-350 | the app name: `app_name`, else `appName`, else the key the object sits under |
| GameSources.TitleOf | src/game_sources.rs:351-355 | the title: `title`, else `name`, else `display_name` |
| GameSources.StoreOf | src/game_sources.rs:357-363 | the store: `runner`, else `store`, else `provider`, else `backend`, else the file's store hint |
| GameSources.HeroicLaunchKey | src/game_sources.rs:374-378 | `heroic:<store>:<app>`, or `heroic:<app>` without a store |
| GameSources.ExecutableOf | src/game_sources.rs:387-397 | the file name of `install.executable`, empty when it has none, none when there is no such text |
| GameSources.WellFormedGame | src/game_sources.rs:365-378 | a game's app name and title are trimmed and non-empty, and its launch key is built from its store and app name |
| GameSources.Collected | src/game_sources.rs:270-319 | the games `collect_heroic_games` appends for a value: an array's items in turn, an object that is a game, or what lies under an object's `installed`, `games` and other members |
| GameSources.CollectItems | src/game_sources.rs:277-281 | the games of an array's items, in order |
| GameSources.CollectUnder | src/game_sources.rs:288-293 | the games under the first member with a key, as `map.get` finds it |
| GameSources.CollectValue | src/game_sources.rs:288-293 | the games under one member's value |
| GameSources.CollectMember | src/game_sources.rs:295-315 | one iteration of the member loop: `installed` and `games` passed over, an object is a game or searched, an array searched, a scalar ignored |
| GameSources.CollectMembers | src/game_sources.rs:295-315 | the member loop over all members, in order |
| GameSources.AllWellFormed | src/game_sources.rs:270-319 | every game of a list is well formed |
| GameSources.HeroicLibraryGames | src/game_sources.rs:257-268 | `parse_heroic_library_json`: nothing for text that is not JSON, else the installed games collected from the value |
| GameSources.IsScalar | src/game_sources.rs:312 | a JSON value that is neither an object nor an array |
| GameSources.GameObject | src/game_sources.rs:572-573 | a Heroic library entry as the tests write it |
| GameSources.TrimmedName | src/game_sources.rs:365-370 | a non-empty name that is its own trim |
| GameSources.ArtObject | src/game_sources.rs:380-385 | an entry with both cover kinds, as the tests write it |
| GameSources.IsManifestFile | src/game_sources.rs:455-461 | `is_manifest_file`: a file name of the form `appmanifest_*.acf` |
| GameSources.ManifestFileName | src/game_sources.rs:455-470 | the manifest file name `appmanifest_<id>.acf` of an app id |
| GameSources.GameOrder | src/game_sources.rs:20 | the sort's comparison: name, then command |
| GameSources.SameGame | src/game_sources.rs:21 | the dedup's test: same name and same command |
| SystemUpdate.ParseInstallProgress | src/system_update.rs:288-316 | a result needs a trimmed line starting `(` whose first `/` comes before its first `)`; both counts fit in 64 bits and the package is one word without trailing `...` |
| SystemUpdate.ProgressOfTrimmed | src/system_update.rs:290-315 | the same conditions, once the line is trimmed |
| SystemUpdate.ProgressFields | src/system_update.rs:301-315 | the counts between `(`, `/` and `)` fit in 64 bits and the package is a single word without `...` |
| SystemUpdate.ProgressPackage | src/system_update.rs:307-313 | the package, when the tail has two or more words, is the second one with no whitespace and no trailing `...` |
| SystemUpdate.InstallProgressRoundTrip | src/system_update.rs:463-468 | every line `(c/t) verb package...` parses back to `(c, t, package)`, as `(1/5) installing firefox...` does |
| SystemUpdate.FieldsOfParts | src/system_update.rs:301-315 | digits between the separators and a package word in the tail give exactly those fields |
| SystemUpdate.ParseInstallProgressOfParts | src/system_update.rs:290-299 | a line starting `(` with its `/` before its `)` is parsed by its fields |
| SystemUpdate.ProgressLineParts | src/system_update.rs:294-307 | in `(cs/ts)tail` the first `/` and `)` are those written, and the slices are `cs`, `ts` and `tail` |
| SystemUpdate.ProgressPackageOfTail | src/system_update.rs:307-313 | ` verb package...` names `package` |
| SystemUpdate.ProgressPackageOfWords | src/system_update.rs:307-313 | a tail of two words gives the second without its `...` |
| SystemUpdate.DottedWord | src/system_update.rs:313 | `package...` is one word whose `trim_end_matches("...")` is `package` |
| SystemUpdate.TrimSpaceBeforeWords | src/system_update.rs:307 | trimming ` a b` gives `a b` |
| SystemUpdate.TwoWords | src/system_update.rs:308 | `a b` splits into the words `a` and `b` |
| SystemUpdate.ParseBuildingPackage | src/system_update.rs:319-328 | a result needs the `==> Making package:` prefix and is a non-empty word |
| SystemUpdate.BuildingPackageOfHeader | src/system_update.rs:480-485 | `==> Making package: <pkg> <rest>` names `<pkg>`, as in the `topgrade-bin` test |
| SystemUpdate.FourthWord | src/system_update.rs:321-324 | the fourth word of four words and a rest is the fourth one |
| SystemUpdate.ThirdWord | src/system_update.rs:321-324 | the third word of three words and a rest is the third one |
| SystemUpdate.SecondWord | src/system_update.rs:321-324 | the second word of two words and a rest is the second one |
| SystemUpdate.WordShifts | src/system_update.rs:321 | a word in front moves every later word one place on |
| SystemUpdate.ParseDownloadingPackage | src/system_update.rs:330-339 | a result exactly when the trimmed line ends in `downloading...`, and it is a non-empty word |
| SystemUpdate.DownloadingPackageOfLine | src/system_update.rs:470-478 | ` <pkg> downloading...` names `<pkg>`, as the linux-firmware test does |
| SystemUpdate.AnyCritical | src/system_update.rs:356-358 | true exactly when the package is, or starts with `<name>-` for, one of the given names |
| SystemUpdate.CheckRestartRequired | src/system_update.rs:341-360 | true exactly when some updated package matches a critical name |
| SystemUpdate.RestartRequiredAppend | src/system_update.rs:355-359 | a reboot is needed after an update exactly when one is needed for one of its parts |
| SystemUpdate.CriticalVariantsRestart | src/system_update.rs:342-358 | each of the ten critical names, and each `<name>-suffix`, needs a reboot |
| SystemUpdate.OtherInitialNoRestart | src/system_update.rs:342-358 | a package whose initial is none of the critical names' initials needs no reboot |
| SystemUpdate.ClassifyLine | src/system_update.rs:234-279 | a build error exactly when the lower-cased line starts with `-> error making:`; no branch reports Starting, Completed or Failed; a recorded package comes with the `Installing` status of `parse_install_progress` |
| SystemUpdate.KindEvents | src/system_update.rs:240-285 | each branch sends at most one status |
| SystemUpdate.LineEvents | src/system_update.rs:222-286 | the log line first, then at most one status, which is never Starting or Completed and is Failed exactly for a build error |
| SystemUpdate.KindPackages | src/system_update.rs:258-259 | each branch records at most one package |
| SystemUpdate.LinePackages | src/system_update.rs:258-259 | a line records at most one package |
| SystemUpdate.RecordedPackageIsReported | src/system_update.rs:258-264 | a recorded package is the one `parse_install_progress` gives, and the line sends its log then that `Installing` status |
| SystemUpdate.BuildErrorFails | src/system_update.rs:235-245 | `-> error making: msg` sends the log and `Failed(msg)` and records nothing |
| SystemUpdate.KindOfLine | src/system_update.rs:222-286 | what a line sends and records follows from its branch alone |
| SystemUpdate.ErrorLineClassified | src/system_update.rs:235-239 | an error line is classified as a build error with its trimmed message |
| SystemUpdate.ErrorLineParts | src/system_update.rs:235-239 | the lower-cased error line starts with the marker and the message is what follows it, trimmed |
| SystemUpdate.ErrorLineLower | src/system_update.rs:229-235 | the marker is already lower case, so lower-casing keeps it |
| SystemUpdate.ErrorLineMarker | src/system_update.rs:236-238 | `trim_start_matches` removes the marker once when a space follows it |
| SystemUpdate.FirstBreak | src/system_update.rs:179-187 | the earlier of the first `\n` and the first `\r`: a break with none before it, or none at all |
| SystemUpdate.FirstBreakAt | src/system_update.rs:179-187 | a break with none before it is the position found |
| SystemUpdate.Remainder | src/system_update.rs:178-199 | what is left holds no break and is a suffix of the buffer |
| SystemUpdate.PiecesRoundTrip | src/system_update.rs:178-199 | the drained pieces followed by the remainder make up the buffer: nothing lost or reordered |
| SystemUpdate.RoundTripStep | src/system_update.rs:189-190 | the round trip after the first piece gives that of the whole buffer |
| SystemUpdate.FlattenCons | src/system_update.rs:190 | joining pieces distributes over a first piece |
| SystemUpdate.PiecesShape | src/system_update.rs:189-190 | each drained piece ends in its only line break |
| SystemUpdate.PiecesCons | src/system_update.rs:190 | a well-shaped piece before well-shaped pieces keeps them well-shaped |
| SystemUpdate.RemainderHasNoPieces | src/system_update.rs:196-198 | a drained buffer holds no complete line, so draining it again does nothing |
| SystemUpdate.ChunkedPieces | src/system_update.rs:173-200 | reading the output in two chunks drains the same pieces and leaves the same remainder as reading it at once |
| SystemUpdate.LineOf | src/system_update.rs:191-195 | a piece yields at most one line, and never an empty one |
| SystemUpdate.LinesOfAppend | src/system_update.rs:178-199 | the lines of joined pieces are the lines of each part |
| SystemUpdate.EventsOfAppend | src/system_update.rs:222-286 | events and packages of joined lines are those of each part |
| SystemUpdate.LoggedLinesAppend | src/system_update.rs:230-232 | logged lines of joined events are those of each part |
| SystemUpdate.EveryLineLogged | src/system_update.rs:230-232 | every reported line is logged exactly once, in order, whatever status it also sends |
| SystemUpdate.PiecesStep | src/system_update.rs:189-195 | a drained piece is followed by what draining the rest yields |
| SystemUpdate.DrainStep | src/system_update.rs:189-190 | draining removes exactly the first piece |
| SystemUpdate.LinesOfCons | src/system_update.rs:191-195 | the lines of a first piece come before those of the rest |
| SystemUpdate.CarriageReturnLines | src/system_update.rs:525-553 | lines separated by `\r` with a final `\n` are each logged, in order, and the buffer is left empty |
| SystemUpdate.ThreeLines | src/system_update.rs:544-551 | the three logged lines in sequence form the expected list |
| SystemUpdate.BreakAfterLine | src/system_update.rs:189-195 | a trimmed line followed by a break is drained as that line |
| SystemUpdate.IntToString | src/system_update.rs:161 | the decimal text of an exit code is never empty |
| SystemUpdate.DebugCode | src/system_update.rs:161 | `{:?}` of an exit code is never empty |
| SystemUpdate.ExitOutcome | src/system_update.rs:150-170 | always a finished status; Completed exactly on success, with `restart_required` from the recorded packages; otherwise Failed with the exit-code or wait-failure message |
| SystemUpdate.DrainedPieceAccounted | src/system_update.rs:189-195 | draining one piece keeps what is reported plus what is still to come the same |
| SystemUpdate.PieceReport | src/system_update.rs:191-195 | a blank piece reports nothing, any other reports its trimmed line |
| SystemUpdate.OneLine | src/system_update.rs:194 | a single line reports its own events and packages |
| SystemUpdate.OutputMonitor.constructor | src/system_update.rs:72-78 | the read loop starts with nothing sent, no packages and an empty buffer |
| SystemUpdate.OutputMonitor.ParseOutputLine | src/system_update.rs:222-286 | appends the line's events to what was sent and its package, if any, to the recorded packages; the buffer is untouched |
| SystemUpdate.OutputMonitor.ProcessOutputBuffer | src/system_update.rs:173-200 | leaves the remainder in the buffer and reports every drained line, in order |
| SystemUpdate.OutputMonitor.DrainPiece | src/system_update.rs:189-195 | one turn takes the first piece off and reports its line, keeping the loop's accounting |
| SystemUpdate.OutputMonitor.FlushOutputBuffer | src/system_update.rs:202-220 | the buffer ends empty and what was left is reported as one line when it is not blank |
| SystemUpdate.OutputMonitor.HandleChildExit | src/system_update.rs:150-170 | sends exactly the exit outcome for the recorded packages and changes nothing else |
| SystemUpdate.ProgressLine | src/system_update.rs:464-469 | the line pacman prints for each package it installs or upgrades, `(k/n) verb package...` |
| SystemUpdate.MatchesCritical | src/system_update.rs:358 | a package is the critical package or starts with its name and a `-` |
| SystemUpdate.IsBreak | src/system_update.rs:179-180 | the two bytes the output buffer is split at, `\n` and `\r` |
| SystemUpdate.NoBreak | src/system_update.rs:179-188 | text holding neither line break |
| SystemUpdate.Pieces | src/system_update.rs:178-199 | the prefixes the loop drains, each up to and including its break |
| SystemUpdate.Flatten | src/system_update.rs:190 | the drained pieces put back together |
| SystemUpdate.IsPiece | src/system_update.rs:190 | a drained piece ends in a line break and holds no other |
| SystemUpdate.LinesOf | src/system_update.rs:191-195 | the trimmed, non-empty lines of the drained pieces |
| SystemUpdate.EventsOf | src/system_update.rs:222-286 | the progress messages the parser sends for a run of lines |
| SystemUpdate.PackagesOf | src/system_update.rs:265-283 | the packages the parser records as updated for a run of lines |
| SystemUpdate.LoggedLines | src/system_update.rs:230-232 | the lines that the `LogLine` messages carry, in order |
| SystemUpdate.Succeeded | src/system_update.rs:157 | `ExitStatus::success`: the process exited with code zero |
| SystemUpdateState.FinishedStates | src/system_update_state.rs:25-39 | finished exactly for Completed, Failed and NoUpdates, and every status is running or finished, never both |
| SystemUpdateState.NewState | src/system_update_state.rs:50-56 | status Starting, spinner tick 0 and an empty log, so a fresh state is running |
| CategoryList.ItemOrderAllows | src/category_list.rs:92-105 | `a` may precede `b` exactly when launched items come first, by descending timestamp, and never-launched ones by case-insensitive name |
| CategoryList.ItemOrderAntisymmetric | src/category_list.rs:93-104 | swapping the operands flips the comparison |
| CategoryList.ItemOrderTransitive | src/category_list.rs:93-104 | the comparison is transitive |
| CategoryList.ItemOrderIsTotal | src/category_list.rs:93-104 | the comparator is a total preorder, so the sort is well defined |
| CategoryList.SortItemsOrder | src/category_list.rs:92-105 | sorting permutes the items and orders every pair as the comparator allows |
| CategoryList.FirstWithId | src/category_list.rs:60 | the position of the first item with the id, or none when no item has it |
| CategoryList.UpdatedByIdChangesFirstOnly | src/category_list.rs:56-63 | only the first item with the id is replaced by `f` of itself; an unknown id changes nothing |
| CategoryList.CategoryList.constructor | src/category_list.rs:14-20 | the given items with the first selected |
| CategoryList.CategoryList.SetItems | src/category_list.rs:22-25 | replaces the items and clamps the selection into them |
| CategoryList.CategoryList.Clear | src/category_list.rs:27-30 | no items and selection 0 |
| CategoryList.CategoryList.IsEmpty | src/category_list.rs:32-34 | true exactly when there are no items |
| CategoryList.CategoryList.GetSelected | src/category_list.rs:36-38 | the item under the selection, none exactly when the index is past the end, which for a clamped list means it is empty |
| CategoryList.CategoryList.MoveLeft | src/category_list.rs:40-46 | moves one left and answers true exactly when not empty and not at the start; otherwise nothing changes |
| CategoryList.CategoryList.MoveRight | src/category_list.rs:48-54 | moves one right and answers true exactly when a next item exists; otherwise nothing changes |
| CategoryList.CategoryList.UpdateItemById | src/category_list.rs:56-63 | applies `f` to the first item with the id only, selection unchanged |
| CategoryList.CategoryList.AddItem | src/category_list.rs:65-69 | the items become the sorted old items plus the new one, and the selection is clamped |
| CategoryList.CategoryList.RemoveSelected | src/category_list.rs:71-79 | a selection on an item removes and returns it, keeping the others in order, then clamps; otherwise returns none and changes nothing |
| CategoryList.CategoryList.ClampIndex | src/category_list.rs:81-88 | an empty list selects 0, a selection past the end moves to the last item, any other stays |
| CategoryList.CategoryList.SortInPlace | src/category_list.rs:107-109 | the items become their sorted form, selection unchanged |
| CategoryList.RemovalKeepsOrder | src/category_list.rs:73 | `Vec::remove` keeps the other items in their order and loses only the removed one |
| SystemUpdateState.UpdateStatus.IsRunning | src/system_update_state.rs:25-35 | `is_running`: true for Starting, SyncingDatabases, CheckingUpdates, Downloading, Building and Installing |
| SystemUpdateState.UpdateStatus.IsFinished | src/system_update_state.rs:37-39 | `is_finished` is the negation of `is_running` |
| CategoryList.IntCmp | src/category_list.rs:96 | `Ord::cmp` on the launch timestamps |
| CategoryList.ItemOrder | src/category_list.rs:93-104 | the comparator of `sort_items`: launched items first, the most recent first, then the never-launched ones by lower-cased name |
| CategoryList.SortItems | src/category_list.rs:92-105 | `sort_items` is the stable `sort_by` with that comparator |
| CategoryList.UpdatedById | src/category_list.rs:56-63 | the list `update_item_by_id` leaves: `f` applied to the first item with the id, every other item as it was |
| CategoryList.IndexValid | src/category_list.rs:81-88 | the selection `clamp_index` establishes: on an item, or 0 when there is none |
| CategoryList.CategoryList.Valid | src/category_list.rs:81-88 | the list's invariant: its selection is valid for its items |
| VirtualKeyboard.LayoutType.Toggled | src/virtual_keyboard.rs:273-276 | the toggle always switches to the other layout |
| VirtualKeyboard.ToggleTwice | src/virtual_keyboard.rs:272-279 | toggling twice restores the layout |
| VirtualKeyboard.LayoutShape | src/virtual_keyboard.rs:315-421 | both tables have five rows of 10, 10, 9, 9 and 3 keys, with Shift, Backspace, the toggle, Space and OK in the same places |
| VirtualKeyboard.Stars | src/virtual_keyboard.rs:101 | `"*".repeat(n)` is `n` stars |
| VirtualKeyboard.VirtualKeyboard.constructor | src/virtual_keyboard.rs:70-79 | the initial value, the cursor on row 1 column 0, Qwerty, shift off, no limit, no password mode; the cursor is on a key |
| VirtualKeyboard.VirtualKeyboard.WithMaxLength | src/virtual_keyboard.rs:81-84 | sets the limit and nothing else |
| VirtualKeyboard.VirtualKeyboard.Password | src/virtual_keyboard.rs:86-89 | turns password mode on and nothing else |
| VirtualKeyboard.VirtualKeyboard.SetValue | src/virtual_keyboard.rs:95-97 | replaces the value and nothing else |
| VirtualKeyboard.VirtualKeyboard.DisplayValue | src/virtual_keyboard.rs:99-105 | in password mode one `*` per UTF-8 byte of the value, otherwise the value itself |
| VirtualKeyboard.VirtualKeyboard.MoveUp | src/virtual_keyboard.rs:107-112 | at the top nothing changes; otherwise one row up with the column clamped to that row; a cursor on a key stays on a key |
| VirtualKeyboard.VirtualKeyboard.MoveDown | src/virtual_keyboard.rs:114-120 | at the bottom nothing changes; otherwise one row down with the column clamped; a cursor on a key stays on a key |
| VirtualKeyboard.VirtualKeyboard.MoveLeft | src/virtual_keyboard.rs:122-126 | one column left, stopping at 0, row unchanged |
| VirtualKeyboard.VirtualKeyboard.MoveRight | src/virtual_keyboard.rs:128-135 | one column right when the row has a next key, otherwise unchanged |
| VirtualKeyboard.VirtualKeyboard.SelectCurrent | src/virtual_keyboard.rs:137-145 | a cursor off the layout gives no output and changes nothing; otherwise the key under it is pressed |
| VirtualKeyboard.VirtualKeyboard.Backspace | src/virtual_keyboard.rs:147-153 | an empty value gives no output; otherwise the last character goes and the new value is the output |
| VirtualKeyboard.VirtualKeyboard.HandleMessage | src/virtual_keyboard.rs:155-162 | the cursor moves to the pressed position; off the layout nothing else happens, on it that key is pressed from there |
| VirtualKeyboard.VirtualKeyboard.ClampCursor | src/virtual_keyboard.rs:229-239 | an out-of-range row and column move back to the last one, leaving the cursor on a key |
| VirtualKeyboard.VirtualKeyboard.HandleKeyPress | src/virtual_keyboard.rs:241-281 | a character or space is refused at the limit, else appended (upper-cased under shift) and output; Backspace, Submit, Shift and the toggle do what their branches do; shift and layout persist otherwise |
| AuthFlow.AuthFlow.constructor | src/auth_flow.rs:20-31 | awaiting the password for the prompt, an empty password, the responder present and nothing sent |
| AuthFlow.AuthFlow.SetPassword | src/auth_flow.rs:33-36 | the password becomes the value and nothing else changes |
| AuthFlow.AuthFlow.Submit | src/auth_flow.rs:38-51 | with the responder present, sends and returns the password and moves to Verifying; without it returns none and keeps the state; either way the password is wiped, the responder gone, and at most one value is ever sent |
| AuthFlow.AuthFlow.Cancel | src/auth_flow.rs:53-63 | always fails with `Authentication cancelled`, sends none only when the responder was still there, and wipes the password |
| AuthFlow.AuthFlow.ClearPassword | src/auth_flow.rs:65-68 | the password ends empty and nothing else changes |
| AuthFlow.AuthFlow.Drop | src/auth_flow.rs:71-75 | dropping the flow wipes the password |
| VirtualKeyboard.CharKey | src/virtual_keyboard.rs:42-48 | `KeyDef::char`: a character key one unit wide |
| VirtualKeyboard.Rows | src/virtual_keyboard.rs:307-313 | `current_layout`: the Qwerty table or the Symbols table, as the layout says |
| VirtualKeyboard.InBounds | src/virtual_keyboard.rs:137-145 | the cursor names a key: its row exists and the column is inside that row |
| VirtualKeyboard.VirtualKeyboard.CursorValid | src/virtual_keyboard.rs:229-239 | the cursor row and column that `clamp_cursor` keeps inside the current layout |
| VirtualKeyboard.VirtualKeyboard.KeyPressed | src/virtual_keyboard.rs:241-281 | what `handle_key_press` does with a key: a character or space is appended, upper-cased under shift, unless the limit is reached; Backspace drops the last character; Shift flips shift; the layout key toggles the layout and clamps the cursor; Enter submits the value; shift and layout stay as they were otherwise |
| AuthFlow.AuthFlow.Valid | src/auth_flow.rs:38-63 | the flow's invariant: the responder is still there exactly when no answer was sent, so an answer is sent at most once |
| Gamepad.ClassificationRules | src/gamepad.rs:240-268 | an SDL-mapped device is a gamepad; otherwise one lacking navigation (stick or D-pad) or South is a keyboard; otherwise the name decides |
| Gamepad.ClassificationExamples | src/gamepad.rs:382-444 | the Xbox controller and the generic gamepad are gamepads; the Keychron, the Wooting keyboard and the device without face buttons are keyboards |
| Gamepad.GenericGamepadName | src/gamepad.rs:407-418 | `Generic USB Gamepad` names no keyboard word |
| Gamepad.NoKeywordWithout | src/gamepad.rs:259-265 | a lower-cased name without `k`, `y` and `t` contains none of the three keyboard words |
| Gamepad.GenericLower | src/gamepad.rs:259 | the lower-cased name of the generic gamepad |
| Gamepad.WootingName | src/gamepad.rs:420-432 | `Wooting Keyboard` contains `keyboard` once lower-cased |
| Gamepad.MapAxisValue | src/gamepad.rs:270-278 | -1 exactly at or below -0.6, 1 exactly at or above 0.6, and 0 strictly between |
| Gamepad.AxisState.constructor | src/gamepad.rs:72-76 | both directions start at 0 |
| Gamepad.ProcessEvent | src/gamepad.rs:280-364 | returns `EventInput` of the event and the old directions, and records the new direction of exactly the stick axis that moved |
| Gamepad.ReleasesAreNavigation | src/gamepad.rs:304-361 | every release reported is of a navigation action |
| Gamepad.StickXTransitions | src/gamepad.rs:324-342 | no change reports nothing; entering -1 or 1 presses Left or Right; returning to 0 releases the old direction |
| Gamepad.StickYTransitions | src/gamepad.rs:343-361 | the same for the Y axis with Up and Down |
| Gamepad.ButtonMapping | src/gamepad.rs:281-322 | each button presses its action, both trigger pairs switch category, and every released button releases the navigation action it pressed |
| Gamepad.RepeaterInputRules | src/gamepad.rs:118-135 | only a navigation press arms the repeater, at the press time, and only a release of the held action clears it |
| Gamepad.RepeaterTickRules | src/gamepad.rs:139-147 | a tick re-sends the held action exactly when 400 ms have passed since the press and 100 ms since the last send, then moves the last send to now |
| Gamepad.NoRepeatBeforeDelay | src/gamepad.rs:122-146 | a freshly armed repeater stays silent for the first 400 ms |
| Gamepad.NamedLikeKeyboard | src/gamepad.rs:259-264 | the name check: the lower-cased name contains `keyboard`, `system control` or `consumer control` |
| Gamepad.ClassifyAsKeyboard | src/gamepad.rs:240-267 | an SDL-mapped device is a gamepad; one without a stick or d-pad and face buttons is a keyboard; otherwise the name decides |
| Gamepad.PressAction | src/gamepad.rs:282-302 | the action each pressed button reports: South selects, East goes back, West opens the menu, North adds an app, the d-pad moves, the triggers change category, Select shows help |
| Gamepad.ReleaseAction | src/gamepad.rs:305-322 | only the d-pad and the four triggers report a release, of the action their press reports |
| Gamepad.IsNavAction | src/gamepad.rs:366-376 | the four moves and the two category changes are the actions that repeat |
| Gamepad.AxisInput | src/gamepad.rs:324-362 | one stick axis: entering -1 or 1 presses that direction, returning to 0 releases the old one, and no change reports nothing |
| Gamepad.EventInput | src/gamepad.rs:280-364 | `process_event`: buttons by the two tables, the left stick by the axis rule, anything else nothing |
| Gamepad.RepeaterOnInput | src/gamepad.rs:117-133 | a pressed navigation action starts a repeater now; releasing the held action stops it; any other input leaves it |
| Gamepad.RepeaterTick | src/gamepad.rs:136-146 | a held action is sent again once the delay has passed since the press and the interval since the last send, which then moves to now |
| Ui.NextGridIndex | src/ui.rs:597-605 | an index inside the list stays inside it, and any move is exactly one row up or down or one step left or right |
| Ui.GridMovesWhenPossible | src/ui.rs:597-605 | each direction moves exactly when its target cell exists (up needs a row above, down a cell below within the list, left a predecessor, right a successor) and every other action leaves the index alone |
| Ui.GridExamples | src/ui.rs:1192-1206 | in a ten-item grid of three columns, index 5 moves up to 2 while index 1 in the first row stays put |
| Ui.ClampIndex | src/ui.rs:895-903 | the clamped index is valid for the list, unchanged when already in range, and the last item when past the end of a non-empty list |
| Ui.MenuStep | src/ui.rs:618-626 | Up saturates at 0, Down stops at the last menu entry, so an entry inside the menu stays inside it |
| Ui.SortByName | src/ui.rs:1162-1165 | sorting keeps the number of items |
| Ui.SortByNameOrders | src/ui.rs:1162-1165 | the sorted items are a permutation of the input and ordered by name |
| Ui.EntriesOf | src/ui.rs:1146-1161 | only launch items become config entries, so there are never more entries than items |
| Ui.SavedEntryRoundTrip | src/model.rs:60-80 | an entry whose icon is not an http(s) URL and which has no launch key survives loading as an item and saving back unchanged |
| Ui.SavedConfigRoundTrip | src/ui.rs:1146-1161 | loading a whole config of such entries (no URL icon, no launch key) and saving it again gives the same config, in the same order |
| Ui.NotYetAdded | src/ui.rs:247-267 | filtering the found desktop apps never adds any |
| Ui.NotYetAddedMembers | src/ui.rs:247-267 | an app is offered exactly when it was found and no launch item already runs its command |
| Ui.ApplyProgress | src/ui.rs:313-332 | a finished update ignores progress; the log only grows, by at most one line; a status change applies while running and nothing else changes the status |
| Ui.FinishedIsFinal | src/ui.rs:313-332 | once finished, any sequence of further progress messages leaves the dialog state unchanged |
| Ui.Cancelled | src/ui.rs:337-345 | cancelling fails the update with the cancelled-by-user message, a finished state, unless it is installing, where it has no effect |
| Ui.CancelThenProgress | src/ui.rs:313-345 | after a successful cancel no later progress message can replace the cancelled result |
| Ui.Launcher.constructor | src/ui.rs:98-145 | a new launcher shows the empty Apps list with the four system items shutdown, suspend, system update and exit, no dialog, no status and no running game |
| Ui.Launcher.ClampSelectedIndex | src/ui.rs:895-903 | the selection becomes the clamped index, which is valid for the active list |
| Ui.Launcher.CycleCategory | src/ui.rs:860-865 | the next category is shown from its first item with the status cleared |
| Ui.Launcher.CycleCategoryBack | src/ui.rs:867-872 | the previous category is shown from its first item with the status cleared |
| Ui.Launcher.ActivateSelected | src/ui.rs:791-858 | with no selected item nothing happens; otherwise a launch monitors the game only if it started and reports the start error otherwise, system update opens the dialog, shutdown and suspend call systemctl and report a failure, and exit ends the process; the dialog is left as it was except for the update dialog |
| Ui.Launcher.HandleContextMenuNavigation | src/ui.rs:607-669 | the outcome `ContextMenuNavigated` states, and the launcher stays valid |
| Ui.Launcher.HandleHelpModalNavigation | src/ui.rs:671-679 | Back and ShowHelp close the help dialog; every other action leaves it open |
| Ui.Launcher.SystemUpdateProgress | src/ui.rs:313-332 | progress updates only an open update dialog, by the progress rule, and never a finished one |
| Ui.Launcher.CancelSystemUpdate | src/ui.rs:337-345 | an open update dialog is cancelled by the cancel rule; no other dialog is touched |
| Ui.Launcher.HandleSystemUpdateNavigation | src/ui.rs:681-709 | the outcome `SystemUpdateNavigated` states |
| Ui.Launcher.AvailableAppsLoaded | src/ui.rs:247-267 | the picker offers exactly the found apps not yet added, from its first cell |
| Ui.Launcher.AddSelectedApp | src/ui.rs:268-297 | the picked app becomes a new launch entry in the name-sorted app list, leaves the offer list, the picker closes and the config is saved; with nothing picked nothing changes |
| Ui.Launcher.HandleAppPickerNavigation | src/ui.rs:755-789 | the outcome `AppPickerNavigated` states, and the launcher stays valid |
| Ui.Launcher.HandleNavigation | src/ui.rs:538-595 | Quit exits and changes nothing; with a dialog open the outcome is `ModalNavigated`, otherwise `GridNavigated`; apps change only in the context menu and the app picker; the launcher stays valid |
| Ui.Launcher.HandleGridNavigation | src/ui.rs:547-594 | the outcome `GridNavigated` states, and the launcher stays valid |
| Ui.Launcher.HandleModalNavigation | src/ui.rs:528-536 | an open dialog takes the action and nothing is returned exactly when none is open, in which case nothing changes; the outcome is `ModalNavigated` |
| Ui.Launcher.ContextMenuNavigated | src/ui.rs:607-669 | outside the menu nothing changes; Select on Launch activates as `activate_selected` does, keeping apps and selection; Remove Entry drops the selected app, clamps the selection and saves the config, changing nothing without a selection, and the menu then reopens at that entry, as the code falls through; Select on Quit exits with the menu left open; otherwise apps, selection, status and running flag stay and there is no effect, Up and Down step within the category's menu, Select on any other entry (Close), Back and ContextMenu close it, and every other action leaves it as it was |
| Ui.Launcher.SystemUpdateNavigated | src/ui.rs:681-709 | with no update dialog nothing changes; a completed update that needs a restart reboots on Select (a failure goes to the status) and closes on Back or ShowHelp; a finished one closes on Back, Select or ShowHelp; a running one that is not installing is marked cancelled by the user on Back; every other action changes nothing and has no effect |
| Ui.Launcher.AppPickerNavigated | src/ui.rs:755-789 | with an open picker and apps on offer Select adds the app under the cursor as `AddSelectedApp` does; otherwise apps, offer list and selection stay and there is no effect: with nothing on offer only Back and AddApp close, Back and AddApp close an open picker, and every other action moves the picker's grid selection |
| Ui.Launcher.GridNavigated | src/ui.rs:547-594 | Select activates as `activate_selected` does; every other action keeps the running flag, reloads the offer list only for AddApp in Apps, steps the category on Next/Prev (resetting the selection and the status), clears the status on Back, opens help, the context menu (non-empty list) or the app picker, and moves the grid selection on a direction over a non-empty list |
| Ui.Launcher.ModalNavigated | src/ui.rs:528-536 | each open dialog's outcome, with the category kept: help closes on Back or ShowHelp and changes nothing else; the context menu, app picker and update dialog outcomes, each keeping the fields its handler does not own |
| Ui.CategoryCycle | src/ui.rs:1179-1191 | Apps, Games and System follow each other, and three steps come back to the start |
| Ui.ContextMenuMax | src/ui.rs:608-611 | the last menu index: 3 for apps (Launch, Remove Entry, Quit, Close), 2 otherwise |
| Ui.NameOrder | src/ui.rs:1162-1165 | `sort_items`'s comparison: names compared byte-wise |
| Ui.EntryOf | src/ui.rs:1146-1161 | exactly the launch items give a config entry, and it carries no launch key, as the entry literal writes none |
| Ui.LaunchExecs | src/ui.rs:249-256 | the commands of the launch items, as `existing_execs` collects them |
| Ui.ApplyAll | src/ui.rs:313-332 | a run of progress messages applied to the update dialog in order |
| Ui.Launcher.ActiveItems | src/ui.rs:904-910 | the list shown for the current category |
| Ui.Launcher.Valid | src/ui.rs:51-117 | at least one column, and the selection lies inside the shown list or is 0 for an empty one |
| Ui.Launcher.Activated | src/ui.rs:791-858 | `activate_selected`'s outcome per item kind from the state before to the state after: launch, system update, shutdown, suspend, exit; with nothing selected nothing happens |
| Ui.Launcher.RemoveSelectedEntry | src/ui.rs:634-643 | the Remove Entry arm as intended: the selected app is dropped, the selection clamped, the config saved, and the menu stays closed; with no app selected only the menu closes |
| Ui.Launcher.AddedSelectedApp | src/ui.rs:268-297 | the `AddSelectedApp` outcome: the app under the cursor joins the name-sorted list under the fresh id, leaves the offer list, the picker closes and the config is saved; with none under the cursor nothing changes |
| App.SavedEntry | src/app.rs:341-354 | only launch items give a config entry; it carries the item's id, name, command, icon and game executable and, as the literal has no launch key, none |
| App.SavedEntries | src/app.rs:341-354 | the saved list never has more entries than there are items |
| App.SavedEntriesOfLaunchItems | src/app.rs:908-925 | when every app is a launch item, as the removal's `unreachable!()` relies on, one entry per item is saved, field for field |
| App.NavigateGrid | src/app.rs:852-872 | the index moves by the grid rule, stays inside the list, and with at least one column the move is reported exactly when the index changed |
| App.SortKeepsLaunchItems | src/app.rs:335-337 | pushing a launch item and re-sorting gives the old items plus the new one, all launch items |
| App.Launcher.ClampSelectedIndex | src/app.rs:1213-1220 | the selection becomes the clamped index, valid for the active list |
| App.Launcher.CycleCategory | src/app.rs:1178-1183 | the next category is shown from its first item with the status cleared |
| App.Launcher.CycleCategoryBack | src/app.rs:1185-1190 | the previous category is shown from its first item with the status cleared |
| App.Launcher.HandleContextMenuNavigation | src/app.rs:874-957 | the index stays within the menu, the launcher stays valid, and the outcome is `ContextMenuNavigated` |
| App.Launcher.ContextMenuNavigated | src/app.rs:874-957 | outside the menu nothing changes; Remove Entry removes exactly the selected app, clamps the selection and saves the rest, changing nothing without a selection, and the menu then reopens at that entry, as the code falls through to line 955; otherwise apps and selection stay: Select on Launch closes the menu and hands over to activation, Select on Quit exits with the menu left open, Select on any other entry (Close), Back and ContextMenu close it with no effect, Up and Down step, and every other action keeps it at its index |
| App.Launcher.AvailableAppsLoaded | src/app.rs:297-317 | the offer list is the found apps whose command no launch item has, and the picker restarts at its first cell |
| App.Launcher.AddSelectedApp | src/app.rs:318-366 | an in-range pick adds exactly one launch item, re-sorts the apps by name, saves them, removes the pick from the offers and closes the picker; otherwise nothing changes |
| Model.Category.Next | src/model.rs:22-28 | the next category is a different one |
| Model.Category.Prev | src/model.rs:30-36 | the previous category is a different one |
| Model.NextPrevInverse | src/model.rs:22-36 | `prev` undoes `next` and `next` undoes `prev` |
| Model.NextPeriodThree | src/model.rs:22-28 | three `next` steps return to the start, two never do |
| Model.FromAppEntry | src/model.rs:60-80 | id, name and game executable are kept, the command becomes a launch action, an http(s) icon moves to the source image URL, any other icon stays, and never both are set |
| Model.SystemUpdateItem | src/model.rs:83-92 | the update item is not a launch item and has no icon |
| Model.ShutdownItem | src/model.rs:94-103 | the shutdown item is not a launch item and has its bundled icon |
| Model.SuspendItem | src/model.rs:105-114 | the suspend item is not a launch item and has its bundled icon |
| Model.ExitItem | src/model.rs:116-125 | the exit item is not a launch item and has its bundled icon |
| Model.NewAppEntry | src/model.rs:139-147 | a new entry keeps name, command and icon under the given id, with no game executable and no launch key |
| Model.WithExecutable | src/model.rs:149-152 | only the game executable changes, to the argument |
| Model.WithLaunchKey | src/game_sources.rs:105 | only the launch key changes, to the argument |
| Model.BuildersCommute | src/game_sources.rs:105 | the two builder steps commute, and the executable reaches the launch item |
| Model.AppEntryExamples | src/model.rs:159-182 | the model.rs tests: a new entry keeps its icon, and the item built from it keeps the name and launches |
| App.Launcher.ActiveItems | src/app.rs:1222-1228 | the list of the current category: the apps, the games or the system items |
| App.Launcher.Valid | src/app.rs:901-931 | the launcher's invariant: at least one column, a selection valid for the shown list, and only launch items among the apps, which the removal's `unreachable!()` needs |
| App.Launcher.RemoveSelectedEntry | src/app.rs:901-931 | the Remove Entry arm as intended: the selected app is removed and the rest saved, the selection is clamped, and the menu ends closed; with the selection past the apps nothing but the menu changes |
| Model.IsUrl | src/model.rs:64 | an icon counts as a URL when it starts with `http://` or `https://` |
| Model.SystemItem | src/model.rs:83-125 | the shape shared by the four system items: the given id, name, icon and action, with no image URL and no game executable |
| Roms.Close | src/snes9x.rs:239-241 | a closing bracket lowers its counter by one, saturating at the i32 minimum under the i32 rule, and not below zero under the guarded rule of src/simple64.rs |
| Roms.ExtractTitle | src/snes9x.rs:229-248 | the character loop computes the title function, and the title has no bracket characters |
| Roms.TitleRunAppend | src/snes9x.rs:236-245 | scanning two pieces in turn is scanning their concatenation |
| Roms.TitleRunKeepsNoBrackets | src/snes9x.rs:236-245 | the scan never adds a bracket character to a bracket-free title |
| Roms.TitleHasNoBrackets | src/snes9x.rs:229-248 | no `(`, `)`, `[` or `]` ever reaches the title |
| Roms.PlainTextKept | src/snes9x.rs:242 | outside every bracket, bracket-free text is appended unchanged |
| Roms.HiddenTextDropped | src/snes9x.rs:242-243 | inside an open bracket, bracket-free text is dropped and the counters stay |
| Roms.TagDropped | src/snes9x.rs:236-245 | a whole `(...)` or `[...]` tag leaves title and counters as they were |
| Roms.TagsLeaveSpaces | src/snes9x.rs:236-245 | a run of space-led tags leaves only one space per tag |
| Roms.TrimEndDropsSpaces | src/snes9x.rs:247 | trailing spaces go and a non-blank end stays |
| Roms.TitleOfNameAndTags | src/snes9x.rs:263-281 | a trimmed, bracket-free name followed by space-led tags gives exactly the name, as the four test titles do |
| Roms.NegativeDepthHides | src/snes9x.rs:239 | under the i32 rule a negative round counter hides all text until a `(` |
| Roms.UnmatchedCloserHidesRest | src/snes9x.rs:239-242 | under the i32 rule an unmatched `)` hides everything after it unless a `(` follows |
| Roms.UnmatchedCloserIgnored | src/simple64.rs:163-168 | under the guarded rule an unmatched `)` has no effect |
| Roms.StopAtZeroNeverNegative | src/simple64.rs:163-174 | under the guarded rule neither counter goes below zero |
| Roms.FirstExisting | src/snes9x.rs:216-225 | a found cover is an existing file |
| Roms.FindCoverOrder | src/snes9x.rs:216-225 | png, jpg, jpeg and webp siblings are tried in that order and the first existing one wins; with none there is no cover |
| Roms.FirstExistingStep | src/snes9x.rs:217-224 | each extension is tried before the rest of the list |
| Roms.ExpandTilde | src/snes9x.rs:155-166 | a value not starting with `~`, or with no known home, is used as it is |
| Roms.ExpandedUnderHome | src/snes9x.rs:156-161 | a `~` value lands under the home directory and ends with the rest after its leading slashes |
| Roms.RomEntry | src/snes9x.rs:191-214 | the entry has the fresh id, the given command, the bracket-free title of the stem, an existing cover if any, no game executable, and the launch key of emulator name and file name |
| Roms.RomEntryOfTaggedFile | src/snes9x.rs:191-214 | a ROM `<name> <tags>.<ext>` is listed as `name` and keyed by its whole file name |
| Roms.IsBracket | src/snes9x.rs:237-240 | the four characters that move a depth counter: `(`, `)`, `[` and `]` |
| Roms.NoBrackets | src/snes9x.rs:236-245 | text with none of the four bracket characters |
| Roms.TitleStep | src/snes9x.rs:237-243 | one iteration of the title loop: brackets move their counter, other characters are kept only at depth zero in both |
| Roms.TitleRun | src/snes9x.rs:236-245 | the title loop over a whole text |
| Roms.Title | src/snes9x.rs:229-248 | the reference title of a file stem: the loop's kept text, trimmed |
| Roms.Bracketed | src/snes9x.rs:227-228 | a `(...)` or `[...]` tag as it appears in a file name |
| Roms.Tags | src/snes9x.rs:263-281 | a run of tags each preceded by one space, as in the test names |
| Roms.PlainTags | src/snes9x.rs:263-281 | tags whose texts hold no bracket characters |
| Roms.Spaces | src/snes9x.rs:236-247 | n spaces, what a run of tags leaves in the title before the trim |
| Roms.FindCover | src/snes9x.rs:216-225 | `find_cover`: the png, jpg, jpeg and webp siblings tried in turn against the files on disk |
| Roms.IsComment | src/snes9x.rs:129-132 | a trimmed configuration line starting with `;` or `#` |
| Roms.IsHeader | src/snes9x.rs:134-137 | a trimmed configuration line starting with `[` and ending with `]` |
| Roms.StemOrEmpty | src/snes9x.rs:230 | the file stem of a path, empty when it has none |
| Roms.FileNameOrEmpty | src/snes9x.rs:206-209 | the file name of a path, empty when it has none |
| Snes9x.ValidExtensionOfFile | src/snes9x.rs:179-189 | a ROM file is accepted exactly when its extension, lowercased, is sfc, smc, fig, swc, bs or st |
| Snes9x.NoExtensionNoRom | src/snes9x.rs:179-189 | a file without an extension is never a ROM |
| Snes9x.DirectoryValue | src/snes9x.rs:142-153 | a line without `=` names no directory, and a named one is non-empty with its surrounding quotes gone |
| Snes9x.LineEffectOf | src/snes9x.rs:127-172 | a line yields a directory only when that directory exists |
| Snes9x.ConfigDirs | src/snes9x.rs:126-176 | the lines yield at most one directory, and an existing one |
| Snes9x.ParseConfig | src/snes9x.rs:118-177 | an unreadable file gives nothing; otherwise the line loop returns the line rule's result: at most one directory, and an existing one |
| Snes9x.OnlyFilesSection | src/snes9x.rs:134-141 | no line outside `[Files]` yields a directory until a `[Files]` header |
| Snes9x.CommentSkipped | src/snes9x.rs:129-132 | a `;` or `#` line is skipped in any section |
| Snes9x.FirstDirectoryWins | src/snes9x.rs:140-172 | inside `[Files]`, the first `lastdirectory` line whose expanded value exists is the result, and no later line is read |
| Snes9x.MissingDirectorySkipped | src/snes9x.rs:142-172 | a directory line with an empty value or a directory that does not exist is passed over |
| Snes9x.CollectRomDirectories | src/snes9x.rs:19-28 | every configuration file's directories are appended, then sorted and deduplicated |
| Snes9x.SortAndDedupSpec | src/snes9x.rs:27-28 | the directories come out in strictly increasing path order, none twice, each one found, and every found directory represented |
| Snes9x.SnesExec | src/snes9x.rs:196-204 | the command starts with the binary and ends with the quoted path; `snes9x` gets `-fullscreen`, any other binary two spaces |
| Snes9x.ProcessRom | src/snes9x.rs:191-214 | the entry has the bracket-free title of the stem, the launch command, the first existing cover and the key `snes9x:<file name>` |
| Snes9x.ProcessRomOfTaggedFile | src/snes9x.rs:502-543 | a ROM `<name> <tags>.<ext>` is listed as `name` and keyed `snes9x:` plus its whole file name |
| Snes9x.IsValidExtension | src/snes9x.rs:179-189 | the lowercased extension is `sfc`, `smc`, `fig`, `swc`, `bs` or `st`; a path without one is not a ROM |
| Snes9x.IsDirectoryKey | src/snes9x.rs:141 | a trimmed line starting `lastdirectory` in any case |
| Snes9x.AllConfigDirs | src/snes9x.rs:20-24 | the configured directories of every configuration file in turn, none for an unreadable file |
| Snes9x.AllConfigDirsStep | src/snes9x.rs:20-24 | the directories from file i on are those of file i, then those of the files after it |
| Snes9x.SortAndDedup | src/snes9x.rs:27-28 | `sort()` then `dedup()` on the directories, by path order and path equality |
| Mupen64plus.ValidExtensionOfFile | src/mupen64plus.rs:128-138 | a ROM file is accepted exactly when its extension, lowercased, is z64, n64, v64 or zip |
| Mupen64plus.SevenZipNotMatched | src/mupen64plus.rs:418-422 | a `.7z` archive is not a ROM |
| Mupen64plus.SegmentDirs | src/mupen64plus.rs:96-119 | the pieces yield no more directories than there are pieces, all existing |
| Mupen64plus.ValueDirs | src/mupen64plus.rs:88-119 | a value holding `@Invalid()` yields nothing, and any other yields only existing directories |
| Mupen64plus.LineEffectOf | src/mupen64plus.rs:70-85 | a line counts as a `roms=` line only inside `[Paths]` with that exact prefix, its value unquoted; a non-comment `[...]` line is exactly a section header |
| Mupen64plus.ConfigDirs | src/mupen64plus.rs:69-125 | the lines yield only existing directories |
| Mupen64plus.ParseConfig | src/mupen64plus.rs:61-126 | an unreadable file gives nothing; otherwise the line loop returns the line rule's result, existing directories only |
| Mupen64plus.ConfigDirsStep | src/mupen64plus.rs:69-122 | one line is skipped, switches section, or ends the scan with its value's directories |
| Mupen64plus.CollectSegmentDirs | src/mupen64plus.rs:96-119 | the segment loop collects exactly the segment rule's directories |
| Mupen64plus.OnlyPathsSection | src/mupen64plus.rs:78-84 | no line outside `[Paths]` yields a directory until a `[Paths]` header |
| Mupen64plus.FirstRomsLineWins | src/mupen64plus.rs:84-121 | the first `roms=` line in `[Paths]` decides and later lines are not read |
| Mupen64plus.InvalidMarkerGivesNothing | src/mupen64plus.rs:90-93 | a `roms=` value holding `@Invalid()` empties the whole result |
| Mupen64plus.SegmentDirsAppend | src/mupen64plus.rs:96-119 | two runs of segments contribute separately and in order |
| Mupen64plus.BlankSegmentSkipped | src/mupen64plus.rs:97-100 | an empty or blank segment contributes nothing |
| Mupen64plus.MissingSegmentSkipped | src/mupen64plus.rs:115-118 | a segment naming a directory that does not exist contributes nothing |
| Mupen64plus.SegmentDirsOfPlainDirs | src/mupen64plus.rs:96-119 | existing, plainly written directories are all kept, in order |
| Mupen64plus.RomsLineAfterPathsHeader | src/mupen64plus.rs:333-347 | a `[Paths]` header followed by a `roms=` line yields that line's directories, whatever follows |
| Mupen64plus.RomsLineInPaths | src/mupen64plus.rs:84-121 | inside `[Paths]` a `roms=` line decides, whatever follows |
| Mupen64plus.RomsLineEffect | src/mupen64plus.rs:84-88 | inside `[Paths]` a `roms=` line is classified by its value with the quotes stripped |
| Mupen64plus.TrimmedLineDecides | src/mupen64plus.rs:84-121 | a trimmed `roms=` line ends the scan with its value's directories |
| Mupen64plus.HeaderEntersSection | src/mupen64plus.rs:78-81 | a section header switches the scan into `[Paths]` exactly when it is `[Paths]` |
| Mupen64plus.PathsSectionListsDirs | src/mupen64plus.rs:234-259 | `[Paths]` then `roms=d1\|d2\|...`, quoted or not, yields exactly the listed existing directories |
| Mupen64plus.ListedValueUnquotes | src/mupen64plus.rs:350-364 | a quoted or bare list unquotes to the bare `\|`-joined list |
| Mupen64plus.ValueDirsOfListed | src/mupen64plus.rs:96-119 | a `\|`-joined list of existing directories splits back into them, all kept |
| Mupen64plus.N64Exec | src/mupen64plus.rs:145 | the command is `mupen64plus --fullscreen` and the quoted path |
| Mupen64plus.ProcessRom | src/mupen64plus.rs:140-155 | the entry has the bracket-free title of the stem (i32 rule), the launch command, the first existing cover and the key `mupen64plus:<file name>` |
| Mupen64plus.ProcessRomOfTaggedFile | src/mupen64plus.rs:204-214 | a ROM `<name> <tags>.<ext>` is listed as `name` and keyed by its whole file name |
| Mupen64plus.IsValidExtension | src/mupen64plus.rs:128-138 | the lowercased extension is `z64`, `n64`, `v64` or `zip`, so `.7z` is not a ROM here |
| Mupen64plus.PlainDir | src/mupen64plus.rs:96-118 | a directory as written by hand: non-empty, already trimmed, no `~`, no `\|`, and existing |
| Mupen64plus.RomsLineTrimmed | src/mupen64plus.rs:84-85 | a `roms=` line whose value does not end in whitespace is its own trim |
| Mupen64plus.ListedValue | src/mupen64plus.rs:245 | the `roms=` value listing directories separated by `\|`, quoted or bare |
| Mupen64plus.Listable | src/mupen64plus.rs:234-260 | directories listable by hand: plain, not starting or ending in a quote, and not spelling the invalid marker |
| Mupen64plus.ListedEnds | src/mupen64plus.rs:84-96 | the bare list is non-empty and neither starts nor ends with a quote, nor ends with whitespace |
| Mupen64plus.QuotedEnds | src/mupen64plus.rs:84-88 | quoting a value keeps its end free of whitespace |
| Mupen64plus.JoinEnds | src/mupen64plus.rs:96 | a join starts with its first part and ends with its last |
| Mupen64plus.TrimQuotes | src/mupen64plus.rs:88 | `trim_matches('"')` on a quoted or bare value gives the bare value |
| Simple64.ValidExtensionOfFile | src/simple64.rs:103-111 | a ROM file is accepted exactly when its extension, lowercased, is z64, n64, v64, zip or 7z |
| Simple64.ParseConfig | src/simple64.rs:73-101 | an unreadable `gui.conf` gives no directory and no recent ROMs; otherwise the line loop computes the line rule over every line |
| Simple64.PushAll | src/simple64.rs:90-93 | every part is pushed, in order, after what was already collected |
| Simple64.LastRomDir | src/simple64.rs:83-88 | a chosen ROM directory always exists |
| Simple64.ConfigLineParts | src/simple64.rs:79-96 | a line may set the directory and may append recent ROMs, independently |
| Simple64.ConfigRunSnoc | src/simple64.rs:78-98 | the lines are processed one after another, in order |
| Simple64.ConfigRunSpec | src/simple64.rs:73-101 | sections are ignored; the ROM directory is the last existing `ROMdir` value, and the recent ROMs are every `RecentROMs2` line's parts, in order, existing or not |
| Simple64.LineWithoutEquals | src/simple64.rs:79 | a line without `=` does nothing |
| Simple64.RecentPair | src/simple64.rs:259-289 | two paths joined by `, ` split back into the two |
| Simple64.FsStepAfterHeader | src/simple64.rs:197-214 | after a header is handled, a fullscreen line inside `[Video-General]` is replaced and any other line is copied |
| Simple64.FsRunAt | src/simple64.rs:197-214 | the loop handles one line at a time |
| Simple64.FullscreenRewrite | src/simple64.rs:192-225 | a rewrite is written only when it differs from the file's content |
| Simple64.EnsureFullscreenConfig | src/simple64.rs:186-226 | a missing or unreadable file is left alone; otherwise the rewrite rule decides what is written |
| Simple64.RewriteLines | src/simple64.rs:193-219 | the line loop computes the rewritten lines of the rewrite rule |
| Simple64.RewriteBody | src/simple64.rs:207-213 | a section body keeps its number of lines |
| Simple64.FsRunAppend | src/simple64.rs:197-214 | running over two pieces of the file in turn is running over the whole |
| Simple64.BodyRun | src/simple64.rs:207-213 | lines between headers are rewritten one by one, and the flag records a fullscreen line inside the video section |
| Simple64.AnyFullscreenLineSplit | src/simple64.rs:207 | a body has a fullscreen line exactly when its first line is one or the rest has one |
| Simple64.HeaderStep | src/simple64.rs:199-205 | a header closes the current section, adding `Fullscreen = True` to a video section that lacked one, and is itself kept |
| Simple64.SectionRun | src/simple64.rs:197-214 | a section closes the previous one, keeps its header, and has its body rewritten exactly when it is `[Video-General]` |
| Simple64.VideoSectionForcedOn | src/simple64.rs:291-320 | in a `[Video-General]` section every fullscreen line becomes `Fullscreen = True`, or one is added at its end |
| Simple64.AlreadyOnTail | src/simple64.rs:207-209 | a body already switched on stays so without its first line |
| Simple64.RewriteKeepsOnLines | src/simple64.rs:207-213 | a video section whose fullscreen lines already read `Fullscreen = True` comes back unchanged |
| Simple64.OutsideRun | src/simple64.rs:197-214 | lines outside a `[Video-General]` section are copied unchanged |
| Simple64.NoVideoHeaderTail | src/simple64.rs:203 | a file without the video header has none in its rest either |
| Simple64.OutsideStep | src/simple64.rs:213 | outside the section a line that is not its header is copied and the scan stays outside |
| Simple64.NoVideoSectionUnchanged | src/simple64.rs:216-221 | a file without a `[Video-General]` section comes back line for line, so nothing is written |
| Simple64.DirCandidates | src/simple64.rs:35-37 | directory entries are candidates only when they are ROM files |
| Simple64.RecentCandidates | src/simple64.rs:47-48 | recent ROMs are candidates only when they exist and are ROM files |
| Simple64.SelectRoms | src/simple64.rs:30-53 | the directory's ROMs and then the existing recent ROMs are taken, each path the first time it is seen |
| Simple64.ScanDirectory | src/simple64.rs:33-44 | the directory loop picks the fresh directory ROMs and hands what it has seen to the rest |
| Simple64.ScanRecent | src/simple64.rs:46-53 | the recent-ROM loop adds the fresh recent candidates |
| Simple64.FreshPathsCons | src/simple64.rs:37 | a candidate is taken exactly when its path has not been seen |
| Simple64.DirStep | src/simple64.rs:35-42 | one directory entry is taken when it is a new ROM path and skipped otherwise |
| Simple64.RecentStep | src/simple64.rs:47-52 | one recent ROM is taken when it exists, is a ROM and is a new path, and skipped otherwise |
| Simple64.FreshPathsAreCandidates | src/simple64.rs:30-53 | every picked path is a candidate not seen before |
| Simple64.FreshPathsDistinct | src/simple64.rs:30-53 | no ROM path yields two entries |
| Simple64.FreshPathsCover | src/simple64.rs:30-53 | every new candidate is picked, or a path equal to it |
| Simple64.Simple64Exec | src/simple64.rs:122 | the command is `simple64-gui` and the quoted path |
| Simple64.ProcessRom | src/simple64.rs:113-133 | the entry has the bracket-free title of the stem (guarded rule), the launch command, the first existing cover and the key `simple64:<file name>` |
| Simple64.ProcessRomOfTaggedFile | src/simple64.rs:241-257 | a ROM `<name> <tags>.<ext>` is listed as `name` and keyed by its whole file name |
| Simple64.IsValidExtension | src/simple64.rs:103-111 | the lowercased extension is `z64`, `n64`, `v64`, `zip` or `7z`; a path without one is not a ROM |
| Simple64.ConfigLine | src/simple64.rs:79-98 | one configuration line split at its first `=`, both sides trimmed: `ROMdir` names an existing directory, `RecentROMs2` adds its `, `-separated parts |
| Simple64.ConfigRun | src/simple64.rs:78-99 | the configuration loop over all lines |
| Simple64.RomDirOf | src/simple64.rs:82-87 | the directory a `ROMdir` line names, when that directory exists |
| Simple64.RecentOf | src/simple64.rs:89-94 | the paths a `RecentROMs2` line lists, split at `, ` |
| Simple64.AllRecent | src/simple64.rs:89-94 | the recent ROMs of every `RecentROMs2` line, in file order |
| Simple64.Closing | src/simple64.rs:199-201 | the `Fullscreen = True` line a `[Video-General]` section gets at its end when it had no fullscreen line |
| Simple64.FsStep | src/simple64.rs:197-213 | one line of the rewrite: a header closes the section first, then a fullscreen line inside the video section is replaced and any other line kept |
| Simple64.FsRun | src/simple64.rs:197-213 | the rewrite loop over all lines |
| Simple64.FullscreenLines | src/simple64.rs:197-218 | the lines written back: the loop's output, then the closing line of a still open video section |
| Simple64.IsVideoHeader | src/simple64.rs:203 | a line whose trimmed text is `[Video-General]` |
| Simple64.IsFullscreenLine | src/simple64.rs:207 | a line whose trimmed text starts with `Fullscreen` |
| Simple64.AnyFullscreenLine | src/simple64.rs:207-211 | some line of a section body is a fullscreen line |
| Simple64.NoHeaders | src/simple64.rs:199 | a section body holds no header line |
| Simple64.AlreadyOn | src/simple64.rs:219-221 | every fullscreen line of a body already reads `Fullscreen = True` |
| Simple64.NoVideoHeader | src/simple64.rs:203 | no line is a `[Video-General]` header |
| Simple64.PathKey | src/simple64.rs:30 | a path as the `HashSet<PathBuf>` tells paths apart: by its components |
| Simple64.FreshPaths | src/simple64.rs:37-48 | the candidates whose path was not yet seen, each taken once, in order |
| Simple64.Represented | src/simple64.rs:37-48 | some picked path is the same path as the candidate |
| Gopher64.ValidExtensionOfFile | src/gopher64.rs:69-79 | a ROM file is accepted exactly when its extension, lowercased, is z64, n64, v64, zip or 7z |
| Gopher64.KeyCount | src/gopher64.rs:8-11 | no more members carry the key than there are, and none does exactly when the key is absent |
| Gopher64.RomDirField | src/gopher64.rs:8-11 | a decoded directory is the string value of `rom_dir` |
| Gopher64.RomDirElement | src/gopher64.rs:8-11 | the sequence form decodes exactly when it has one element, `null` or a string, and a decoded directory is that string |
| Gopher64.DecodeConfig | src/gopher64.rs:65 | only a JSON object or array decodes to a `GopherConfig` |
| Gopher64.ParseConfig | src/gopher64.rs:63-67 | an unreadable or malformed file gives nothing, and a given directory exists |
| Gopher64.ParseConfigSpec | src/gopher64.rs:63-67 | a directory is given exactly when it exists and the file is either a JSON object whose only `rom_dir` member is that string, or the one-element array holding it |
| Gopher64.SequenceForm | src/gopher64.rs:8-11 | `["d"]` gives `d` when it exists; `[]`, `[null]` and arrays of two or more elements give nothing |
| Gopher64.MissingOrNullGivesNothing | src/gopher64.rs:162-255 | a missing or `null` `rom_dir` gives nothing |
| Gopher64.SingleRomDir | src/gopher64.rs:162-255 | `{"rom_dir": d}` gives `d` when it exists and nothing otherwise |
| Gopher64.OtherFieldIgnored | src/gopher64.rs:8-11 | members other than `rom_dir` do not matter, wherever they stand |
| Gopher64.RepeatedRomDirRejected | src/gopher64.rs:65 | a repeated `rom_dir` field is a decoding error, whatever the values |
| Gopher64.RomPaths | src/gopher64.rs:34-43 | filtering never adds entries |
| Gopher64.RomPathsMembers | src/gopher64.rs:34-43 | a path is listed exactly when it is an entry with a ROM extension |
| Gopher64.AllRomsKept | src/gopher64.rs:34-43 | there is no deduplication: a listing of ROMs comes back whole, in order |
| Gopher64.AllRomsTail | src/gopher64.rs:37 | a listing of ROMs starts with a ROM and continues with ROMs |
| Gopher64.ScanRomDir | src/gopher64.rs:33-43 | the directory loop picks exactly the ROM entries, in listing order |
| Gopher64.GopherExec | src/gopher64.rs:90 | the command is `gopher64 --fullscreen` and the quoted path |
| Gopher64.ProcessRom | src/gopher64.rs:81-101 | the entry has the bracket-free title of the stem (i32 rule), the launch command, the first existing cover and the key `gopher64:<file name>` |
| Gopher64.ProcessRomOfTaggedFile | src/gopher64.rs:150-160 | a ROM `<name> <tags>.<ext>` is listed as `name` and keyed by its whole file name |
| Gopher64.IsValidExtension | src/gopher64.rs:69-79 | the lowercased extension is `z64`, `n64`, `v64`, `zip` or `7z`; a path without one is not a ROM |
| Gopher64.AllRoms | src/gopher64.rs:34-42 | every listed entry has a ROM extension |
| DesktopApps.CleanExecCommand | src/desktop_apps.rs:130-144 | the character loop drops each field code and then trims, and no `%` is left |
| DesktopApps.StripLeavesNoPercent | src/desktop_apps.rs:134-141 | no `%` survives: each is removed with the character after it |
| DesktopApps.StripKeepsPlainText | src/desktop_apps.rs:134-141 | text without `%` is kept as it is |
| DesktopApps.StripFieldCode | src/desktop_apps.rs:135-138 | a field code between plain text and the rest disappears with its letter, and the rest is cleaned on |
| DesktopApps.CleanWordAndCode | src/desktop_apps.rs:130-144 | a command word followed by ` %x` cleans to the word |
| DesktopApps.CleanFirefox | src/desktop_apps.rs:239-247 | `firefox %u` cleans to `firefox` |
| DesktopApps.CleanCode | src/desktop_apps.rs:239-247 | `code %F` cleans to `code` |
| DesktopApps.CleanGimp | src/desktop_apps.rs:239-247 | `gimp-2.10 %U` cleans to `gimp-2.10` |
| DesktopApps.ScanLine | src/desktop_apps.rs:75-90 | outside `[Desktop Entry]` a line that opens no section changes nothing |
| DesktopApps.ScanLinesAppend | src/desktop_apps.rs:74-91 | the lines are handled one after another, in order |
| DesktopApps.OtherSectionIgnored | src/desktop_apps.rs:83-85 | outside `[Desktop Entry]` no run of non-header lines changes anything |
| DesktopApps.LaterKeyWins | src/desktop_apps.rs:88-90 | inside `[Desktop Entry]` a `key=value` line sets the trimmed key to the trimmed value, overriding any earlier one |
| DesktopApps.SectionHeaderSwitches | src/desktop_apps.rs:78-81 | any line starting `[` switches the section, into `[Desktop Entry]` exactly for that header, and keeps the fields |
| DesktopApps.ScanFields | src/desktop_apps.rs:70-91 | the field loop collects exactly the fields the line rule gives |
| DesktopApps.AppFromFields | src/desktop_apps.rs:93-126 | an app is built exactly when Type is absent or `Application`, neither NoDisplay nor Hidden is `true`, and Name and Exec are present; it has that name, the cleaned command, the resolved icon and the file path |
| DesktopApps.ResolveIcon | src/desktop_apps.rs:147-155 | an absolute icon path is its own answer exactly when it exists; any other name takes the theme search's answer |
| DesktopApps.ParseDesktopFile | src/desktop_apps.rs:67-127 | an unreadable file gives nothing; otherwise the result is the filters applied to the collected fields and the resolved icon |
| DesktopApps.LowerNameOrderIsAntisymmetric | src/desktop_apps.rs:41 | comparing lower-cased names is antisymmetric |
| DesktopApps.LowerNameTransitive | src/desktop_apps.rs:41 | comparing lower-cased names is transitive |
| DesktopApps.ScanResultOrdered | src/desktop_apps.rs:40-44 | the scan result is ordered by lower-cased name, no two neighbours share a name, it holds only scanned apps, every scanned name is still listed, and each kept app is the first of its run of equal names in the sorted list |
| DesktopApps.CaseVariantKeepsDuplicate | src/desktop_apps.rs:40-44 | an exact duplicate separated from its twin by a case variant survives the dedup |
| DesktopApps.SortKeepsEqualNames | src/desktop_apps.rs:41 | the stable sort leaves names that compare equal in scan order |
| DesktopApps.DedupKeepsAlternating | src/desktop_apps.rs:44 | the dedup keeps three apps whose neighbours differ in name |
| DesktopApps.DuplicateNameSurvives | src/desktop_apps.rs:40-44 | there are scans, `Foo`, `foo`, `Foo`, whose result lists the name `Foo` twice |
| DesktopApps.NamesDistinctIgnoringCase | src/desktop_apps.rs:40-44 | deduplicating by the lower-cased name the sort uses leaves no two entries with the same name in any case, lists every scanned name, and keeps for each name the app scanned first |
| DesktopApps.StripFieldCodes | src/desktop_apps.rs:130-144 | the reference for the cleaning loop: each `%` removed together with the character after it |
| DesktopApps.ScanLines | src/desktop_apps.rs:74-91 | the field loop over a run of lines |
| DesktopApps.FieldIs | src/desktop_apps.rs:95-105 | a field is present and holds exactly the given value |
| DesktopApps.IsDesktopFile | src/desktop_apps.rs:59 | `scan_directory`'s filter: the file's extension is exactly `desktop` |
| DesktopApps.LowerNameOrder | src/desktop_apps.rs:41 | the sort's comparison: the lower-cased names compared byte-wise |
| DesktopApps.SameName | src/desktop_apps.rs:44 | the dedup's test: the names are equal as written |
| DesktopApps.SortAndDedup | src/desktop_apps.rs:40-44 | the list `scan_desktop_apps` returns for the apps found: sorted by lower-cased name, then neighbours with the same name merged |
| DesktopApps.ScanResultSorted | src/desktop_apps.rs:40-44 | the result is ordered by lower-cased name, neighbours differ in name, and it holds only scanned apps |
| DesktopApps.ScanResultCovers | src/desktop_apps.rs:40-44 | every scanned app's name is still listed |
| DesktopApps.ScanResultRunStarts | src/desktop_apps.rs:44 | each kept app is the first of its run of equal names in the sorted list |
| DesktopApps.SameLowerName | src/desktop_apps.rs:41-44 | a dedup test matching the sort: equal lower-cased names |
| DesktopApps.SortAndDedupIgnoringCase | src/desktop_apps.rs:40-44 | the corrected result: sorted by lower-cased name, then merged by lower-cased name |
| DesktopApps.SameLowerNameIsEqual | src/desktop_apps.rs:41-44 | equal lower-cased names is exactly the sort's `Equal` |
| DesktopApps.LowerNamesDistinct | src/desktop_apps.rs:40-44 | the corrected result holds no two names equal in any case |
| DesktopApps.LowerNamesCovered | src/desktop_apps.rs:40-44 | the corrected result lists every scanned name, in some case |
| DesktopApps.LowerNamesFirstFound | src/desktop_apps.rs:40-44 | each entry of the corrected result is the app scanned first under its name in any case |
| XdgUtils.CommandTokens | src/xdg_utils.rs:92-94 | the kept tokens are no more than the words and none is a field code |
| XdgUtils.CommandTokensAppend | src/xdg_utils.rs:93 | filtering two runs of words filters each, in order |
| XdgUtils.CommandTokensKeepsWords | src/xdg_utils.rs:92-93 | the kept tokens are still non-empty words without whitespace |
| XdgUtils.CommandTokensIdempotent | src/xdg_utils.rs:93 | filtering twice is filtering once |
| XdgUtils.CleanExecWords | src/xdg_utils.rs:91-96 | the cleaned command's words are exactly the original non-field-code words, in order |
| XdgUtils.CleanExecIdempotent | src/xdg_utils.rs:91-96 | cleaning a cleaned command changes nothing |
| XdgUtils.TrailingFieldCodesDropped | src/xdg_utils.rs:135-141 | plain words followed by field codes clean to the words joined by single spaces, as `vlc %U`, `eog %f` and `my-app --arg %i` do |
| XdgUtils.PlainTokensKept | src/xdg_utils.rs:93 | words that are not field codes are all kept |
| XdgUtils.FieldCodesDropped | src/xdg_utils.rs:93 | field codes are all dropped |
| XdgUtils.IconSearchName | src/xdg_utils.rs:56-66 | the search name is the icon name or a prefix of it |
| XdgUtils.IconSearchNameOf | src/xdg_utils.rs:56-63 | `name.ext` is searched as `name` exactly when `ext`, lowercased, is png, svg, xpm, jpg or jpeg |
| XdgUtils.IconSearchNameWithoutDot | src/xdg_utils.rs:64-66 | a name without a `.` is searched unchanged |
| XdgUtils.FirstPixmap | src/xdg_utils.rs:72-79 | a fallback pixmap exists and is `/usr/share/pixmaps/<name>.<ext>` for one of the extensions |
| XdgUtils.FirstPixmapIsFirst | src/xdg_utils.rs:72-79 | a pixmap is used only when no earlier extension's file exists |
| XdgUtils.AbsoluteIconKept | src/xdg_utils.rs:52-53 | an icon name starting with `/` is used as it is, existing or not |
| XdgUtils.ThemeIconFirst | src/xdg_utils.rs:68 | a themed icon wins over the pixmap fallback |
| XdgUtils.PixmapFallback | src/xdg_utils.rs:70-80 | without a themed icon the first existing pixmap is used, and none when none exists |
| XdgUtils.EntryApp | src/xdg_utils.rs:30-89 | an entry is listed exactly when it is displayed, is an `Application` and has a name and a command; it carries that name, the cleaned command and the resolved icon |
| XdgUtils.ConvertEntry | src/xdg_utils.rs:30-89 | the early returns and the probe loop compute the entry rule |
| XdgUtils.ResolveIcon | src/xdg_utils.rs:46-86 | the icon steps compute the icon rule |
| XdgUtils.ProbePixmaps | src/xdg_utils.rs:72-79 | the probe loop finds the first existing pixmap |
| XdgUtils.OtherThemes | src/xdg_utils.rs:122-126 | the kept themes are no more than the listed ones and none is a case variant of `hicolor` |
| XdgUtils.OrderedThemes | src/xdg_utils.rs:118-129 | the loop gives `hicolor` followed by the other listed themes, in order |
| XdgUtils.OtherThemesMembers | src/xdg_utils.rs:122-126 | a theme follows `hicolor` exactly when it is listed and is not a variant of it |
| XdgUtils.HicolorExactlyOnce | src/xdg_utils.rs:118-129 | `hicolor` comes first and no variant of it comes again |
| XdgUtils.SortAndDedupOrdered | src/xdg_utils.rs:23-25 | the scan result is sorted by name, no two neighbours share name and command, it holds only scanned apps, every scanned name and command is still listed, and each kept app is the first of its run in the sorted list |
| XdgUtils.NameOrderIsTotal | src/xdg_utils.rs:24 | comparing names is antisymmetric and transitive |
| XdgUtils.DuplicateSurvivesAsWritten | src/xdg_utils.rs:23-25 | two apps with the same name and command both survive when a same-named app with another command sits between them |
| XdgUtils.SortKeepsEqualNames | src/xdg_utils.rs:24 | the stable sort leaves equally named apps in scan order |
| XdgUtils.DedupKeepsAlternating | src/xdg_utils.rs:25 | the dedup keeps apps whose neighbours differ in name or command |
| XdgUtils.NameExecOrderIsTotal | src/xdg_utils.rs:23-25 | ordering by name then command is antisymmetric and transitive, and equal exactly for the same name and command |
| XdgUtils.NoDuplicateAfterNameExecSort | src/xdg_utils.rs:23-25 | sorting by name then command before the dedup leaves no two apps with the same name and command, lists every scanned name and command, and keeps the app scanned first of each |
| XdgUtils.NameExecSortsByName | src/xdg_utils.rs:23-25 | that corrected order still sorts by name, holds only scanned apps and lists every scanned name and command |
| XdgUtils.IsFieldCode | src/xdg_utils.rs:93 | a whitespace token starting with `%`, such as `%f` or `%U` |
| XdgUtils.CleanExecCode | src/xdg_utils.rs:91-96 | the reference for `clean_exec_code`: the whitespace tokens that are not field codes, joined by single spaces |
| XdgUtils.PixmapPath | src/xdg_utils.rs:74 | the fallback `/usr/share/pixmaps/<name>.<ext>` |
| XdgUtils.ThemeLookup | src/xdg_utils.rs:69 | what the icon theme lookup finds for a name, as a given table |
| XdgUtils.EntryIcon | src/xdg_utils.rs:46-85 | the icon `convert_entry` settles on: an absolute name as it is, else the theme lookup of the search name, else the first existing pixmap |
| XdgUtils.Listed | src/xdg_utils.rs:31-41 | an entry is converted exactly when it is displayed, is an `Application`, and has a name and a command |
| XdgUtils.IsHicolor | src/xdg_utils.rs:123 | `eq_ignore_ascii_case("hicolor")` on a theme name |
| XdgUtils.NameOrder | src/xdg_utils.rs:24 | the sort's comparison: names compared byte-wise |
| XdgUtils.SameNameAndExec | src/xdg_utils.rs:25 | the dedup's test: same name and same command |
| XdgUtils.SortAndDedup | src/xdg_utils.rs:23-25 | the list `scan_system_apps` returns, as written: sorted by name only, then equal neighbours merged |
| XdgUtils.ListsEvery | src/xdg_utils.rs:23-25 | every scanned app has a listed app with its name and command |
| XdgUtils.FirstFound | src/xdg_utils.rs:23-25 | every listed app is the first scanned app with its name and command |
| XdgUtils.DedupListsEvery | src/xdg_utils.rs:24-25 | sorting by any order and merging equal neighbours keeps every scanned name and command listed |
| XdgUtils.SortAndDedupSorted | src/xdg_utils.rs:23-25 | the result is sorted by name, neighbours differ in name or command, and it holds only scanned apps |
| XdgUtils.NameExecOrder | src/xdg_utils.rs:24 | the corrected comparison: name, then command, under which equal apps are neighbours |
| XdgUtils.SortAndDedupByNameExec | src/xdg_utils.rs:23-25 | the corrected result: sorted by name then command, then equal neighbours merged |
| ImageCache.SanitizeName | src/image_cache.rs:25-29 | the sanitised name has one character per original character, each kept when alphanumeric or `-` and `_` otherwise |
| ImageCache.SanitizedCharacters | src/image_cache.rs:25-29 | a sanitised name holds only alphanumerics, `-` and `_`, so no `/` and no `.` |
| ImageCache.SanitizeIdempotent | src/image_cache.rs:25-29 | sanitising twice is sanitising once |
| ImageCache.SanitizeKeepsSafeNames | src/image_cache.rs:25-29 | a name of kept characters is its own sanitised form |
| ImageCache.ImagePathInCache | src/image_cache.rs:20-23 | the image path is the cache directory joined with `<sanitised name>.<extension>`, directly inside it |
| ImageCache.ImagePathsCollide | src/image_cache.rs:20-29 | two games share an image path for an extension exactly when their sanitised names agree |
| ImageCache.FirstImage | src/image_cache.rs:31-41 | a found image exists and is the image path of one of the extensions; when none is found, no such path exists |
| ImageCache.FirstImageIsFirst | src/image_cache.rs:31-41 | an image is found only when no earlier extension's image exists |
| ImageCache.ImagePathsDiffer | src/image_cache.rs:20-23 | different extensions give different image paths |
| ImageCache.PngFoundFirst | src/image_cache.rs:31-41 | an existing png is always the image found |
| ImageCache.UrlExtension | src/image_cache.rs:44-47 | the extension is the text after the last `.` of the URL, or the whole URL, so the `png` fallback is never taken |
| ImageCache.SaveImage | src/image_cache.rs:43-52 | the target is the image path for the URL's extension; an existing file is returned without downloading, and otherwise the URL is fetched into it |
| ImageCache.SaveImageExtension | src/image_cache.rs:44-47 | a URL ending in `.<ext>` is stored under `ext` |
| ImageCache.SavedImageIsFound | src/image_cache.rs:31-52 | an image saved, or already cached, under a looked-up extension is then found |
| ImageCache.Kept | src/image_cache.rs:27 | the characters `sanitize_name` keeps: letters, digits and `-` |
| ImageCache.SafeChar | src/image_cache.rs:27 | a kept character stays, any other becomes `_` |
| ImageCache.GetImagePath | src/image_cache.rs:20-23 | `get_image_path`: the cache directory joined with the sanitised name, a dot and the extension |
| ImageCache.FindExistingImage | src/image_cache.rs:31-41 | `find_existing_image`: the first of the png, jpg, jpeg and webp paths that exists, or none |
| ImageCache.SuffixesDiffer | src/image_cache.rs:33-35 | paths built with different extensions differ, so the four candidates are distinct |
| SystemInfo.TrimSeparators | src/system_info.rs:275 | the leading `-`, space and `_` characters are removed and nothing else: the result is a suffix whose first character is not a separator |
| SystemInfo.TrimSeparatorsOf | src/system_info.rs:275 | separators followed by a version give back exactly that version |
| SystemInfo.ExtractVersionFromName | src/system_info.rs:271-281 | the version is never empty; a name without `proton` in any case gives "Unknown"; otherwise the version is "Unknown" or a suffix of the name |
| SystemInfo.VersionAfter | src/system_info.rs:274-280 | the text after a `proton` at a given position is a non-empty suffix of the name or "Unknown" |
| SystemInfo.ExtractVersionAfterTag | src/system_info.rs:271-281 | `<prefix><Proton in any case><separators><version>` names `version` when no earlier `proton` overlaps the tag, as in `GE-Proton10-28` and `Proton 9.0` |
| SystemInfo.ExtractVersionAt | src/system_info.rs:273-278 | the version is the separator-trimmed text after the first `proton` of the lower-cased name, used at that index of the name itself |
| SystemInfo.ReadProtonVersionFile | src/system_info.rs:256-268 | a version exists exactly when the file was read and is not blank; two or more words give the words after the first, a single word gives that word |
| SystemInfo.VersionAfterTimestamp | src/system_info.rs:259-262 | a file `"<timestamp> <name words>"` gives back the name words joined by single spaces |
| SystemInfo.ProtonVersion | src/system_info.rs:313-314 | the listed version is never empty, and falls back to the name's version when the version file gives none |
| SystemInfo.ParsedOr | src/system_info.rs:490-501 | a parsed file value fits the integer width, or is the default |
| SystemInfo.GetKernelTweaks | src/system_info.rs:488-518 | each tweak is good exactly at its threshold: max_map_count at least 1048576, swappiness at most 10, clocksource `tsc`; the numbers fit `u64` and `u8` or take the default 60 |
| SystemInfo.UnreadableTweaksNotOk | src/system_info.rs:490-508 | unreadable files give 0, 60 and "Unknown", and none of the three is good |
| SystemInfo.ParsedNumber | src/system_info.rs:490-501 | a number that fits the width, followed by whitespace, parses to itself |
| SystemInfo.MaxMapCountThreshold | src/system_info.rs:490-494 | a written max_map_count is good exactly when it is at least 1048576 |
| SystemInfo.SwappinessThreshold | src/system_info.rs:497-501 | a swappiness that fits `u8` is kept and good exactly up to 10; a larger one falls back to 60, which is not good |
| SystemInfo.ClocksourceOk | src/system_info.rs:504-508 | the clocksource is good exactly when the file was read and holds `tsc` after trimming |
| SystemInfo.SelectedAlgorithm | src/system_info.rs:403-415 | with both brackets the algorithm is present and holds no `]`; no algorithm only for a blank file |
| SystemInfo.BracketedAlgorithm | src/system_info.rs:405-409 | the name between the first `[` and `]` is the active algorithm |
| SystemInfo.WithoutOpeningBracket | src/system_info.rs:410-412 | without a `[` the first word is the algorithm |
| SystemInfo.UnbracketedAlgorithm | src/system_info.rs:410-412 | without brackets the first listed algorithm is taken |
| SystemInfo.AlgorithmOf | src/system_info.rs:403-415 | an unreadable `comp_algorithm` gives "Unknown" |
| SystemInfo.U64Or0 | src/system_info.rs:425-426 | a column parsed as `u64`, or 0, fits in 64 bits |
| SystemInfo.SwapUsage | src/system_info.rs:418-431 | the used and total kilobytes fit in `u64` |
| SystemInfo.ZramUsage | src/system_info.rs:422-427 | one zram line's used and total kilobytes fit in `u64` |
| SystemInfo.SwapUsageOfFirst | src/system_info.rs:418-431 | the first zram line of `/proc/swaps` decides; the lines after it do not matter |
| SystemInfo.SwapUsageWithoutZram | src/system_info.rs:418-431 | without a zram line the usage is (0, 0) |
| SystemInfo.ScanSwaps | src/system_info.rs:418-431 | the swaps loop returns the usage of the first zram line, or (0, 0) |
| SystemInfo.UsagePercentValue | src/system_info.rs:433-437 | when `used * 100` does not overflow `u64` the value is the floor of `used * 100 / total`, and at most 100 when used does not exceed total |
| SystemInfo.UsagePercent | src/system_info.rs:433-437 | the text is decimal digits followed by `%`, whose value is the percentage, or 0 for an empty swap |
| SystemInfo.GetZramInfo | src/system_info.rs:385-446 | without the device or with a zero or unreadable size zram is reported off; otherwise enabled with the disk size, the algorithm, the used bytes (kilobytes times 1024 in `u64`) and the usage percentage |
| SystemInfo.GpuName | src/system_info.rs:180-188 | a GPU name holds no quote character |
| SystemInfo.GpuNameOfFields | src/system_info.rs:180-186 | quoted `lspci -mm` fields give `<vendor> <device>`, the fourth and sixth pieces |
| SystemInfo.GpuNames | src/system_info.rs:167-190 | at most one name per line, none with quotes |
| SystemInfo.CollectGpus | src/system_info.rs:167-190 | the loop pushes the names of the GPU lines in order |
| SystemInfo.NumberedGpus | src/system_info.rs:211-217 | the i-th line is `GPU <i+1>: <name>` for the i-th GPU |
| SystemInfo.GpuList | src/system_info.rs:207-220 | no GPU gives "Unknown GPU", a single GPU is reported as it is |
| SystemInfo.GpuListLines | src/system_info.rs:207-220 | several GPUs give one numbered line each, in order, read back by splitting on newlines |
| SystemInfo.DiskRow | src/system_info.rs:350-367 | a row is a disk exactly when it has four or more columns and its mount point neither starts with `/snap` or `/boot` nor is `/efi` |
| SystemInfo.DiskRows | src/system_info.rs:348-368 | at most one disk per row, none with a skipped mount point |
| SystemInfo.GetDiskInfo | src/system_info.rs:327-372 | the disks are the rows after the header, or none when `df` cannot be run |
| SystemInfo.DiskRowOfColumns | src/system_info.rs:352-366 | a four-column row is reported as exactly those columns unless its mount point is skipped |
| SystemInfo.DfHeaderSkipped | src/system_info.rs:349 | the header line is never a disk, whatever it holds |
| SystemInfo.DiskRowsMembers | src/system_info.rs:348-368 | a disk is reported exactly when some row gives it |
| SystemInfo.PrettyNameValue | src/system_info.rs:108-110 | the value has no quote at either end |
| SystemInfo.FirstPrettyName | src/system_info.rs:106-113 | there is no name exactly when no line starts with `PRETTY_NAME=` |
| SystemInfo.FirstPrettyNameAt | src/system_info.rs:106-113 | the first `PRETTY_NAME=` line gives the name |
| SystemInfo.OsNameFromFirstLine | src/system_info.rs:104-116 | the OS name comes from the first `PRETTY_NAME=` line of os-release, whatever follows it |
| SystemInfo.OsNameDefault | src/system_info.rs:115 | without the file or without a `PRETTY_NAME=` line the name is "Linux" |
| SystemInfo.QuotedPrettyName | src/system_info.rs:108-110 | `PRETTY_NAME="<name>"` gives the name without its quotes |
| SystemInfo.SearchPaths | src/system_info.rs:285-304 | the nine Steam directories under the home directory (or `/`), in order, then the two system directories |
| SystemInfo.EntryVersion | src/system_info.rs:309-316 | an entry is pushed exactly when its name is valid and contains `proton` in any case, with its version |
| SystemInfo.FoundVersions | src/system_info.rs:306-320 | at most one pair per directory entry |
| SystemInfo.FoundVersionsAppend | src/system_info.rs:306-320 | the pairs of two runs of entries are the pairs of each, concatenated |
| SystemInfo.PushProtonEntries | src/system_info.rs:308-318 | the inner loop appends the pairs of one directory's entries |
| SystemInfo.GetProtonVersions | src/system_info.rs:283-325 | the list is the found pairs of every readable search directory, in order, sorted by name and with repeated names dropped |
| SystemInfo.DirNameOrderIsTotal | src/system_info.rs:322-323 | the name order is antisymmetric and transitive, and equal exactly for the same name |
| SystemInfo.ProtonListSortedDistinct | src/system_info.rs:322-323 | the list is strictly increasing by name, so no name appears twice |
| SystemInfo.ProtonListFromFound | src/system_info.rs:322-323 | every listed pair is one that was found |
| SystemInfo.ProtonListCoversNames | src/system_info.rs:322-323 | every name found is listed |
| SystemInfo.FoundVersionsMembers | src/system_info.rs:306-320 | a pair is found exactly when some entry is a Proton build listed with that name and version |
| SystemInfo.IsVersionSeparator | src/system_info.rs:275 | the characters stripped before a version: `-`, space and `_` |
| SystemInfo.NoMatchInPrefix | src/system_info.rs:273 | a pattern absent from a prefix of a text does not start early in that prefix |
| SystemInfo.ToLowerSlice | src/system_info.rs:273-274 | lower-casing commutes with slicing, so the found index applies to the original name |
| SystemInfo.IsTsc | src/system_info.rs:508 | the clock source is good exactly when it is `tsc` |
| SystemInfo.BracketsInOrder | src/system_info.rs:407-409 | the first `]` follows the first `[`, or one is missing, so the slice between them can be taken |
| SystemInfo.IsZramSwap | src/system_info.rs:422-424 | a `/proc/swaps` line that names `/dev/zram` and has at least four columns |
| SystemInfo.SwapUsageOf | src/system_info.rs:418-431 | the used and total sizes of the swaps file, both 0 when it cannot be read |
| SystemInfo.NoZramBefore | src/system_info.rs:421-428 | no line before a given line is a zram swap line |
| SystemInfo.NoZramBeforeTail | src/system_info.rs:421-428 | dropping a first line that is not a zram line keeps that property |
| SystemInfo.PercentFacts | src/system_info.rs:433-437 | without overflow the percentage is the floor of used over total times 100, and at most 100 when used does not exceed total |
| SystemInfo.DivisionBounds | src/system_info.rs:435 | integer division rounds down by less than one divisor |
| SystemInfo.PercentAtMost100 | src/system_info.rs:433-437 | a share of used over total is at most 100 percent |
| SystemInfo.IsGpuLine | src/system_info.rs:172 | an `lspci -mm` line with a VGA, 3D or display controller class |
| SystemInfo.NumberedGpu | src/system_info.rs:215 | a line of the GPU list, `GPU <n>: <name>`, numbered from 1 |
| SystemInfo.IsSkippedMount | src/system_info.rs:355-357 | mounts under `/snap` or `/boot`, and `/efi`, are left out |
| SystemInfo.AfterHeader | src/system_info.rs:349 | the rows of `df` after its header line |
| SystemInfo.SomeRowGives | src/system_info.rs:348-368 | some row of the output gives the disk |
| SystemInfo.DiskRowsSnoc | src/system_info.rs:348-368 | one more row adds exactly the disk that row gives |
| SystemInfo.SomeRowGivesSnoc | src/system_info.rs:348-368 | some row gives a disk exactly when an earlier row or the last row does |
| SystemInfo.ExistsSnoc | src/system_info.rs:348-368 | a value is found in a list exactly when it is found before the last element or at it |
| SystemInfo.IsPrettyNameLine | src/system_info.rs:107 | an `/etc/os-release` line starting `PRETTY_NAME=` |
| SystemInfo.GetOsName | src/system_info.rs:104-116 | `get_os_name`: the first `PRETTY_NAME` value, else `Linux` |
| SystemInfo.IsProtonName | src/system_info.rs:310 | a directory whose lower-cased name contains `proton` |
| SystemInfo.Listed | src/system_info.rs:306-320 | the entries of the searched directories, in search order; a directory that cannot be read contributes none |
| SystemInfo.DirNameOrder | src/system_info.rs:322 | the sort's comparison: directory names compared byte-wise |
| SystemInfo.SameDirName | src/system_info.rs:323 | the dedup's test: the same directory name |
| SystemInfo.ProtonList | src/system_info.rs:322-323 | the list returned: sorted by directory name, neighbours with the same name merged |
| SystemInfo.ListedStep | src/system_info.rs:306-320 | one more searched directory adds its entries at the end |
| SystemInfo.ListsAs | src/system_info.rs:309-316 | an entry that lists as a Proton name and version |
| SystemInfo.EntryListsAs | src/system_info.rs:309-316 | an entry lists as a name and version exactly when it pushes that pair |
| SystemInfo.FoundVersionsSound | src/system_info.rs:306-320 | every pair found comes from some entry that lists as it |
| SystemInfo.FoundVersionsComplete | src/system_info.rs:306-320 | every entry that lists as a pair has that pair found |
| SystemBattery.Capacity | src/system_battery.rs:30-34 | the capacity fits `u8`, and a value that does not parse reads as 0 |
| SystemBattery.PowerOf | src/system_battery.rs:41-48 | charged exactly for `Full` or `Not charging` above 90%; charging exactly for `Charging` or `Not charging` at or below 90%; discharging exactly for any other status; the level is the capacity |
| SystemBattery.NotChargingThreshold | src/system_battery.rs:45-46 | `Not charging` is charged above 90% and charging with its level at or below it |
| SystemBattery.ReadBatteryInfo | src/system_battery.rs:29-49 | there is a reading exactly when the `capacity` file can be read, and its level fits `u8` |
| SystemBattery.MissingStatusDischarges | src/system_battery.rs:36-39 | a missing `status` file reads as discharging at the capacity |
| SystemBattery.BadCapacityIsZero | src/system_battery.rs:30-34 | a capacity that is not a `u8` reads as 0, with the status mapped as usual |
| SystemBattery.ReadSysfsLines | src/system_battery.rs:30-39 | the files as sysfs writes them, with a trailing newline, read as that level and that status |
| SystemBattery.BatteryPaths | src/system_battery.rs:8-19 | at most one candidate path per directory entry |
| SystemBattery.BatteryPathsComplete | src/system_battery.rs:10-18 | every readable entry whose name starts with `BAT` is a candidate |
| SystemBattery.BatteryPathsAreBatteries | src/system_battery.rs:10-18 | every candidate is the path of a readable entry whose name starts with `BAT` |
| SystemBattery.SortedBatteryPathsSpec | src/system_battery.rs:22 | the sorted candidates are a permutation of the battery paths, in path order |
| SystemBattery.FirstReading | src/system_battery.rs:24-26 | nothing is read exactly when no candidate has a `capacity` file |
| SystemBattery.FirstReadingAt | src/system_battery.rs:24-26 | the first candidate with a `capacity` file is the one read |
| SystemBattery.ReadSystemBattery | src/system_battery.rs:5-9 | an unreadable power-supply directory gives nothing |
| SystemBattery.FirstBatteryWins | src/system_battery.rs:5-27 | the reading is that of the first battery in path order with a `capacity` file, the batteries before it being skipped |
| SystemBattery.NoBatteryNoReading | src/system_battery.rs:5-27 | a directory without a `BAT*` entry gives nothing |
| SystemBattery.NoBatteryPaths | src/system_battery.rs:10-18 | without a `BAT*` entry there is no candidate |
| SystemBattery.StatusText | src/system_battery.rs:36-39 | the trimmed `status` file, or the empty string when it cannot be read |
| SystemBattery.IsBatteryName | src/system_battery.rs:13 | a power-supply entry whose name starts with `BAT` |
| SystemBattery.FilesAt | src/system_battery.rs:29-39 | the `capacity` and `status` files of a battery path, both unreadable for a path without files |
| SystemBattery.SortedBatteryPaths | src/system_battery.rs:8-22 | the battery paths in `sort()` order |
| UiAppUpdateModal.HandleAppUpdateNavigation | src/ui_app_update_modal.rs:149-163 | Updating and Completed ignore every action; in Prompt, Select starts the update and Back or ShowHelp closes the modal, each exactly; in Failed, Back, ShowHelp or Select closes it, exactly, and nothing starts an update |
| UiAppUpdateModal.OnlyPromptStarts | src/ui_app_update_modal.rs:149-163 | an update starts exactly on Select in the prompt |
| UiAppUpdateModal.SpinnerIndex | src/ui_app_update_modal.rs:9-12 | the spinner index is always a valid index into the four frames |
| UiAppUpdateModal.SpinnerCycles | src/ui_app_update_modal.rs:9-12 | consecutive ticks step through the four frames in order and wrap around every four ticks |
| Sorting.SortByPermutes | src/system_info.rs:322 | `sort_by` keeps exactly the elements it was given |
| Sorting.SortBySorted | src/system_info.rs:322 | `sort_by` with an antisymmetric comparator leaves no pair out of order |
| Sorting.DedupRepresents | src/system_info.rs:323 | every element `dedup_by` drops is the same as one it keeps |
| Sorting.SortDedupDistinct | src/system_info.rs:322-323 | sorting by a total order and then dropping neighbours that compare equal leaves a strictly increasing list |
| PathOrder.PathCmpIsTotalOrder | src/system_battery.rs:22 | the order `sort()` uses on paths is antisymmetric and transitive, and ties exactly the same path |
| Strings.WordsOfJoin | src/system_info.rs:260-262 | words joined by single spaces split back into the same words |
| Strings.WordsEmptyIffTrimEmpty | src/system_info.rs:260-263 | text has no whitespace-separated words exactly when it trims to nothing |
| Strings.SplitJoin | src/system_info.rs:180 | splitting a join on a separator no part holds gives the parts back |
| Json.Lookup | src/game_sources.rs:330 | `Map::get`: a value is found exactly when some member has the key, and it is a value stored under that key |
| Json.LookupStep | src/game_sources.rs:330 | the lookup answers from the first member when its key matches, and from the rest otherwise |
| Json.Get | src/game_sources.rs:330 | `Value::get`: none unless the value is an object holding the key |
| Json.AsStr | src/game_sources.rs:348 | `Value::as_str`: the text of a string value, none for any other |
| Json.AsBool | src/game_sources.rs:330 | `Value::as_bool`: the flag of a boolean value, none for any other |
| Json.GetStr | src/game_sources.rs:347-349 | `obj.get(key).and_then(as_str)`: the text stored under the key, none when the key is missing or holds no string |
| Paths.IsAbsolute | src/launcher.rs:235 | `Path::is_absolute` on Unix: the path starts with `/` |
| Paths.NameStart | src/snes9x.rs:207-208 | where the last component starts: just after the last `/`, with no `/` after it |
| Paths.FileName | src/snes9x.rs:207-208 | a file name found is non-empty, holds no `/` and ends the path |
| Paths.ExtensionDot | src/snes9x.rs:180 | the extension's dot lies after the first character of the name and no dot follows it |
| Paths.Extension | src/snes9x.rs:180 | an extension found holds neither `.` nor `/` |
| Paths.FileStem | src/snes9x.rs:230 | a stem exists exactly when a file name does, and is never empty |
| Paths.StemAndExtension | src/snes9x.rs:180-230 | the file name is its stem, or its stem, a dot and its extension |
| Paths.Join | src/system_update.rs:450 | `PathBuf::join`: an absolute argument replaces the base |
| Paths.WithExtension | src/snes9x.rs:218 | `with_extension`: the directory part kept, then the stem, a dot and the new extension |
| Paths.WithExtensionSameDirectory | src/snes9x.rs:216-225 | a cover candidate has the requested extension and the ROM's stem |
| Paths.RenamedPath | src/snes9x.rs:216-225 | a directory prefix then `stem.ext` has exactly that stem and that extension |
| Paths.WithExtensionIs | src/snes9x.rs:218 | `with_extension` keeps the text up to the last component and replaces that by stem, dot and extension |
| Paths.RenamedParts | src/snes9x.rs:218 | a path whose file name is `stem.ext` has that stem and that extension |
| Paths.PartsOfName | src/snes9x.rs:180-230 | the extension follows the name's extension dot and the stem precedes it |
| Paths.StemHasNoSlash | src/snes9x.rs:230 | a file stem holds no `/` |
| Paths.FileNameAfter | src/snes9x.rs:207-208 | after a directory prefix ending in `/`, a component other than `..` is the file name |
| Paths.NameStartAfter | src/snes9x.rs:207-208 | after a directory prefix ending in `/`, the last component starts where the prefix ends |
| Paths.ExtensionDotAt | src/snes9x.rs:180 | in `stem.ext` with a dot-free extension the extension dot is the one after the stem |
| Paths.FileInDirectory | src/snes9x.rs:505-520 | a file `stem.ext` inside a directory has that file name, stem and extension |
| PathOrder.PieceComponents | src/snes9x.rs:27-28 | components of the pieces after the first: empty pieces and `.` dropped, each left a `..` or a proper name |
| PathOrder.Components | src/snes9x.rs:27-28 | `Path::components`: a root or a leading `.`, then the remaining pieces |
| PathOrder.Rank | src/snes9x.rs:27 | the declaration order of the component kinds, which their derived order follows |
| PathOrder.ComponentCmp | src/snes9x.rs:27 | components compare by kind, then names by their text |
| PathOrder.ComponentsCmp | src/snes9x.rs:27 | component lists compare lexicographically |
| PathOrder.PathCmp | src/snes9x.rs:27 | `Path::cmp`: paths compare by their components |
| PathOrder.SamePath | src/snes9x.rs:28 | `PathBuf` equality, as `dedup` uses it: same components |
| PathOrder.ComponentCmpFacts | src/snes9x.rs:27 | the component order is antisymmetric, ties only equal components and is transitive |
| PathOrder.ComponentsCmpAntisymmetric | src/snes9x.rs:27 | swapping two component lists reverses their order, and they tie exactly when equal |
| PathOrder.ComponentsCmpTransitive | src/snes9x.rs:27 | the order on component lists is transitive |
| PathOrder.TrailingSlashSamePath | src/snes9x.rs:28 | a trailing slash does not change which path it is, so `dedup` removes such a twin |
| PathOrder.PieceComponentsDropsEmpty | src/snes9x.rs:28 | an empty last piece adds no component |
| PathOrder.SplitTrailing | src/snes9x.rs:28 | one more `/` at the end adds one empty piece to the split |
| PathOrder.SplitAppendAfterFirst | src/snes9x.rs:28 | text appended after the first `/` lands in the pieces after the first |
| PathOrder.FindCharPrefix | src/snes9x.rs:28 | appending text does not move the first `/` |
| Utf8.IsContinuation | src/game_sources.rs:238 | a UTF-8 continuation byte, `10xxxxxx` |
| Utf8.EncodeChar | src/game_sources.rs:238 | a character encodes to one to four bytes: one exactly for ASCII, holding the character itself, and otherwise a lead byte and continuation bytes |
| Utf8.Encode | src/game_sources.rs:238 | `str::bytes`: never fewer bytes than characters |
| Utf8.Len | src/virtual_keyboard.rs:101 | `String::len`: the length in UTF-8 bytes |
| Utf8.IsScalar | src/launcher.rs:87 | a Unicode scalar value: at most 0x10FFFF and not a surrogate |
| Utf8.DecodeFirst | src/launcher.rs:87 | a decoded first character uses between one byte and all of them |
| Utf8.Decode | src/launcher.rs:87 | `String::from_utf8`: none for bytes that are not UTF-8 |
| Utf8.Split2 | src/game_sources.rs:238 | a two-byte code point splits into a lead value of 2 to 31 and six low bits |
| Utf8.Split3 | src/game_sources.rs:238 | a three-byte code point splits into a lead value up to 15 and two six-bit groups |
| Utf8.Split4 | src/game_sources.rs:238 | a four-byte code point splits into a lead value up to 4 and three six-bit groups |
| Utf8.DecodeFirstEncodeChar | src/launcher.rs:87 | decoding an encoded character yields it and its byte count, whatever follows |
| Utf8.DecodeTwo | src/launcher.rs:87 | a well-formed two-byte sequence decodes to its code point |
| Utf8.DecodeThree | src/launcher.rs:87 | a well-formed three-byte sequence of a scalar value decodes to its code point |
| Utf8.DecodeFour | src/launcher.rs:87 | a well-formed four-byte sequence decodes to its code point |
| Utf8.DecodeEncode | src/launcher.rs:87 | decoding the bytes of a string gives the string back |
| Utf8.EncodeAppend | src/game_sources.rs:238 | the bytes of a concatenation are the bytes of its parts |
| Utf8.EncodeAscii | src/game_sources.rs:238 | an ASCII string encodes to one byte per character, each its code |
| Utf8.LenAppendChar | src/virtual_keyboard.rs:245 | one more character adds its encoded length to `len()` |
| Options.Option.UnwrapOr | src/system_battery.rs:39 | `Option::unwrap_or`: the value when present, else the default |
| Options.Option.Or | src/game_sources.rs:349-350 | `Option::or`: the first option when present, else the second |
| Sorting.Ordering.Reverse | src/system_info.rs:322 | `Ordering::reverse`: Less and Greater swap, Equal stays |
| Sorting.Ordering.Then | src/game_sources.rs:20 | `Ordering::then`: the second comparison decides only ties |
| Sorting.Antisymmetric | src/system_info.rs:322 | a comparator that gives the reverse answer with its arguments swapped |
| Sorting.Transitive | src/system_info.rs:322 | a comparator whose "not greater" is transitive |
| Sorting.StrictTransitive | src/system_info.rs:322 | a comparator whose "less" is transitive |
| Sorting.Sorted | src/system_info.rs:322 | every neighbour pair is in order |
| Sorting.SortedPairwise | src/system_info.rs:322 | every pair is in order |
| Sorting.Insert | src/system_info.rs:322 | one insertion step of the stable sort: the list grows by one and starts with the new element or the old head |
| Sorting.SortBy | src/system_info.rs:322 | the stable `sort_by`: the length is kept |
| Sorting.InsertPermutes | src/system_info.rs:322 | an insertion adds exactly the new element |
| Sorting.InsertSorted | src/system_info.rs:322 | inserting into a sorted list keeps it sorted |
| Sorting.SortedIsPairwise | src/system_info.rs:322 | under a transitive comparator neighbours in order means all pairs in order |
| Sorting.SortedSubsequence | src/system_info.rs:322-323 | a subsequence of a pairwise sorted list is pairwise sorted |
| Sorting.DedupBy | src/system_info.rs:323 | `dedup_by`: never longer, keeps the first element, and no kept neighbours are the same |
| Sorting.DedupBySingle | src/system_info.rs:323 | one element is kept |
| Sorting.DedupByPair | src/system_info.rs:323 | of two elements the second is dropped exactly when it is the same as the first |
| Sorting.DedupByTriple | src/system_info.rs:323 | a third element is dropped exactly when it is the same as the last one kept |
| Sorting.DedupSubsequence | src/system_info.rs:323 | the kept elements come from strictly increasing positions of the input |
| Sorting.DedupPermutesSubset | src/system_info.rs:323 | the dedup keeps only input elements, each at most as often |
| Sorting.SortDedupCovers | src/system_info.rs:322-323 | every input element is, or is the same as, an element kept by sort and dedup |
| Sorting.DedupLast | src/system_info.rs:323 | the last input element is the last one kept or the same as it |
| Sorting.StartsRun | src/system_info.rs:323 | a position that is first or not the same as the element before it |
| Sorting.KeepsRunStarts | src/system_info.rs:323 | every kept element is the element at some run start of the input |
| Sorting.DedupKeepsRunStarts | src/system_info.rs:323 | for a transitive sameness, `dedup_by` keeps exactly run starts |
| Sorting.Matching | src/system_info.rs:322 | the elements equal under the comparator to a given one, in order |
| Sorting.MatchingAppend | src/system_info.rs:322 | the matching elements of a concatenation are those of each part |
| Sorting.NoMatching | src/system_info.rs:322 | a list with no element equal to the given one has no matching elements |
| Sorting.MatchingFirst | src/system_info.rs:322 | the first equal element heads the matching elements |
| Sorting.MatchingHead | src/system_info.rs:322 | the head of the matching elements is the first equal element of the list |
| Sorting.StrictLeq | src/system_info.rs:322 | less then not greater gives less |
| Sorting.LeqStrict | src/system_info.rs:322 | not greater then less gives less |
| Sorting.EqualToBoth | src/system_info.rs:322 | two elements equal to a third are equal to each other |
| Sorting.BelowSortedNoMatch | src/system_info.rs:322 | an element below the head of a sorted list matches none of it |
| Sorting.InsertMatching | src/system_info.rs:322 | an insertion puts the new element after every element equal to it |
| Sorting.SortByMatching | src/system_info.rs:322 | `sort_by` is stable: the elements equal to any given one keep their input order |
| Sorting.RunStartIsFirst | src/system_info.rs:322-323 | in a sorted list everything before a run start is below it |
| Sorting.FirstOfClass | src/system_info.rs:322 | the first of a run in the sorted list is the first of its class in the input |
| Sorting.SameIsTransitive | src/system_info.rs:323 | sameness that is comparator equality under a total order is transitive |
| Sorting.RunStartFirstFound | src/system_info.rs:322-323 | a run start of the sorted list is the first element of its class in the input |
| Sorting.RunStartNotEqual | src/system_info.rs:323 | where sameness is comparator equality, a run start under one is a run start under the other |
| Sorting.NoneEqualNoneSame | src/system_info.rs:323 | where sameness is comparator equality, no earlier equal element means no earlier same one |
| Sorting.RunStartOf | src/system_info.rs:323 | each kept element is the element at a run start of the input |
| Sorting.KeptIsFirstFound | src/system_info.rs:322-323 | each element kept by sort and dedup is the first of its class in the input |
| Sorting.SortDedupKeepsFirst | src/system_info.rs:322-323 | sorting by a total order and merging equal neighbours keeps, of every class, the element found first |
| Sorting.StrCmp | src/system_info.rs:322 | `String::cmp`: lexicographic by code point, which is UTF-8 byte order |
| Sorting.StrCmpEqual | src/system_info.rs:323 | two strings compare equal exactly when they are the same |
| Sorting.StrCmpAntisymmetric | src/system_info.rs:322 | swapping two strings reverses their comparison |
| Sorting.StrCmpTransitive | src/system_info.rs:322 | string comparison is transitive |
| Sorting.StrCmpIsAntisymmetric | src/system_info.rs:322 | string comparison is an antisymmetric comparator |
| Sorting.StrCmpIsTransitive | src/system_info.rs:322 | string comparison is a transitive comparator |
| Strings.IsWhitespace | src/launcher.rs:155 | `char::is_whitespace`: the Unicode White_Space characters, tab to carriage return, space, NEL, NBSP and the wider spaces |
| Strings.IsAsciiDigit | src/game_sources.rs:466 | `is_ascii_digit`: exactly `0` to `9` |
| Strings.IsAsciiAlpha | src/game_sources.rs:239 | the ASCII letters `a`-`z` and `A`-`Z` |
| Strings.IsAsciiAlphanumeric | src/game_sources.rs:239 | `is_ascii_alphanumeric`: an ASCII letter or digit |
| Strings.AllAsciiDigits | src/game_sources.rs:466 | every character is an ASCII digit (true of the empty text, like `chars().all`) |
| Strings.NoWhitespace | src/system_info.rs:146 | no character is whitespace, as every piece of `split_whitespace` |
| Strings.LowerChar | src/game_sources.rs:415 | lowercases `A`-`Z` and keeps every other character |
| Strings.UpperChar | src/virtual_keyboard.rs:250 | uppercases `a`-`z` and keeps every other character |
| Strings.ToLower | src/game_sources.rs:110 | same length, and each character is the lowercased character at the same place |
| Strings.ToLowerIdempotent | src/focus_manager.rs:86-96 | lowercasing already lowercased text changes nothing |
| Strings.ToLowerAppend | src/focus_manager.rs:96 | lowercasing a concatenation is the concatenation of the lowercased parts |
| Strings.EqIgnoreCase | src/launcher.rs:257 | `eq_ignore_ascii_case`: the two texts are equal once both are lowercased |
| Strings.StartsWith | src/launcher.rs:70 | `starts_with`: the pattern is a prefix |
| Strings.EndsWith | src/game_sources.rs:460 | `ends_with`: the pattern is a suffix |
| Strings.StripPrefix | src/game_sources.rs:465 | `strip_prefix` succeeds exactly when the text starts with the prefix, and then the text is the prefix followed by the result |
| Strings.TrimStartMatches | src/launcher.rs:72 | the result is a suffix of the input, and for a non-empty pattern it no longer starts with the pattern |
| Strings.TrimEndMatches | src/system_update.rs:313 | the result is a prefix of the input, and for a non-empty pattern it no longer ends with the pattern |
| Strings.TrimStartMatchesOnce | src/launcher.rs:70-72 | one leading pattern is removed when what follows does not start with it |
| Strings.TrimMatchesCharAround | src/system_info.rs:110 | `trim_matches('"')` turns `"text"` into `text` when `text` has no quote at its ends |
| Strings.TrimMatchesCharNone | src/system_info.rs:110 | `trim_matches(c)` keeps text with no `c` at its ends |
| Strings.TrimStartMatchesNone | src/system_info.rs:109 | text that does not start with the pattern is kept by `trim_start_matches` |
| Strings.TrimEndMatchesNone | src/system_update.rs:313 | text that does not end with the pattern is kept by `trim_end_matches` |
| Strings.TrimMatchesChar | src/system_info.rs:110 | the result neither starts nor ends with the character |
| Strings.TrimStart | src/desktop_apps.rs:75 | the result is a suffix of the input, everything dropped is whitespace, and it does not start with whitespace |
| Strings.TrimEnd | src/desktop_apps.rs:75 | the result is a prefix of the input, everything dropped is whitespace, and it does not end with whitespace |
| Strings.Trim | src/desktop_apps.rs:75 | the result is no longer than the input and neither starts nor ends with whitespace |
| Strings.TrimAddsNothing | src/desktop_apps.rs:89 | a character absent from the text is absent from its trim |
| Strings.TrimOfNoWhitespace | src/desktop_apps.rs:89 | text without whitespace is its own trim |
| Strings.TrimIdempotent | src/desktop_apps.rs:75 | trimming twice is trimming once |
| Strings.TrimOfEnds | src/desktop_apps.rs:89 | non-empty text whose first and last characters are not whitespace is its own trim |
| Strings.TrimDropsLastWhitespace | src/system_battery.rs:30-33 | trimmed text followed by one whitespace character trims back to the text |
| Strings.TrimSkipsFirstWhitespace | src/launcher.rs:80 | one whitespace character before trimmed text trims back to the text |
| Strings.Find | src/system_info.rs:273 | `find`: a returned index is an occurrence with no occurrence before it; `None` means no occurrence anywhere |
| Strings.NotFoundShift | src/system_info.rs:273 | no occurrence at the start nor in the rest means no occurrence at all |
| Strings.FoundShift | src/system_info.rs:273 | the first occurrence in the rest, when the text does not start with the pattern, is the first occurrence of the text one place later |
| Strings.Contains | src/launcher.rs:180 | `contains`: `find` succeeds |
| Strings.ContainsAt | src/focus_manager.rs:96-97 | an occurrence at some index makes the text contain the pattern |
| Strings.ContainsWitness | src/focus_manager.rs:96-97 | contained text has an occurrence at the returned index |
| Strings.FindFirstAt | src/system_info.rs:273 | an occurrence with none before it is exactly what `find` returns |
| Strings.PrefixAt | src/system_info.rs:273 | an occurrence at an index means the pattern is a prefix of the text from that index |
| Strings.FindChar | src/system_info.rs:407 | `find(c)`: the returned index holds `c` and nothing before it does; `None` means `c` does not occur |
| Strings.FindCharAbsent | src/system_info.rs:407 | an absent character is not found |
| Strings.FindCharAt | src/system_info.rs:407 | a place holding `c` with no `c` before it is the one found |
| Strings.NotContainsChar | src/launcher.rs:180 | a pattern with a character the text lacks is not contained |
| Strings.RFindChar | src/xdg_utils.rs:56 | `rfind(c)`: the returned index holds `c` and nothing after it does; `None` means `c` does not occur |
| Strings.RFindCharAt | src/xdg_utils.rs:56 | a place holding `c` with no `c` after it is the one `rfind` returns |
| Strings.Split | src/launcher.rs:81 | `split(c)` has at least one piece and no piece holds `c` |
| Strings.AfterLast | src/launcher.rs:81-83 | the text after the last `c`, or all of the text when it has no `c` |
| Strings.SplitLast | src/launcher.rs:81-83 | the last piece of `split(c)` is the text after the last `c` |
| Strings.SplitLastStep | src/launcher.rs:81-83 | the last-piece property carries over from the text after the first `c` to the whole text |
| Strings.SplitAbsent | src/launcher.rs:81 | text without `c` splits into itself alone |
| Strings.SplitAfterFirst | src/launcher.rs:81 | the last piece is the same as the last piece of the text after the first `c` |
| Strings.SplitFirst | src/launcher.rs:81 | the first piece is the text before the first `c`, followed by the pieces of the rest |
| Strings.LastOfCons | src/launcher.rs:81-83 | putting one piece in front keeps the last piece |
| Strings.RFindAfterFirst | src/launcher.rs:81-83 | the text after the last `c` is the same in the whole text and in the text after its first `c` |
| Strings.SplitStr | src/simple64.rs:90 | `split(", ")` for a non-empty separator has at least one piece |
| Strings.SplitOnce | src/simple64.rs:79 | `split_once(c)` fails exactly when `c` is absent; otherwise the text is the first part, `c`, the second part, and the first part holds no `c` |
| Strings.Join | src/focus_manager.rs:96 | `join(sep)`: the parts with `sep` between consecutive ones |
| Strings.Replace | src/game_sources.rs:490 | `replace(from, to)`: every non-overlapping occurrence, left to right, is replaced |
| Strings.ReplaceCharRemovesIt | src/launcher.rs:109 | replacing a character by nothing leaves no occurrence of it |
| Strings.ReplaceAbsent | src/game_sources.rs:490 | text without the pattern is kept by `replace` |
| Strings.TakeWord | src/system_info.rs:146 | the length of the leading run of non-whitespace; what follows it is whitespace or the end |
| Strings.Words | src/xdg_utils.rs:92 | `split_whitespace`: every piece is non-empty and holds no whitespace |
| Strings.FirstWordShape | src/xdg_utils.rs:92 | text starting with a non-whitespace character has a non-empty first word without whitespace |
| Strings.WordsConsShape | src/xdg_utils.rs:92 | a word in front of valid words gives valid words |
| Strings.WordsOfWord | src/xdg_utils.rs:92 | text without whitespace is its own single word |
| Strings.WordsAppendSpace | src/xdg_utils.rs:92-95 | a word, a space and a rest give that word followed by the words of the rest |
| Strings.WordsSkipSpace | src/xdg_utils.rs:92 | a leading space does not change the words |
| Strings.WordsAppendWhitespace | src/xdg_utils.rs:92 | text without whitespace, a whitespace character and a rest give that text (when non-empty) followed by the words of the rest |
| Strings.WordsAfterWord | src/xdg_utils.rs:92 | a word followed by text starting with whitespace gives that word followed by the words of the text |
| Strings.WordsSkipWhitespace | src/xdg_utils.rs:92 | a leading whitespace character does not change the words |
| Strings.WordsOfWordStart | src/xdg_utils.rs:92 | text starting with a non-whitespace character gives its leading run followed by the words of the remainder |
| Strings.WordsAfterWhitespace | src/xdg_utils.rs:92 | the words gathered so far and the words of the text regroup at the next whitespace character |
| Strings.PlainWordsTail | src/xdg_utils.rs:92 | the first word and the rest of a list of valid words are valid |
| Strings.WordsOfJoinStep | src/xdg_utils.rs:92-95 | the join round trip carries over from the tail of the list to the whole list |
| Strings.SingleWordIsTrim | src/system_info.rs:146 | text with exactly one word trims to that word |
| Strings.TrimEndOfWhitespaceTail | src/system_battery.rs:30-33 | text ending in a non-whitespace character followed only by whitespace trims its end back to that character |
| Strings.ConcatAssoc | src/launcher.rs:131-164 | concatenation is associative |
| Strings.PrefixOfConcat | src/launcher.rs:131-164 | the first part is a prefix of a concatenation |
| Strings.Regroup | src/launcher.rs:131-164 | a five-part concatenation regroups to the right |
| Strings.DropConcat | src/launcher.rs:131-164 | dropping the first part of a concatenation leaves the second |
| Strings.TakeDropConcat | src/launcher.rs:131-164 | a text is its prefix followed by the matching suffix |
| Strings.TakeWordPrefix | src/xdg_utils.rs:92 | the leading run of a word followed by whitespace or nothing is that word |
| Strings.StripCR | src/snes9x.rs:126 | drops one trailing carriage return, as `lines()` does |
| Strings.Lines | src/snes9x.rs:126 | `lines()`: split at each newline, dropping one `\r` before it, with no empty final line after a trailing newline; no line holds `\n` |
| Strings.DigitValue | src/system_battery.rs:33 | the numeric value of an ASCII digit |
| Strings.DigitsValue | src/system_battery.rs:33 | the decimal value of a run of ASCII digits, most significant first |
| Strings.UnsignedDigits | src/system_battery.rs:33 | the text after an optional leading `+` |
| Strings.ParseUnsigned | src/system_battery.rs:33 | `parse::<u8>` and its wider kin: a parsed value is below `2^bits` |
| Strings.ParseUnsignedAccepts | src/system_battery.rs:33 | parsing succeeds exactly for an optional `+` followed by one or more digits whose value fits, and then yields that value |
| Strings.Pow2 | src/system_battery.rs:33 | a power of two is at least one |
| Strings.DigitChar | src/system_info.rs:215 | the ASCII digit for a value below ten |
| Strings.NatToString | src/system_info.rs:215 | decimal formatting: non-empty ASCII digits whose value is the number |
| Strings.ParseNatToString | src/system_info.rs:215 | parsing the decimal formatting of a number that fits gives the number back |
| Strings.TrimDigitsBeforeWhitespace | src/system_battery.rs:30-33 | digits followed only by whitespace trim to the digits |
| Strings.DigitsHaveNoWhitespace | src/system_battery.rs:30-33 | a run of ASCII digits holds no whitespace |

## Findings

| source | as written | input that shows it | evidently intended | confidence | as-written member | corrected member |
|---|---|---|---|---|---|---|
| src/desktop_apps.rs:40-44 | the apps are sorted by lower-cased name but deduplicated by exact name, so only neighbours with the same exact name merge | three apps found in the order `Foo` (user), `foo`, `Foo` (system): the stable sort keeps that order, no two neighbours share an exact name, and `Foo` is listed twice | one entry per name, the first found, as the comment on the dedup says; deduplicating on the lower-cased name that the sort uses gives that | medium; not executed | DesktopApps.CaseVariantKeepsDuplicate | DesktopApps.NamesDistinctIgnoringCase |
| src/xdg_utils.rs:23-25 | the apps are sorted by name only and then deduplicated by name and command, so two equal apps merge only when they end up next to each other | apps `a`, `b`, `a` in scan order, where `a` and `b` share a name but differ in command: the stable sort keeps that order and both copies of `a` stay | no app listed twice with the same name and command, as the comment says; sorting by name and then by command first makes equal apps neighbours | medium; not executed | XdgUtils.DuplicateSurvivesAsWritten | XdgUtils.NoDuplicateAfterNameExecSort |
| src/ui.rs:634-643 | the Remove Entry arm closes the menu, removes the app and saves, then falls out of the `match` to line 667, which sets the menu again at index 1 | Select on Remove Entry in the Apps menu: the entry is gone and the context menu is still open on Remove Entry | the menu stays closed after the removal, as the first statement of the arm says | medium; not executed | Ui.Launcher.HandleContextMenuNavigation | Ui.Launcher.RemoveSelectedEntry |
| src/app.rs:901-931 | the same fall-through: after the removal line 955 re-opens the context menu at index 1 | Select on Remove Entry in the Apps menu: the menu is open again after the entry is removed | the menu stays closed after the removal | medium; not executed | App.Launcher.HandleContextMenuNavigation | App.Launcher.RemoveSelectedEntry |

## Left out

- Rendering is not modelled: `view` and the `render_*` functions of src/ui.rs and
  src/app.rs, `VirtualKeyboard::view` and `key_label`, the widget files, and the iced
  `Task`, `Subscription` and window plumbing. None of them decides state.
- `update_columns`, `update_app_picker_cols` and `snap_to_picker_selection` work in
  `f32` screen units, so they are left out. The number of grid columns is a parameter
  of the navigation functions instead.
- `format_bytes` formats floating-point numbers, so it is left out. `ZramInfo` keeps
  the disk size and the used space as byte counts.
- `Category::title` is only display text.
- Network clients are not modelled: the SteamGridDB and SearXNG clients, the image
  fetcher, and the download, decoding and resizing in `ImageCache::save_image`.
  `SaveImage` stops at the decision to download. `ImageCache::new` only creates a
  directory, so it is left out too.
- Process, file and DBus I/O enter as parameters or are left out:
  - spawning the child in `launch_app`;
  - the permission bits checked by `is_executable_path`, a set of executable paths here;
  - `PATH` searches: `command_exists`, `is_*_available`, `get_snes9x_binary`, `get_update_command`, `detect_aur_helper`;
  - the config-path discovery of the scanners (`BaseDirs`, `get_snes9x_config_paths`);
  - the `Command` calls of src/system_info.rs: kernel version, CPU, memory, glxinfo driver, Vulkan, Wine, CPU governor, controllers, GameMode;
  - writing files: `ensure_fullscreen_on_open` in src/snes9x.rs, and the file write of `ensure_fullscreen_config`, whose line rewrite is modelled.
- The `scan_*` drivers that walk the file system to call the modelled parsers are
  modelled only in the parts other code depends on. Those are the directory and
  sort/dedup steps of snes9x, simple64 and gopher64, the Steam and Heroic merge, and
  the desktop-app sort/dedup. The other directory walks are file-system iteration.
- Concurrency is not modelled:
  - the `tokio::select!` loops of `system_update_stream` and `monitor_child`;
  - the gilrs polling thread, `is_likely_keyboard`, `from_gamepad` and the connection haptics;
  - the gamepad battery reports;
  - rayon's parallel iteration, which keeps the sequential order it is modelled with.
- `serde_json::from_str`, the serde round trips of src/storage.rs, the
  `freedesktop_desktop_entry` parser and the `freedesktop_icons` theme search are
  libraries. Their results are inputs to the model.
- Two other lookups enter as inputs:
  - the icon-theme search of `resolve_icon` beyond its absolute-path branch;
  - the themed lookup of `resolve_icon_path`.
- src/main.rs, src/messages.rs, src/assets.rs and src/ui_state.rs hold only data. The
  types they declare appear where the model uses them.
- Random values are parameters: `Uuid::new_v4()` is an `id`. The clock is a sequence
  of readings, and each monitor poll is a reading paired with a snapshot of `/proc`.
- FocusManager.CheckCmdline and FocusManager.CheckEnvVar: the process table is a
  snapshot. Races with processes that start or exit during the scan are not modelled.
- Strings.ToLower: this is ASCII case folding. `to_lowercase` also folds non-ASCII
  letters, and names that contain them are not modelled exactly.
- SystemInfo.ExtractVersionFromName: the index found in the lower-cased name is the
  same position in the name itself only when lower-casing keeps the byte length,
  which holds for ASCII. Names where it does not are not modelled.
- ImageCache.SanitizeName: the model keeps ASCII letters and digits. Rust's
  `is_alphanumeric` also keeps non-ASCII letters and digits.
- SystemInfo.SelectedAlgorithm: requires that no `]` comes before the first `[`
  when both are present. For such a file the source's slice panics, and that panic
  is not modelled.
- Paths.FileName: components are not normalised. Rust drops a trailing `/` and a
  trailing `/.` before taking the last component, so `"/usr/bin/"` gives `bin` and
  `"a/."` gives `a`. The model takes the text after the last `/`, so it gives no
  name for the first and `.` for the second.
- SystemUpdate.OutputMonitor: the output buffer is text. The lossy UTF-8 decoding
  of the child's bytes at src/system_update.rs:190-191 is not modelled.
